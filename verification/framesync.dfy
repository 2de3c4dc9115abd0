/** Properties of the synchroniser over runs of bytes: a well-framed request
    arriving while no preamble is locked is dispatched exactly once, at its
    last byte, whatever garbage came before it. */
module FrameSync {
  import opened Bytes
  import opened Optional
  import opened Nfc
  import HostLink
  import opened Commands
  import opened BanaReader

  /** Every state reachable from power-on is in sync. */
  lemma ReachableSynced(ins: seq<Input>, handle: Dispatcher)
    ensures Synced(Run(Init(), ins, handle).reader)
  {
    RunKeepsSync(Init(), ins, handle);
  }

  /** A byte fed in sync leaves the synchroniser in sync, and a frame it
      dispatches starts with the preamble. */
  lemma FeedKeepsSync(r: Reader, c: int, now: uint32, now64: uint64, handle: Dispatcher)
    requires Synced(r)
    ensures var s := Feed(r, c, now, now64, handle);
      && Synced(s.reader)
      && (s.dispatched.Some? ==> s.dispatched.value[..3] == HostLink.Preamble)
  {
    var a := Accumulate(r, c, now);
    if a.len >= 4 {
      assert a.buf[..3] == r.request[..3];
    }
  }

  /** A run fed in sync stays in sync. */
  lemma {:induction false} RunKeepsSync(r: Reader, ins: seq<Input>, handle: Dispatcher)
    requires Synced(r)
    ensures Synced(Run(r, ins, handle).reader)
    decreases |ins|
  {
    if |ins| > 0 {
      FeedKeepsSync(r, ins[0].c, ins[0].now, ins[0].now64, handle);
      RunKeepsSync(Feed(r, ins[0].c, ins[0].now, ins[0].now64, handle).reader, ins[1..], handle);
    }
  }

  /** After a gap longer than ResyncGap the partial frame is abandoned: the
      byte starts a new frame, or is dropped if it is the wake tone. */
  lemma ResyncAfterGap(r: Reader, c: int, now: uint32, now64: uint64, handle: Dispatcher)
    requires Valid(r) && Elapsed(r.time, now) > ResyncGap
    ensures var s := Feed(r, c, now, now64, handle);
      && s.dispatched.None? && s.reader.frameLen <= 1
      && (s.reader.frameLen == 1 <==> c % 0x100 != WakeTone)
      && (s.reader.frameLen == 1 ==> s.reader.request[0] == c % 0x100)
  {
  }

  /** A dispatched frame is exactly LEN + 7 bytes long, fits the buffer, and
      ends with the byte just fed. */
  lemma DispatchedFrame(r: Reader, c: int, now: uint32, now64: uint64, handle: Dispatcher)
    requires Valid(r) && Feed(r, c, now, now64, handle).dispatched.Some?
    ensures var frame := Feed(r, c, now, now64, handle).dispatched.value;
      && Len(frame) <= BufferSize - 7
      && r.frameLen == Len(frame) as int + 6
      && frame[Len(frame) as int + 6] == c % 0x100
  {
  }

  /** A byte that dispatches nothing leaves every buffer byte past the
      partial frame (and past the first two) as it was. */
  lemma StaleBytesKept(r: Reader, c: int, now: uint32, now64: uint64, handle: Dispatcher)
    requires Valid(r) && Feed(r, c, now, now64, handle).dispatched.None?
    ensures var s := Feed(r, c, now, now64, handle);
      forall i :: r.frameLen < i < BufferSize && 1 < i ==> s.reader.request[i] == r.request[i]
  {
  }

  /** A wake tone arriving at the start of a frame is dropped: nothing is
      dispatched, nothing sent and the activity time is untouched. */
  lemma WakeToneDropped(r: Reader, now: uint32, now64: uint64, handle: Dispatcher)
    requires Valid(r) && StoreAt(r, now) == 0
    ensures var s := Feed(r, WakeTone, now, now64, handle);
      && s.reader.frameLen == 0 && s.dispatched.None? && s.out == []
      && s.reader.expireTime == r.expireTime
  {
  }

  /** A complete six-byte header whose LEN is 0 (an ACK frame) is dropped. */
  lemma EmptyHeaderDropped(r: Reader, c: int, now: uint32, now64: uint64, handle: Dispatcher)
    requires Synced(r) && r.frameLen == 5 && Len(r.request) == 0
    requires Elapsed(r.time, now) <= ResyncGap
    ensures var s := Feed(r, c, now, now64, handle);
      && s.reader.frameLen == 0 && s.dispatched.None? && s.out == []
      && s.reader.expireTime == r.expireTime
  {
  }

  /** When the third byte does not complete the preamble, only the oldest
      byte is dropped: the search slides one byte at a time. */
  lemma PreambleSearchSlides(r: Reader, c: int, now: uint32, now64: uint64, handle: Dispatcher)
    requires Valid(r) && r.frameLen == 2 && Elapsed(r.time, now) <= ResyncGap
    requires [r.request[0], r.request[1], c % 0x100] != HostLink.Preamble
    ensures var s := Feed(r, c, now, now64, handle);
      && s.reader.frameLen == 2 && s.dispatched.None?
      && s.reader.request[0] == r.request[1] && s.reader.request[1] == c % 0x100
  {
    var a := Accumulate(r, c, now);
    assert r.request[2 := c % 0x100][..3] == [r.request[0], r.request[1], c % 0x100];
  }

  /** After a dispatch that does not wrap the 64-bit clock, the reader stays
      active for exactly ExpireTime microseconds. */
  lemma ActiveAfterFrame(r: Reader, c: int, now: uint32, now64: uint64, handle: Dispatcher, later: uint64)
    requires Valid(r) && now64 + ExpireTime < Wrap64
    requires Feed(r, c, now, now64, handle).dispatched.Some?
    ensures IsActive(Feed(r, c, now, now64, handle).reader, later) <==> later < now64 + ExpireTime
  {
    var s := Feed(r, c, now, now64, handle);
    assert s.reader.expireTime == now64 + ExpireTime;
  }

  /** A byte that dispatches nothing leaves the reader active at exactly the
      same times as before: only a complete frame moves the expiry. */
  lemma QuietKeepsActivity(r: Reader, c: int, now: uint32, now64: uint64, handle: Dispatcher, later: uint64)
    requires Valid(r) && Feed(r, c, now, now64, handle).dispatched.None?
    ensures IsActive(Feed(r, c, now, now64, handle).reader, later) <==> IsActive(r, later)
  {
  }

  /** Feeding the three preamble bytes while at most two bytes are held
      locks onto the preamble, whatever those bytes were and however long
      the line was idle before. */
  lemma PreambleFound(r: Reader, ins: seq<Input>, handle: Dispatcher)
    requires Valid(r) && r.frameLen <= 2 && |ins| >= 3
    requires Fed(ins)[..3] == HostLink.Preamble && Paced(ins)
    ensures var s1 := Feed(r, ins[0].c, ins[0].now, ins[0].now64, handle);
            var s2 := Feed(s1.reader, ins[1].c, ins[1].now, ins[1].now64, handle);
            var s3 := Feed(s2.reader, ins[2].c, ins[2].now, ins[2].now64, handle);
            && s1.dispatched.None? && s2.dispatched.None? && s3.dispatched.None?
            && s3.reader.frameLen == 3
            && s3.reader.request == HostLink.Preamble + r.request[3..]
            && s3.reader.time == ins[2].now
  {
    assert Fed(ins)[0] == 0x00 && Fed(ins)[1] == 0x00 && Fed(ins)[2] == 0xFF;
    var s1 := Feed(r, ins[0].c, ins[0].now, ins[0].now64, handle);
    FirstZero(r, ins[0].c, ins[0].now, ins[0].now64, handle);
    var s2 := Feed(s1.reader, ins[1].c, ins[1].now, ins[1].now64, handle);
    SecondZero(s1.reader, ins[1].c, ins[1].now, ins[1].now64, handle);
    PreambleCompleted(s2.reader, ins[2].c, ins[2].now, ins[2].now64, handle);
  }

  /** A first 00 while at most two bytes are held leaves one or two bytes,
      the last of them 00. */
  lemma FirstZero(r: Reader, c: int, now: uint32, now64: uint64, handle: Dispatcher)
    requires Valid(r) && r.frameLen <= 2 && c % 0x100 == 0
    ensures var s := Feed(r, c, now, now64, handle);
      && s.dispatched.None? && 1 <= s.reader.frameLen <= 2
      && s.reader.request[s.reader.frameLen - 1] == 0x00
      && s.reader.request[3..] == r.request[3..]
  {
    var k := StoreAt(r, now);
    var buf := r.request[k := 0x00];
    if k == 2 {
      assert buf[..3][2] != HostLink.Preamble[2];
    }
    var a := Accumulate(r, c, now);
    assert 1 <= a.len <= 2 && a.buf[a.len - 1] == 0x00;
    assert a.buf[3..] == r.request[3..];
  }

  /** A second 00 after one leaves exactly `00 00`. */
  lemma SecondZero(r: Reader, c: int, now: uint32, now64: uint64, handle: Dispatcher)
    requires Valid(r) && 1 <= r.frameLen <= 2 && r.request[r.frameLen - 1] == 0x00
    requires c % 0x100 == 0 && Elapsed(r.time, now) <= ResyncGap
    ensures var s := Feed(r, c, now, now64, handle);
      && s.dispatched.None? && s.reader.frameLen == 2
      && s.reader.request[0] == 0x00 && s.reader.request[1] == 0x00
      && s.reader.request[3..] == r.request[3..]
  {
    var a := Accumulate(r, c, now);
    assert a.len == 2 && a.buf[0] == 0x00 && a.buf[1] == 0x00;
    assert a.buf[3..] == r.request[3..];
  }

  /** FF after `00 00` completes the preamble. */
  lemma PreambleCompleted(r: Reader, c: int, now: uint32, now64: uint64, handle: Dispatcher)
    requires Valid(r) && r.frameLen == 2 && r.request[0] == 0x00 && r.request[1] == 0x00
    requires c % 0x100 == 0xFF && Elapsed(r.time, now) <= ResyncGap
    ensures var s := Feed(r, c, now, now64, handle);
      && s.dispatched.None? && s.reader.frameLen == 3
      && s.reader.request == HostLink.Preamble + r.request[3..]
  {
    var a := Accumulate(r, c, now);
    assert a.len == 3 && a.buf[..3] == HostLink.Preamble;
    assert a.buf == HostLink.Preamble + r.request[3..];
  }

  /** Once the first k >= 3 bytes of a frame are held, the rest of the frame
      is appended byte by byte and the last one dispatches it; bytes of the
      buffer past the frame keep their stale contents. */
  lemma {:induction false} AssembleRest(s: Reader, ins: seq<Input>, k: nat, stale: Buffer, handle: Dispatcher)
    requires Framed(Fed(ins)) && Paced(ins) && 3 <= k < |ins|
    requires Valid(s) && s.frameLen == k && s.time == ins[k - 1].now
    requires s.request == Fed(ins)[..k] + stale[k..]
    ensures var tr := Run(s, ins[k..], handle);
            var frame: Buffer := Fed(ins) + stale[|ins|..];
            var last := ins[|ins| - 1];
            && tr.frames == 1
            && tr.out == Wire(handle(frame).response)
            && tr.reader.frameLen == 0
            && tr.reader.request == handle(frame).request
            && tr.reader.expireTime == (last.now64 + ExpireTime) % Wrap64
    decreases |ins| - k
  {
    if k + 1 < |ins| {
      QuietStep(s, ins, k, stale, handle);
      var next := Reader(Fed(ins)[..k + 1] + stale[k + 1..], k + 1, ins[k].now, s.expireTime);
      AssembleRest(next, ins, k + 1, stale, handle);
    } else {
      LastStep(s, ins, k, stale, handle);
    }
  }

  /** A byte before the last is appended silently. */
  lemma QuietStep(s: Reader, ins: seq<Input>, k: nat, stale: Buffer, handle: Dispatcher)
    requires Framed(Fed(ins)) && Paced(ins) && 3 <= k && k + 1 < |ins|
    requires Valid(s) && s.frameLen == k && s.time == ins[k - 1].now
    requires s.request == Fed(ins)[..k] + stale[k..]
    ensures var next := Reader(Fed(ins)[..k + 1] + stale[k + 1..], k + 1, ins[k].now, s.expireTime);
            Run(s, ins[k..], handle) == Run(next, ins[k + 1..], handle)
  {
    AppendByte(s, ins, k, stale, handle);
    var tail := ins[k..];
    assert tail[0] == ins[k] && tail[1..] == ins[k + 1..];
    QuietHead(s, tail, handle);
  }

  /** A first byte that dispatches nothing contributes nothing to the run. */
  lemma QuietHead(r: Reader, ins: seq<Input>, handle: Dispatcher)
    requires Valid(r) && |ins| > 0
    requires Feed(r, ins[0].c, ins[0].now, ins[0].now64, handle).dispatched.None?
    ensures Run(r, ins, handle) == Run(Feed(r, ins[0].c, ins[0].now, ins[0].now64, handle).reader, ins[1..], handle)
  {
    RunStep(r, ins, handle);
    var rest := Run(Feed(r, ins[0].c, ins[0].now, ins[0].now64, handle).reader, ins[1..], handle);
    EmptyPrefix(Feed(r, ins[0].c, ins[0].now, ins[0].now64, handle).out, rest.out);
  }

  /** Output that starts with nothing is just what follows. */
  lemma EmptyPrefix(a: seq<uint8>, b: seq<uint8>)
    requires a == []
    ensures a + b == b
  {
  }

  /** The last byte of the frame dispatches it. */
  lemma LastStep(s: Reader, ins: seq<Input>, k: nat, stale: Buffer, handle: Dispatcher)
    requires Framed(Fed(ins)) && Paced(ins) && 3 <= k && k + 1 == |ins|
    requires Valid(s) && s.frameLen == k && s.time == ins[k - 1].now
    requires s.request == Fed(ins)[..k] + stale[k..]
    ensures var tr := Run(s, ins[k..], handle);
            var frame: Buffer := Fed(ins) + stale[|ins|..];
            && tr.frames == 1
            && tr.out == Wire(handle(frame).response)
            && tr.reader.frameLen == 0
            && tr.reader.request == handle(frame).request
            && tr.reader.expireTime == (ins[k].now64 + ExpireTime) % Wrap64
  {
    var x := ins[k];
    var step := Feed(s, x.c, x.now, x.now64, handle);
    AppendByte(s, ins, k, stale, handle);
    RunStep(s, ins[k..], handle);
    assert ins[k..][0] == x && ins[k..][1..] == [];
    assert step.out + [] == step.out;
  }

  /** One byte of the rest of a frame: it is appended, and the last one
      dispatches the frame. */
  lemma AppendByte(s: Reader, ins: seq<Input>, k: nat, stale: Buffer, handle: Dispatcher)
    requires Framed(Fed(ins)) && Paced(ins) && 3 <= k < |ins|
    requires Valid(s) && s.frameLen == k && s.time == ins[k - 1].now
    requires s.request == Fed(ins)[..k] + stale[k..]
    ensures var x := ins[k];
            var step := Feed(s, x.c, x.now, x.now64, handle);
            var frame: Buffer := Fed(ins) + stale[|ins|..];
            && (k + 1 < |ins| ==>
                  step == Step(Reader(Fed(ins)[..k + 1] + stale[k + 1..], k + 1, x.now, s.expireTime), [], [], None))
            && (k + 1 == |ins| ==>
                  && step.dispatched.Some?
                  && step.out == Wire(handle(frame).response)
                  && step.reader.frameLen == 0
                  && step.reader.request == handle(frame).request
                  && step.reader.expireTime == (x.now64 + ExpireTime) % Wrap64)
  {
    var f := Fed(ins);
    var x := ins[k];
    assert Elapsed(ins[k - 1].now, x.now) <= ResyncGap;
    var a := Accumulate(s, x.c, x.now);
    assert a.len == k + 1;
    assert a.buf == f[..k + 1] + stale[k + 1..];
    assert Len(a.buf) == f[3];
    if k + 1 == |ins| {
      assert f[..k + 1] == f;
      var step := Feed(s, x.c, x.now, x.now64, handle);
      assert step.dispatched == Some(a.buf);
    }
  }

  /** A well-framed request, fed with no gap over ResyncGap while at most two
      bytes are held, is dispatched exactly once, at its last byte, with the
      buffer holding the frame followed by stale bytes.  LCS, direction and
      data checksum are never looked at. */
  lemma FrameDispatched(r: Reader, ins: seq<Input>, handle: Dispatcher)
    requires Valid(r) && r.frameLen <= 2
    requires Framed(Fed(ins)) && Paced(ins)
    ensures var tr := Run(r, ins, handle);
            var frame: Buffer := Fed(ins) + r.request[|ins|..];
            var last := ins[|ins| - 1];
            && tr.frames == 1
            && tr.out == Wire(handle(frame).response)
            && tr.reader.frameLen == 0
            && tr.reader.expireTime == (last.now64 + ExpireTime) % Wrap64
  {
    PreambleFound(r, ins, handle);
    var s1 := Feed(r, ins[0].c, ins[0].now, ins[0].now64, handle);
    var s2 := Feed(s1.reader, ins[1].c, ins[1].now, ins[1].now64, handle);
    var s3 := Feed(s2.reader, ins[2].c, ins[2].now, ins[2].now64, handle);
    AssembleRest(s3.reader, ins, 3, r.request, handle);
    var rest := Run(s3.reader, ins[3..], handle);
    RunStep(s2.reader, ins[2..], handle);
    assert ins[2..][1..] == ins[3..];
    RunStep(s1.reader, ins[1..], handle);
    assert ins[1..][1..] == ins[2..];
    RunStep(r, ins, handle);
  }

  /** One step of a run: the first byte is fed, then the rest. */
  lemma RunStep(r: Reader, ins: seq<Input>, handle: Dispatcher)
    requires Valid(r) && |ins| > 0
    ensures var s := Feed(r, ins[0].c, ins[0].now, ins[0].now64, handle);
            var rest := Run(s.reader, ins[1..], handle);
            Run(r, ins, handle) == Trace(rest.reader, s.out + rest.out, (if s.dispatched.Some? then 1 else 0) + rest.frames)
  {
  }

  /** With a partial frame of four bytes or more held in sync, the next byte
      (arriving in time) dispatches it exactly when it brings the count to
      LEN + 7. */
  lemma DispatchRule(r: Reader, c: int, now: uint32, now64: uint64, handle: Dispatcher)
    requires Synced(r) && 4 <= r.frameLen < BufferSize && Elapsed(r.time, now) <= ResyncGap
    ensures Feed(r, c, now, now64, handle).dispatched.Some? <==> r.frameLen + 1 == Len(r.request) as int + 7
  {
  }

  /** Two bytes of anything fed to an empty buffer cannot hide a request that
      follows them: it is still dispatched exactly once. */
  lemma GarbageThenFrame(r: Reader, junk: seq<Input>, ins: seq<Input>, handle: Dispatcher)
    requires Valid(r) && r.frameLen == 0 && |junk| == 2
    requires Framed(Fed(ins)) && Paced(ins)
    ensures var tr := Run(r, junk + ins, handle);
            var frame: Buffer := Fed(ins) + r.request[|ins|..];
            && tr.frames == 1
            && tr.out == Wire(handle(frame).response)
  {
    var x, y := junk[0], junk[1];
    var s1 := Feed(r, x.c, x.now, x.now64, handle);
    var s2 := Feed(s1.reader, y.c, y.now, y.now64, handle);
    QuietPair(r, x, y, handle);
    var all := junk + ins;
    assert all[0] == x && all[1..][0] == y && all[1..][1..] == ins;
    QuietHead(r, all, handle);
    QuietHead(s1.reader, all[1..], handle);
    assert s2.reader.request[|ins|..] == r.request[|ins|..];
    FrameDispatched(s2.reader, ins, handle);
  }

  /** Two bytes fed to an empty buffer send nothing, dispatch nothing, leave
      at most two bytes held and the rest of the buffer alone. */
  lemma QuietPair(r: Reader, x: Input, y: Input, handle: Dispatcher)
    requires Valid(r) && r.frameLen == 0
    ensures var s1 := Feed(r, x.c, x.now, x.now64, handle);
      var s2 := Feed(s1.reader, y.c, y.now, y.now64, handle);
      && s1.dispatched.None? && s1.out == []
      && s2.dispatched.None? && s2.out == []
      && s2.reader.frameLen <= 2
      && s2.reader.request[2..] == r.request[2..]
  {
    var s1 := Feed(r, x.c, x.now, x.now64, handle);
    var s2 := Feed(s1.reader, y.c, y.now, y.now64, handle);
    assert s1.dispatched.None? && s2.dispatched.None?;
    StaleBytesKept(r, x.c, x.now, x.now64, handle);
    StaleBytesKept(s1.reader, y.c, y.now, y.now64, handle);
    assert s2.reader.request[2..] == r.request[2..];
  }

  /** End to end: a status query (opcode 0x0C) encoded by the host, fed
      while the reader is idle, is answered with exactly the reply frame for
      `00 06 00`. */
  lemma StatusQueryAnswered(r: Reader, ins: seq<Input>, payload: seq<uint8>, t: Transceiver)
    requires Valid(r) && r.frameLen <= 2 && Paced(ins)
    requires |payload| <= HostLink.MaxPayload
    requires Fed(ins) == HostLink.Encode(HostLink.ToReader, 0x0C, payload)
    ensures Run(r, ins, HandleWith(t)).out == HostLink.Encode(HostLink.ToHost, 0x0D, [0x00, 0x06, 0x00])
  {
    FrameDispatched(r, ins, HandleWith(t));
    var frame: Buffer := Fed(ins) + r.request[|ins|..];
    assert frame[6] == Fed(ins)[6];
    StatusReply(frame, t);
  }

  /** The reply to a buffered status query. */
  lemma StatusReply(frame: Buffer, t: Transceiver)
    requires Cmd(frame) == 0x0C
    ensures Wire(HandleFrame(frame, t).response) == HostLink.Encode(HostLink.ToHost, 0x0D, [0x00, 0x06, 0x00])
  {
    assert HandleFrame(frame, t).response == Answered(0x0D, [0x00, 0x06, 0x00]);
  }
}
