/** The reader's byte-at-a-time frame synchroniser and activity tracker.
    Each received byte is one pure step over the parser state; the step
    returns the new state, the bytes sent back and the driver calls made. */
module BanaReader {
  import opened Bytes
  import opened Optional
  import opened Nfc
  import HostLink
  import opened Commands

  /** A partial frame is abandoned after this many microseconds of silence. */
  const ResyncGap: nat := 100000
  /** The reader counts as active for this many microseconds after a frame. */
  const ExpireTime: nat := 10000000
  /** A line wake tone, dropped when it arrives as the first byte of a frame. */
  const WakeTone: uint8 := 0x55

  const Wrap32: nat := 0x1_0000_0000
  const Wrap64: nat := 0x1_0000_0000_0000_0000

  /** Parser and activity state: the request buffer, how many bytes of it
      belong to the frame being assembled, the 32-bit time of the last byte,
      and the 64-bit time at which the reader stops counting as active. */
  datatype Reader = Reader(request: Buffer, frameLen: nat, time: uint32, expireTime: uint64)

  /** The frame length never exceeds the buffer. */
  predicate Valid(r: Reader)
  {
    r.frameLen <= BufferSize
  }

  /** What is true between bytes of every state the synchroniser reaches: a
      partial frame of three bytes or more starts with the preamble, is
      shorter than its own LEN asks for, and has a non-zero LEN once the
      header is in. */
  predicate Synced(r: Reader)
  {
    && Valid(r)
    && (r.frameLen >= 3 ==> r.request[..3] == HostLink.Preamble)
    && (r.frameLen >= 4 ==> r.frameLen < Len(r.request) as int + 7)
    && (r.frameLen >= 6 ==> Len(r.request) != 0)
  }

  /** The power-on state: everything zero. */
  function Init(): (r: Reader)
    ensures Synced(r) && r.frameLen == 0 && r.expireTime == 0
  {
    Reader(seq(BufferSize, _ => 0), 0, 0, 0)
  }

  /** Microseconds from `since` to `now` on a 32-bit clock that wraps. */
  function Elapsed(since: uint32, now: uint32): (d: uint32)
    ensures since <= now ==> d == now - since
    ensures now < since ==> d == now + Wrap32 - since
  {
    (now - since) % Wrap32
  }

  /** The index the incoming byte is stored at.  A full buffer or a gap longer
      than ResyncGap abandons the partial frame first. */
  function StoreAt(r: Reader, now: uint32): (k: nat)
    requires Valid(r)
    ensures k < BufferSize
    ensures k == r.frameLen || k == 0
    ensures k == r.frameLen <==> r.frameLen == 0 || (r.frameLen < BufferSize && Elapsed(r.time, now) <= ResyncGap)
  {
    if r.frameLen == BufferSize || Elapsed(r.time, now) > ResyncGap then 0 else r.frameLen
  }

  /** The buffer and frame length once byte `c` has been appended and the
      wake-tone and preamble rules have run. */
  datatype Assembly = Assembly(buf: Buffer, len: nat)

  /** Appends `c` (truncated to 8 bits) and applies the wake-tone rule and the
      one-byte sliding preamble search. */
  function Accumulate(r: Reader, c: int, now: uint32): (a: Assembly)
    requires Valid(r)
    ensures 0 < a.len <= BufferSize || a.len == 0
    ensures a.len <= StoreAt(r, now) + 1
    ensures a.len == 3 ==> a.buf[..3] == HostLink.Preamble
    ensures a.len == 0 ==> StoreAt(r, now) == 0 && c % 0x100 == WakeTone
    ensures a.len > 3 ==> a.len == StoreAt(r, now) + 1 && a.buf == r.request[a.len - 1 := c % 0x100]
    ensures forall i :: StoreAt(r, now) < i < BufferSize && 1 < i ==> a.buf[i] == r.request[i]
  {
    var k := StoreAt(r, now);
    var buf := r.request[k := c % 0x100];
    var len := if k + 1 == 1 && buf[0] == WakeTone then 0 else k + 1;
    if len == 3 && buf[..3] != HostLink.Preamble then
      Assembly(buf[0 := buf[1]][1 := buf[2]], 2)
    else
      Assembly(buf, len)
  }

  /** Whatever handles a complete frame: the firmware's dispatcher is
      `HandleWith(t)` for the driver answers `t`, but the synchroniser works
      the same for any. */
  type Dispatcher = Buffer -> Handled

  /** The firmware's dispatcher, with the NFC driver answering as `t` does. */
  function HandleWith(t: Transceiver): (handle: Dispatcher)
    ensures forall raw: Buffer :: handle(raw) == HandleFrame(raw, t)
  {
    (raw: Buffer) => HandleFrame(raw, t)
  }

  /** The result of feeding one byte: the new state, the bytes sent, the
      driver calls made, and the buffer handed to the dispatcher, if any. */
  datatype Step = Step(reader: Reader, out: seq<uint8>, calls: seq<DriverCall>, dispatched: Option<Buffer>)

  /** Feeds one received byte at 32-bit time `now` and 64-bit time `now64`,
      handing a completed frame to `handle`.  A frame is dispatched when the
      assembled length reaches LEN + 7, with no check of LCS, direction or
      data checksum; a six-byte header with LEN 0 is dropped instead. */
  function Feed(r: Reader, c: int, now: uint32, now64: uint64, handle: Dispatcher): (s: Step)
    requires Valid(r)
    ensures Valid(s.reader) && s.reader.time == now
    ensures s.reader.frameLen <= r.frameLen + 1
    ensures s.dispatched.Some? ==>
              var h := handle(s.dispatched.value);
              && s.out == Wire(h.response) && s.calls == h.calls
              && s.reader == Reader(h.request, 0, now, (now64 + ExpireTime) % Wrap64)
    ensures s.dispatched.None? ==>
              s.out == [] && s.calls == [] && s.reader.expireTime == r.expireTime
  {
    var a := Accumulate(r, c, now);
    if a.len == 6 && Len(a.buf) == 0 then
      Step(Reader(a.buf, 0, now, r.expireTime), [], [], None)
    else if a.len == Len(a.buf) as int + 7 then
      var h := handle(a.buf);
      assert a.buf[..3] == r.request[..3];
      Step(Reader(h.request, 0, now, (now64 + ExpireTime) % Wrap64), Wire(h.response), h.calls, Some(a.buf))
    else
      Step(Reader(a.buf, a.len, now, r.expireTime), [], [], None)
  }

  /** `bana_is_active`: the reader is active strictly before its expiry time. */
  predicate IsActive(r: Reader, now64: uint64)
  {
    now64 < r.expireTime
  }

  /** One received byte with the clock readings that go with it. */
  datatype Input = Input(c: int, now: uint32, now64: uint64)

  /** The state after a run of bytes, everything sent, and how many frames
      were dispatched. */
  datatype Trace = Trace(reader: Reader, out: seq<uint8>, frames: nat)

  /** Feeds a run of bytes in order, handing frames to `handle`. */
  function Run(r: Reader, ins: seq<Input>, handle: Dispatcher): (tr: Trace)
    requires Valid(r)
    ensures Valid(tr.reader)
    ensures tr.frames <= |ins|
    decreases |ins|
  {
    if |ins| == 0 then Trace(r, [], 0)
    else
      var s := Feed(r, ins[0].c, ins[0].now, ins[0].now64, handle);
      var rest := Run(s.reader, ins[1..], handle);
      Trace(rest.reader, s.out + rest.out, (if s.dispatched.Some? then 1 else 0) + rest.frames)
  }

  /** The bytes of a run, as stored. */
  function Fed(ins: seq<Input>): (b: seq<uint8>)
    ensures |b| == |ins|
    ensures forall i :: 0 <= i < |ins| ==> b[i] == ins[i].c % 0x100
  {
    seq(|ins|, i requires 0 <= i < |ins| => ins[i].c % 0x100)
  }

  /** No gap in the run exceeds ResyncGap. */
  predicate Paced(ins: seq<Input>)
  {
    forall k :: 1 <= k < |ins| ==> Elapsed(ins[k - 1].now, ins[k].now) <= ResyncGap
  }

  /** A byte string the synchroniser takes for one whole frame: the preamble,
      a non-zero LEN, and exactly LEN + 7 bytes.  Nothing else is required:
      LCS, direction and data checksum may be anything. */
  predicate Framed(f: seq<uint8>)
  {
    && 8 <= |f| <= BufferSize
    && f[..3] == HostLink.Preamble
    && f[3] != 0
    && |f| == f[3] as int + 7
  }
}
