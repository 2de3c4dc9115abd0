/** The host-link frame the reader speaks: the PN532 / RC-S620S framing of
    NXP's PN532 User Manual UM0701-02, section 6.2.1.1 (normal information
    frame) and section 6.2.1.3 (ACK frame).

      00 00 FF | LEN | LCS | TFI | CMD | payload... | DCS | 00

    LEN counts TFI, CMD and the payload; LEN + LCS and TFI + CMD + payload + DCS
    are both 0 modulo 256.  TFI is D4 from host to reader and D5 back. */
module HostLink {
  import opened Bytes
  import opened Optional

  const Preamble: seq<uint8> := [0x00, 0x00, 0xFF]
  const Ack: seq<uint8> := [0x00, 0x00, 0xFF, 0x00, 0xFF, 0x00]
  const ToReader: uint8 := 0xD4
  const ToHost: uint8 := 0xD5

  /** Frames live in a 128-byte message buffer. */
  const FrameCapacity: nat := 128
  /** The largest payload whose frame (payload + 9 bytes) fits the buffer. */
  const MaxPayload: nat := 119

  /** What a host-link frame carries once decoded. */
  datatype HostFrame = AckFrame | Info(dir: uint8, cmd: uint8, payload: seq<uint8>)

  /** The information frame carrying `payload` for command byte `cmd` in
      direction `dir`. */
  function Encode(dir: uint8, cmd: uint8, payload: seq<uint8>): (f: seq<uint8>)
    requires |payload| <= MaxPayload
    ensures |f| == |payload| + 9 <= FrameCapacity
    ensures f[..3] == Preamble
    ensures f[3] == |payload| + 2 && (f[3] as int + f[4]) % 0x100 == 0
    ensures f[5] == dir && f[6] == cmd && f[7..|f| - 2] == payload
    ensures Sum(f[5..|f| - 1]) % 0x100 == 0
    ensures f[|f| - 1] == 0x00
  {
    var body := [dir, cmd] + payload;
    var dcs := Negate(Sum(body) % 0x100);
    var f := Preamble + [|body|, Negate(|body|)] + body + [dcs, 0x00];
    Slices(Preamble + [|body|, Negate(|body|)], body, [dcs, 0x00]);
    SumConcat(body, [dcs]);
    assert Sum([dcs]) == dcs by { assert [dcs][..0] == []; }
    ModuloSum(Sum(body), dcs);
    assert f[5..|f| - 1] == body + [dcs];
    assert Sum(body + [dcs]) == Sum(body) + dcs;
    assert (Sum(body) + dcs) % 0x100 == 0;
    f
  }

  /** The slices of a frame assembled from a 5-byte header, the body and a
      2-byte trailer. */
  lemma Slices(head: seq<uint8>, body: seq<uint8>, tail: seq<uint8>)
    requires |head| == 5 && |body| >= 2 && |tail| == 2
    ensures var f := head + body + tail;
      && f[..3] == head[..3] && f[3] == head[3] && f[4] == head[4]
      && f[5..|f| - 1] == body + [tail[0]]
      && f[7..|f| - 2] == body[2..]
      && f[|f| - 2] == tail[0] && f[|f| - 1] == tail[1]
  {
  }

  /** A host-side decoder: accepts the ACK frame and every information frame
      whose preamble, length, length checksum, data checksum and postamble are
      right, and rejects everything else. */
  function Parse(f: seq<uint8>): (r: Option<HostFrame>)
    ensures r.Some? && r.value.Info? ==> |r.value.payload| <= MaxPayload && |f| == |r.value.payload| + 9
    ensures r == Some(AckFrame) <==> f == Ack
  {
    if f == Ack then Some(AckFrame)
    else if 9 <= |f| <= FrameCapacity && f[..3] == Preamble && f[3] as int + 7 == |f|
            && (f[3] as int + f[4]) % 0x100 == 0 && Sum(f[5..|f| - 1]) % 0x100 == 0
            && f[|f| - 1] == 0x00
    then Some(Info(f[5], f[6], f[7..|f| - 2]))
    else None
  }

  /** The payload the host reads out of an information frame; empty for
      anything else. */
  function PayloadOf(f: seq<uint8>): seq<uint8>
  {
    match Parse(f)
    case Some(Info(_, _, p)) => p
    case _ => []
  }

  /** Decoding an encoded frame gives back what was encoded. */
  lemma ParseEncode(dir: uint8, cmd: uint8, payload: seq<uint8>)
    requires |payload| <= MaxPayload
    ensures Parse(Encode(dir, cmd, payload)) == Some(Info(dir, cmd, payload))
  {
    var f := Encode(dir, cmd, payload);
    assert f != Ack by { assert |f| != |Ack|; }
  }

  /** Every frame the decoder accepts is exactly the encoding of what it
      decodes to: no two byte strings carry the same frame. */
  lemma EncodeParse(f: seq<uint8>)
    requires Parse(f).Some? && Parse(f).value.Info?
    ensures var i := Parse(f).value; f == Encode(i.dir, i.cmd, i.payload)
  {
    var i := Parse(f).value;
    var g := Encode(i.dir, i.cmd, i.payload);
    Fields(f);
    Fields(g);
    assert f[5..|f| - 2] == g[5..|g| - 2];
    Checksums(f);
    Checksums(g);
  }

  /** A frame is its preamble, LEN, LCS, TFI, CMD, payload, DCS and
      postamble, in that order. */
  lemma Fields(f: seq<uint8>)
    requires |f| >= 9
    ensures f == f[..3] + [f[3], f[4]] + f[5..|f| - 2] + [f[|f| - 2], f[|f| - 1]]
    ensures f[5..|f| - 2] == [f[5], f[6]] + f[7..|f| - 2]
  {
  }

  /** The two checksum bytes are determined by what they protect. */
  lemma Checksums(f: seq<uint8>)
    requires |f| >= 9
    requires (f[3] as int + f[4]) % 0x100 == 0 && Sum(f[5..|f| - 1]) % 0x100 == 0
    ensures f[4] == Negate(f[3])
    ensures f[|f| - 2] == Negate(Sum(f[5..|f| - 2]) % 0x100)
  {
    var body := f[5..|f| - 2];
    var dcs := f[|f| - 2];
    assert f[5..|f| - 1] == body + [dcs];
    SumConcat(body, [dcs]);
    assert Sum([dcs]) == dcs by { assert [dcs][..0] == []; }
    ModuloSum(Sum(body), dcs);
    NegateUnique(f[3], f[4]);
    NegateUnique(Sum(body) % 0x100, dcs);
  }

  /** A byte has exactly one two's-complement negation. */
  lemma NegateUnique(a: uint8, b: uint8)
    requires (a + b) % 0x100 == 0
    ensures b == Negate(a)
  {
  }

  /** The reply frame exactly as the firmware's send routine builds it: the
      command byte is the request's plus one in 8 bits, LCS is `~len + 1`,
      and the data checksum is the complement of a running 8-bit sum seeded
      with 0xFF. */
  method SendResponse(requestCmd: uint8, payload: seq<uint8>) returns (out: seq<uint8>)
    requires |payload| <= MaxPayload
    ensures out == Encode(ToHost, (requestCmd + 1) % 0x100, payload)
    ensures Parse(out) == Some(Info(ToHost, (requestCmd + 1) % 0x100, payload))
  {
    var len := 2 + |payload|;
    var body := [ToHost, (requestCmd + 1) % 0x100] + payload;
    var checksum := SeededSum(body);
    var lenCheck := (0xFF - len + 1) % 0x100;
    out := Preamble + [len, lenCheck] + body + [0xFF - checksum, 0x00];
    ComplementOfSeededSum(Sum(body));
    ParseEncode(ToHost, (requestCmd + 1) % 0x100, payload);
  }

  /** The firmware's running checksum: an 8-bit sum of the bytes seeded with
      0xFF. */
  method SeededSum(body: seq<uint8>) returns (checksum: uint8)
    ensures checksum == (0xFF + Sum(body)) % 0x100
  {
    checksum := 0xFF;
    var i := 0;
    while i < |body|
      invariant 0 <= i <= |body|
      invariant checksum == (0xFF + Sum(body[..i])) % 0x100
    {
      assert body[..i + 1][..i] == body[..i];
      assert Sum(body[..i + 1]) == Sum(body[..i]) + body[i];
      ModuloSum(0xFF + Sum(body[..i]), body[i]);
      checksum := (checksum + body[i]) % 0x100;
      i := i + 1;
    }
    assert body[..i] == body;
  }

  lemma ModuloSum(a: int, b: int)
    ensures (a % 0x100 + b) % 0x100 == (a + b) % 0x100
  {
  }

  /** `~(0xFF + s)` in 8 bits is the two's-complement negation of `s`. */
  lemma ComplementOfSeededSum(s: nat)
    ensures 0xFF - (0xFF + s) % 0x100 == Negate(s % 0x100)
  {
    var a := s % 0x100;
    assert (0xFF + s) % 0x100 == (0xFF + a) % 0x100;
    if a != 0 {
      assert (0xFF + a) % 0x100 == a - 1;
    }
  }
}
