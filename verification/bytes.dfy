/** Fixed-width unsigned integers of the firmware, as bounded mathematical
    integers, plus the byte sum the frame checksums are built from. */
module Bytes {

  type uint8 = x: int | 0 <= x < 0x100
  type uint16 = x: int | 0 <= x < 0x1_0000
  type uint32 = x: int | 0 <= x < 0x1_0000_0000
  type uint64 = x: int | 0 <= x < 0x1_0000_0000_0000_0000

  /** Plain (unbounded) sum of a byte string; checksums take it modulo 256. */
  function Sum(s: seq<uint8>): nat
  {
    if |s| == 0 then 0 else Sum(s[..|s| - 1]) + s[|s| - 1]
  }

  /** Two's-complement negation of a byte, `~b + 1` in 8 bits. */
  function Negate(b: uint8): (r: uint8)
    ensures (b + r) % 0x100 == 0
  {
    (0x100 - b) % 0x100
  }

  /** Summing is additive over concatenation. */
  lemma {:induction false} SumConcat(a: seq<uint8>, b: seq<uint8>)
    ensures Sum(a + b) == Sum(a) + Sum(b)
    decreases |b|
  {
    if |b| == 0 {
      assert a + b == a;
    } else {
      var b' := b[..|b| - 1];
      assert (a + b)[..|a + b| - 1] == a + b';
      SumConcat(a, b');
    }
  }
}

/** The usual optional value. */
module Optional {
  datatype Option<+T> = None | Some(value: T)
}
