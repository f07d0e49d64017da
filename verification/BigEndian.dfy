/** `u32::to_be_bytes` and `u32::from_be_bytes`. */
module BigEndian {
  import opened Prelude

  function U32ToBytes(n: nat): Bytes
    requires n < U32_LIMIT
  {
    [n / 0x100_0000, n / 0x1_0000 % 256, n / 256 % 256, n % 256]
  }

  function U32FromBytes(b: Bytes): nat
    requires |b| == 4
  {
    ((b[0] as int * 256 + b[1]) * 256 + b[2]) * 256 + b[3]
  }

  /** The most significant byte comes first. */
  lemma U32IsBigEndian(b: Bytes)
    requires |b| == 4
    ensures U32FromBytes(b) == b[0] * 0x100_0000 + b[1] * 0x1_0000 + b[2] * 0x100 + b[3] < U32_LIMIT
  {
  }

  lemma U32RoundTrip(n: nat)
    requires n < U32_LIMIT
    ensures U32FromBytes(U32ToBytes(n)) == n
  {
    assert n / 0x1_0000 == n / 256 / 256;
    assert n / 0x100_0000 == n / 256 / 256 / 256;
  }

  lemma U32BytesRoundTrip(b: Bytes)
    requires |b| == 4
    ensures U32FromBytes(b) < U32_LIMIT && U32ToBytes(U32FromBytes(b)) == b
  {
    var x1: nat := b[0] as int * 256 + b[1];
    var x2: nat := x1 * 256 + b[2];
    var n: nat := x2 * 256 + b[3];
    assert n / 256 == x2 && x2 / 256 == x1 && x1 / 256 == b[0];
    assert n / 0x1_0000 == n / 256 / 256;
    assert n / 0x100_0000 == n / 256 / 256 / 256;
  }
}
