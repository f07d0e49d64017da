/** Strict, padded base64 (section 4 of RFC 4648), as the STANDARD engine encodes and decodes it. */
module Base64 {
  import opened Prelude
  import opened Chunking

  function ToChar(n: nat): char
    requires n < 64
  {
    if n < 26 then ('A' as int + n) as char
    else if n < 52 then ('a' as int + n - 26) as char
    else if n < 62 then ('0' as int + n - 52) as char
    else if n == 62 then '+' else '/'
  }

  function FromChar(c: char): (r: Option<nat>)
    ensures r.Some? ==> r.value < 64
  {
    if 'A' <= c <= 'Z' then Some(c as int - 'A' as int)
    else if 'a' <= c <= 'z' then Some(c as int - 'a' as int + 26)
    else if '0' <= c <= '9' then Some(c as int - '0' as int + 52)
    else if c == '+' then Some(62)
    else if c == '/' then Some(63)
    else None
  }

  /** One group: three bytes make four characters; a final group of one or two bytes is padded with '='. */
  function EncodeGroup(b: Bytes): string
    requires 1 <= |b| <= 3
  {
    var b0 := b[0] as int;
    if |b| == 1 then [ToChar(b0 / 4), ToChar(b0 % 4 * 16), '=', '=']
    else
      var b1 := b[1] as int;
      if |b| == 2 then [ToChar(b0 / 4), ToChar(b0 % 4 * 16 + b1 / 16), ToChar(b1 % 16 * 4), '=']
      else
        var b2 := b[2] as int;
        [ToChar(b0 / 4), ToChar(b0 % 4 * 16 + b1 / 16), ToChar(b1 % 16 * 4 + b2 / 64), ToChar(b2 % 64)]
  }

  function Encode(b: Bytes): string
    decreases |b|
  {
    if b == [] then []
    else if |b| <= 3 then EncodeGroup(b)
    else EncodeGroup(b[..3]) + Encode(b[3..])
  }

  /** Decodes four characters; padding is accepted only in a last group, and its spare bits must be zero. */
  function DecodeGroup(s: string, last: bool): Option<Bytes>
    requires |s| == 4
  {
    if FromChar(s[0]).None? || FromChar(s[1]).None? then None
    else
      var s0, s1 := FromChar(s[0]).value, FromChar(s[1]).value;
      if FromChar(s[2]).Some? && FromChar(s[3]).Some? then
        var s2, s3 := FromChar(s[2]).value, FromChar(s[3]).value;
        Some([s0 * 4 + s1 / 16, s1 % 16 * 16 + s2 / 4, s2 % 4 * 64 + s3])
      else if !last || s[3] != '=' then None
      else if FromChar(s[2]).Some? then
        var s2 := FromChar(s[2]).value;
        if s2 % 4 == 0 then Some([s0 * 4 + s1 / 16, s1 % 16 * 16 + s2 / 4]) else None
      else if s[2] == '=' && s1 % 16 == 0 then Some([s0 * 4 + s1 / 16])
      else None
  }

  function Decode(s: string): Option<Bytes>
    decreases |s|
  {
    if s == [] then Some([])
    else if |s| < 4 then None
    else
      match DecodeGroup(s[..4], |s| == 4)
      case None => None
      case Some(b) =>
        match Decode(s[4..])
        case None => None
        case Some(rest) => Some(b + rest)
  }

  lemma CharRoundTrip(n: nat)
    requires n < 64
    ensures FromChar(ToChar(n)) == Some(n) && ToChar(n) != '='
  {
  }

  lemma CharBack(c: char, n: nat)
    requires FromChar(c) == Some(n)
    ensures ToChar(n) == c
  {
  }

  /** The alphabet of table 1 of RFC 4648, sixteen characters a row. */
  const ROW0: string := "ABCDEFGHIJKLMNOP"
  const ROW1: string := "QRSTUVWXYZabcdef"
  const ROW2: string := "ghijklmnopqrstuv"
  const ROW3: string := "wxyz0123456789+/"
  const ALPHABET: string := ROW0 + ROW1 + ROW2 + ROW3

  lemma Row0Exactly(n: nat)
    requires n < 16
    ensures |ROW0| == 16 && ToChar(n) == ROW0[n]
  {
  }

  lemma Row1Exactly(n: nat)
    requires n < 16
    ensures |ROW1| == 16 && ToChar(16 + n) == ROW1[n]
  {
  }

  lemma Row2Exactly(n: nat)
    requires n < 16
    ensures |ROW2| == 16 && ToChar(32 + n) == ROW2[n]
  {
  }

  lemma Row3Exactly(n: nat)
    requires n < 16
    ensures |ROW3| == 16 && ToChar(48 + n) == ROW3[n]
  {
  }

  lemma RowLengths()
    ensures |ROW0| == |ROW1| == |ROW2| == |ROW3| == 16
  {
  }

  lemma RowsJoined(a: string, b: string, c: string, d: string, n: nat)
    requires |a| == |b| == |c| == |d| == 16 && n < 64
    ensures |a + b + c + d| == 64
    ensures (a + b + c + d)[n] ==
            if n < 16 then a[n] else if n < 32 then b[n - 16] else if n < 48 then c[n - 32] else d[n - 48]
  {
  }

  lemma AlphabetExactly(n: nat)
    requires n < 64
    ensures |ALPHABET| == 64 && ToChar(n) == ALPHABET[n] && FromChar(ALPHABET[n]) == Some(n)
  {
    RowLengths();
    RowsJoined(ROW0, ROW1, ROW2, ROW3, n);
    CharRoundTrip(n);
    if n < 16 {
      Row0Exactly(n);
    } else if n < 32 {
      Row1Exactly(n - 16);
    } else if n < 48 {
      Row2Exactly(n - 32);
    } else {
      Row3Exactly(n - 48);
    }
  }

  lemma DecodeFour(s: string, s0: nat, s1: nat, s2: nat, s3: nat, last: bool)
    requires s0 < 64 && s1 < 64 && s2 < 64 && s3 < 64
    requires s == [ToChar(s0), ToChar(s1), ToChar(s2), ToChar(s3)]
    ensures DecodeGroup(s, last) == Some([s0 * 4 + s1 / 16, s1 % 16 * 16 + s2 / 4, s2 % 4 * 64 + s3])
  {
    CharRoundTrip(s0);
    CharRoundTrip(s1);
    CharRoundTrip(s2);
    CharRoundTrip(s3);
  }

  lemma DecodeThree(s: string, s0: nat, s1: nat, s2: nat)
    requires s0 < 64 && s1 < 64 && s2 < 64 && s2 % 4 == 0
    requires s == [ToChar(s0), ToChar(s1), ToChar(s2), '=']
    ensures DecodeGroup(s, true) == Some([s0 * 4 + s1 / 16, s1 % 16 * 16 + s2 / 4])
  {
    CharRoundTrip(s0);
    CharRoundTrip(s1);
    CharRoundTrip(s2);
  }

  lemma DecodeTwo(s: string, s0: nat, s1: nat)
    requires s0 < 64 && s1 < 64 && s1 % 16 == 0
    requires s == [ToChar(s0), ToChar(s1), '=', '=']
    ensures DecodeGroup(s, true) == Some([s0 * 4 + s1 / 16])
  {
    CharRoundTrip(s0);
    CharRoundTrip(s1);
  }

  lemma FullGroupRoundTrip(b: Bytes, last: bool)
    requires |b| == 3
    ensures DecodeGroup(EncodeGroup(b), last) == Some(b)
  {
    var p, q, r := b[0] as int, b[1] as int, b[2] as int;
    SextetsBack(p, q, r);
    DecodeFour(EncodeGroup(b), p / 4, p % 4 * 16 + q / 16, q % 16 * 4 + r / 64, r % 64, last);
    assert b == [p, q, r];
  }

  lemma TwoByteGroupRoundTrip(b: Bytes)
    requires |b| == 2
    ensures DecodeGroup(EncodeGroup(b), true) == Some(b)
  {
    var p, q := b[0] as int, b[1] as int;
    SextetsBack(p, q, 0);
    DecodeThree(EncodeGroup(b), p / 4, p % 4 * 16 + q / 16, q % 16 * 4);
    assert b == [p, q];
  }

  lemma OneByteGroupRoundTrip(b: Bytes)
    requires |b| == 1
    ensures DecodeGroup(EncodeGroup(b), true) == Some(b)
  {
    var p := b[0] as int;
    SextetsBack(p, 0, 0);
    DecodeTwo(EncodeGroup(b), p / 4, p % 4 * 16);
    assert b == [p];
  }

  lemma GroupRoundTrip(b: Bytes, last: bool)
    requires 1 <= |b| <= 3 && (last || |b| == 3)
    ensures DecodeGroup(EncodeGroup(b), last) == Some(b)
  {
    if |b| == 3 {
      FullGroupRoundTrip(b, last);
    } else if |b| == 2 {
      TwoByteGroupRoundTrip(b);
    } else {
      OneByteGroupRoundTrip(b);
    }
  }

  /** Four sextets give back the three bytes they were cut from. */
  lemma SextetsBack(b0: Byte, b1: Byte, b2: Byte)
    ensures
      var p, q, r := b0 as int, b1 as int, b2 as int;
      var s0, s1, s2, s3 := p / 4, p % 4 * 16 + q / 16, q % 16 * 4 + r / 64, r % 64;
      && s0 * 4 + s1 / 16 == p
      && s1 % 16 * 16 + s2 / 4 == q
      && s2 % 4 * 64 + s3 == r
      && s2 % 4 == r / 64 && s1 % 16 == q / 16
  {
  }

  /** Three bytes give back the four sextets they were built from. */
  lemma BytesBack(s0: nat, s1: nat, s2: nat, s3: nat)
    requires s0 < 64 && s1 < 64 && s2 < 64 && s3 < 64
    ensures
      var p, q, r := s0 * 4 + s1 / 16, s1 % 16 * 16 + s2 / 4, s2 % 4 * 64 + s3;
      && p / 4 == s0
      && p % 4 * 16 + q / 16 == s1
      && q % 16 * 4 + r / 64 == s2
      && r % 64 == s3
      && p % 4 == s1 / 16 && q % 16 == s2 / 4 && p < 256 && q < 256 && r < 256
  {
  }

  lemma FullGroupBack(s: string, s0: nat, s1: nat, s2: nat, s3: nat)
    requires |s| == 4
    requires FromChar(s[0]) == Some(s0) && FromChar(s[1]) == Some(s1)
    requires FromChar(s[2]) == Some(s2) && FromChar(s[3]) == Some(s3)
    ensures EncodeGroup([s0 * 4 + s1 / 16, s1 % 16 * 16 + s2 / 4, s2 % 4 * 64 + s3]) == s
  {
    BytesBack(s0, s1, s2, s3);
    CharBack(s[0], s0);
    CharBack(s[1], s1);
    CharBack(s[2], s2);
    CharBack(s[3], s3);
  }

  lemma TwoByteGroupBack(s: string, s0: nat, s1: nat, s2: nat)
    requires |s| == 4 && s[3] == '=' && s2 % 4 == 0
    requires FromChar(s[0]) == Some(s0) && FromChar(s[1]) == Some(s1) && FromChar(s[2]) == Some(s2)
    ensures EncodeGroup([s0 * 4 + s1 / 16, s1 % 16 * 16 + s2 / 4]) == s
  {
    BytesBack(s0, s1, s2, 0);
    CharBack(s[0], s0);
    CharBack(s[1], s1);
    CharBack(s[2], s2);
  }

  lemma OneByteGroupBack(s: string, s0: nat, s1: nat)
    requires |s| == 4 && s[2] == '=' && s[3] == '=' && s1 % 16 == 0
    requires FromChar(s[0]) == Some(s0) && FromChar(s[1]) == Some(s1)
    ensures EncodeGroup([s0 * 4 + s1 / 16]) == s
  {
    BytesBack(s0, s1, 0, 0);
    CharBack(s[0], s0);
    CharBack(s[1], s1);
  }

  lemma GroupBack(s: string, last: bool, b: Bytes)
    requires |s| == 4 && DecodeGroup(s, last) == Some(b)
    ensures 1 <= |b| <= 3 && (!last ==> |b| == 3) && EncodeGroup(b) == s
  {
    var s0, s1 := FromChar(s[0]).value, FromChar(s[1]).value;
    if FromChar(s[2]).Some? && FromChar(s[3]).Some? {
      FullGroupBack(s, s0, s1, FromChar(s[2]).value, FromChar(s[3]).value);
    } else if FromChar(s[2]).Some? {
      TwoByteGroupBack(s, s0, s1, FromChar(s[2]).value);
    } else {
      OneByteGroupBack(s, s0, s1);
    }
  }

  lemma {:induction false} DecodeInvertsEncode(b: Bytes)
    ensures Decode(Encode(b)) == Some(b)
    decreases |b|
  {
    if b == [] {
    } else if |b| <= 3 {
      GroupRoundTrip(b, true);
      var s := Encode(b);
      assert s[..4] == EncodeGroup(b) && s[4..] == [];
      assert Decode(s[4..]) == Some([]);
      assert b + [] == b;
    } else {
      var g, rest := EncodeGroup(b[..3]), Encode(b[3..]);
      assert rest != [];
      GroupRoundTrip(b[..3], false);
      DecodeInvertsEncode(b[3..]);
      assert (g + rest)[..4] == g && (g + rest)[4..] == rest;
      assert b == b[..3] + b[3..];
    }
  }

  lemma {:induction false} EncodeInvertsDecode(s: string, b: Bytes)
    requires Decode(s) == Some(b)
    ensures Encode(b) == s
    decreases |s|
  {
    if s != [] {
      var g := DecodeGroup(s[..4], |s| == 4).value;
      var rest := Decode(s[4..]).value;
      GroupBack(s[..4], |s| == 4, g);
      EncodeInvertsDecode(s[4..], rest);
      assert b[..|g|] == g && b[|g|..] == rest;
      assert s == s[..4] + s[4..];
      if |s| == 4 {
        assert b == g;
      } else {
        assert |rest| > 0;
        assert b[..3] == g && b[3..] == rest;
      }
    }
  }

  lemma {:induction false} EncodedLength(b: Bytes)
    ensures |Encode(b)| == 4 * CeilDiv(|b|, 3)
    decreases |b|
  {
    if |b| > 3 {
      EncodedLength(b[3..]);
      CeilDivStep(|b|, 3);
    }
  }

  /** A group read as a number of 24 bits, bytes that are not there counting as zero. */
  function Bits24(b: Bytes): nat
    requires 1 <= |b| <= 3
  {
    b[0] as int * 0x1_0000 + (if |b| > 1 then b[1] as int * 0x100 else 0) + (if |b| > 2 then b[2] as int else 0)
  }

  lemma GroupSextets(b: Bytes, j: nat)
    requires 1 <= |b| <= 3 && j < 4
    ensures |EncodeGroup(b)| == 4
    ensures EncodeGroup(b)[j] == if j > |b| then '=' else ALPHABET[Sextet(Bits24(b), j)]
  {
    var n := Bits24(b);
    SextetsOf(b[0], if |b| > 1 then b[1] else 0, if |b| > 2 then b[2] else 0);
    assert EncodeGroup(b)[j] == if j > |b| then '=' else ToChar(Sextet(n, j));
    AlphabetExactly(Sextet(n, j));
  }

  /** Sextet `j` of 24 bits, the most significant one being sextet 0. */
  function Sextet(n: nat, j: nat): (r: nat)
    requires j < 4
    ensures r < 64
  {
    if j == 0 then n / 0x4_0000 % 64 else if j == 1 then n / 0x1000 % 64 else if j == 2 then n / 0x40 % 64 else n % 64
  }

  lemma SextetsOf(p: Byte, q: Byte, r: Byte)
    ensures
      var n := p as int * 0x1_0000 + q as int * 0x100 + r;
      && Sextet(n, 0) == p / 4 && Sextet(n, 1) == p % 4 * 16 + q / 16
      && Sextet(n, 2) == q % 16 * 4 + r / 64 && Sextet(n, 3) == r % 64
  {
    var n := p as int * 0x1_0000 + q as int * 0x100 + r;
    DivUnique(n, 0x4_0000, p / 4, p % 4 * 0x1_0000 + q * 0x100 + r);
    DivUnique(n, 0x1000, p * 16 + q / 16, q % 16 * 0x100 + r);
    DivUnique(p * 16 + q / 16, 64, p / 4, p % 4 * 16 + q / 16);
    DivUnique(n, 0x40, p * 0x400 + q * 4 + r / 64, r % 64);
    DivUnique(p * 0x400 + q * 4 + r / 64, 64, p * 16 + q / 16, q % 16 * 4 + r / 64);
    DivUnique(n, 64, p * 0x400 + q * 4 + r / 64, r % 64);
  }

  /**
   * Every character of an encoding.  Characters 4k to 4k+3 are the four sextets, most significant first, of bytes 3k to
   * 3k+2 as a number of 24 bits; where the last group lacks bytes, '=' stands for the sextets without any bit of it.
   */
  lemma {:induction false} EncodedAt(b: Bytes, k: nat, j: nat)
    requires 3 * k < |b| && j < 4
    ensures 4 * k + j < |Encode(b)|
    ensures
      var group := b[3 * k..Min(3 * k + 3, |b|)];
      Encode(b)[4 * k + j] == if j > |group| then '=' else ALPHABET[Sextet(Bits24(group), j)]
    decreases k
  {
    var group := b[3 * k..Min(3 * k + 3, |b|)];
    if k == 0 {
      GroupSextets(group, j);
      assert |b| <= 3 ==> group == b;
    } else {
      EncodedAt(b[3..], k - 1, j);
      GroupSextets(b[..3], 0);
      SliceOfDrop(b, 3, 3 * (k - 1), Min(3 * k, |b| - 3));
    }
  }
}
