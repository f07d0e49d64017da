/**
 * Payload encryption (`ServerKeys` in secure.rs): a fresh IV, then CBC over PKCS7-padded plaintext.
 * The key agreement and the block cipher are parameters; the only law used is that
 * the block cipher is a bijection on blocks for every key.
 */
module Secure {
  import opened Prelude

  const BLOCK: nat := 16

  type Block = b: Bytes | |b| == BLOCK witness seq(BLOCK, _ => 0)

  type AesKey = Bytes

  /** `shared` is the key agreement with a client's public key in DER; it fails on malformed keys. */
  datatype Suite = Suite(
    shared: Bytes -> Option<AesKey>,
    enc: (AesKey, Block) -> Block,
    dec: (AesKey, Block) -> Block)

  ghost predicate Bijective(suite: Suite) {
    && (forall k: AesKey, b: Block :: suite.dec(k, suite.enc(k, b)) == b)
    && (forall k: AesKey, b: Block :: suite.enc(k, suite.dec(k, b)) == b)
  }

  datatype PayloadError = MissingKey | TooShort | BadKey | BadPadding

  // ---------- Exclusive or ----------

  function XorBits(a: nat, b: nat, n: nat): (r: nat)
    ensures r < Pow2(n)
  {
    if n == 0 then 0 else (if a % 2 == b % 2 then 0 else 1) + 2 * XorBits(a / 2, b / 2, n - 1)
  }

  function Pow2(n: nat): nat {
    if n == 0 then 1 else 2 * Pow2(n - 1)
  }

  function XorByte(a: Byte, b: Byte): Byte {
    assert Pow2(8) == 256;
    XorBits(a, b, 8)
  }

  function Xor(a: Block, b: Block): Block {
    seq(BLOCK, i requires 0 <= i < BLOCK => XorByte(a[i], b[i]))
  }

  lemma {:induction false} XorBitsCancels(a: nat, b: nat, n: nat)
    requires b < Pow2(n)
    ensures XorBits(a, XorBits(a, b, n), n) == b
  {
    if n > 0 {
      XorBitsCancels(a / 2, b / 2, n - 1);
      var x := XorBits(a, b, n);
      assert x / 2 == XorBits(a / 2, b / 2, n - 1) && x % 2 == if a % 2 == b % 2 then 0 else 1;
    }
  }

  lemma XorCancels(a: Block, b: Block)
    ensures Xor(a, Xor(a, b)) == b
  {
    assert Pow2(8) == 256;
    forall i | 0 <= i < BLOCK ensures Xor(a, Xor(a, b))[i] == b[i] {
      XorBitsCancels(a[i], b[i], 8);
    }
  }

  /** Bit `i` of a number, the least significant one being bit 0. */
  function Bit(n: nat, i: nat): nat {
    if i == 0 then n % 2 else Bit(n / 2, i - 1)
  }

  lemma {:induction false} XorBitsAt(a: nat, b: nat, n: nat, i: nat)
    requires i < n
    ensures Bit(XorBits(a, b, n), i) == (Bit(a, i) + Bit(b, i)) % 2
    decreases n
  {
    var x := XorBits(a, b, n);
    assert x / 2 == XorBits(a / 2, b / 2, n - 1) && x % 2 == if a % 2 == b % 2 then 0 else 1;
    if i > 0 {
      XorBitsAt(a / 2, b / 2, n - 1, i - 1);
    }
  }

  /** Each bit of the exclusive or of two blocks is the sum, modulo 2, of the two bits in its place. */
  lemma XorIsBitwise(a: Block, b: Block, k: nat, i: nat)
    requires k < BLOCK && i < 8
    ensures Bit(Xor(a, b)[k], i) == (Bit(a[k], i) + Bit(b[k], i)) % 2
  {
    assert Pow2(8) == 256;
    XorBitsAt(a[k], b[k], 8, i);
  }

  // ---------- Cipher block chaining (section 6.2 of NIST SP 800-38A) ----------

  function CbcEncrypt(suite: Suite, key: AesKey, prev: Block, data: Bytes): (r: Bytes)
    requires |data| % BLOCK == 0
    ensures |r| == |data|
    decreases |data|
  {
    if data == [] then []
    else
      var c := suite.enc(key, Xor(prev, data[..BLOCK]));
      c + CbcEncrypt(suite, key, c, data[BLOCK..])
  }

  function CbcDecrypt(suite: Suite, key: AesKey, prev: Block, data: Bytes): (r: Bytes)
    requires |data| % BLOCK == 0
    ensures |r| == |data|
    decreases |data|
  {
    if data == [] then []
    else
      var c: Block := data[..BLOCK];
      Xor(prev, suite.dec(key, c)) + CbcDecrypt(suite, key, c, data[BLOCK..])
  }

  function BlockAt(s: Bytes, i: nat): Block
    requires BLOCK * (i + 1) <= |s|
  {
    s[BLOCK * i..BLOCK * (i + 1)]
  }

  lemma BlocksOf(first: Block, rest: Bytes, i: nat)
    requires BLOCK * (i + 1) <= BLOCK + |rest|
    ensures BlockAt(first + rest, i) == if i == 0 then first else BlockAt(rest, i - 1)
  {
  }

  /** Block `i` of the ciphertext is the cipher of the data block xored with the ciphertext block before it. */
  lemma {:induction false} CbcChains(suite: Suite, key: AesKey, iv: Block, data: Bytes, i: nat)
    requires |data| % BLOCK == 0 && BLOCK * (i + 1) <= |data|
    ensures
      var c := CbcEncrypt(suite, key, iv, data);
      BlockAt(c, i) == suite.enc(key, Xor(if i == 0 then iv else BlockAt(c, i - 1), BlockAt(data, i)))
    decreases i
  {
    var first: Block := suite.enc(key, Xor(iv, data[..BLOCK]));
    var rest := CbcEncrypt(suite, key, first, data[BLOCK..]);
    var c := CbcEncrypt(suite, key, iv, data);
    BlocksOf(first, rest, i);
    BlocksOf(data[..BLOCK], data[BLOCK..], i);
    assert data == data[..BLOCK] + data[BLOCK..];
    if i > 0 {
      CbcChains(suite, key, first, data[BLOCK..], i - 1);
      BlocksOf(first, rest, i - 1);
    }
  }

  lemma {:induction false} CbcDecryptInvertsEncrypt(suite: Suite, key: AesKey, prev: Block, data: Bytes)
    requires Bijective(suite) && |data| % BLOCK == 0
    ensures CbcDecrypt(suite, key, prev, CbcEncrypt(suite, key, prev, data)) == data
    decreases |data|
  {
    if data != [] {
      var p: Block := data[..BLOCK];
      var c: Bytes := suite.enc(key, Xor(prev, p));
      var rest: Bytes := CbcEncrypt(suite, key, c, data[BLOCK..]);
      assert (c + rest)[..BLOCK] == c && (c + rest)[BLOCK..] == rest;
      XorCancels(prev, p);
      CbcDecryptInvertsEncrypt(suite, key, c, data[BLOCK..]);
      assert data == p + data[BLOCK..];
    }
  }

  lemma {:induction false} CbcEncryptInvertsDecrypt(suite: Suite, key: AesKey, prev: Block, data: Bytes)
    requires Bijective(suite) && |data| % BLOCK == 0
    ensures CbcEncrypt(suite, key, prev, CbcDecrypt(suite, key, prev, data)) == data
    decreases |data|
  {
    if data != [] {
      var c: Block := data[..BLOCK];
      var p: Bytes := Xor(prev, suite.dec(key, c));
      var rest: Bytes := CbcDecrypt(suite, key, c, data[BLOCK..]);
      assert (p + rest)[..BLOCK] == p && (p + rest)[BLOCK..] == rest;
      XorCancels(prev, suite.dec(key, c));
      CbcEncryptInvertsDecrypt(suite, key, c, data[BLOCK..]);
      assert data == c + data[BLOCK..];
    }
  }

  // ---------- PKCS7 padding (section 6.3 of RFC 5652) ----------

  function Pad(p: Bytes): (r: Bytes)
    ensures |r| == BLOCK * (|p| / BLOCK + 1)
  {
    var n := BLOCK - |p| % BLOCK;
    p + seq(n, _ => n)
  }

  function Unpad(d: Bytes): Option<Bytes> {
    if d == [] then None
    else
      var n := d[|d| - 1];
      if n == 0 || n > BLOCK || n > |d| then None
      else if exists i | |d| - n <= i < |d| - 1 :: d[i] != n then None
      else Some(d[..|d| - n])
  }

  /** One to sixteen bytes are added, each of them their number. */
  lemma PadShape(p: Bytes)
    ensures
      var d := Pad(p);
      var n := |d| - |p|;
      1 <= n <= BLOCK && |d| % BLOCK == 0 && d[..|p|] == p && forall i | |p| <= i < |d| :: d[i] == n
  {
  }

  lemma UnpadPad(p: Bytes)
    ensures Unpad(Pad(p)) == Some(p)
  {
    var d := Pad(p);
    assert d[..|p|] == p;
  }

  lemma PadUnpad(d: Bytes, p: Bytes)
    requires |d| % BLOCK == 0 && Unpad(d) == Some(p)
    ensures Pad(p) == d
  {
    var n := d[|d| - 1];
    assert |p| == |d| - n;
    assert BLOCK - |p| % BLOCK == n;
    forall i | 0 <= i < |d| ensures Pad(p)[i] == d[i] {
    }
  }

  // ---------- Payloads ----------

  function EncryptWith(suite: Suite, key: AesKey, plaintext: Bytes, iv: Block): Bytes {
    iv + CbcEncrypt(suite, key, iv, Pad(plaintext))
  }

  function DecryptWith(suite: Suite, key: AesKey, ciphertext: Bytes): Result<Bytes, PayloadError> {
    if |ciphertext| < BLOCK then Err(TooShort)
    else
      var iv, data := ciphertext[..BLOCK], ciphertext[BLOCK..];
      if |data| % BLOCK != 0 then Err(BadPadding)
      else
        match Unpad(CbcDecrypt(suite, key, iv, data))
        case None => Err(BadPadding)
        case Some(p) => Ok(p)
  }

  /** `ServerKeys::encrypt_for_client`, the random IV being an argument. */
  function EncryptForClient(suite: Suite, clientKey: Bytes, plaintext: Bytes, iv: Block): Result<Bytes, PayloadError> {
    match suite.shared(clientKey)
    case None => Err(BadKey)
    case Some(key) => Ok(EncryptWith(suite, key, plaintext, iv))
  }

  /** `ServerKeys::decrypt_from_client`: the length is checked before the key is derived. */
  function DecryptFromClient(suite: Suite, clientKey: Bytes, ciphertext: Bytes): Result<Bytes, PayloadError> {
    if |ciphertext| < BLOCK then Err(TooShort)
    else
      match suite.shared(clientKey)
      case None => Err(BadKey)
      case Some(key) => DecryptWith(suite, key, ciphertext)
  }

  /**
   * A payload, block by block: the IV comes first, and each later block is the cipher of one block of the padded
   * plaintext xored with the block of the payload before it.
   */
  lemma PayloadIsChained(suite: Suite, key: AesKey, plaintext: Bytes, iv: Block, i: nat)
    requires BLOCK * (i + 1) <= |Pad(plaintext)|
    ensures
      var c := EncryptWith(suite, key, plaintext, iv);
      && |c| == BLOCK + |Pad(plaintext)| && BlockAt(c, 0) == iv
      && BlockAt(c, i + 1) == suite.enc(key, Xor(BlockAt(c, i), BlockAt(Pad(plaintext), i)))
  {
    PadShape(plaintext);
    var data := CbcEncrypt(suite, key, iv, Pad(plaintext));
    CbcChains(suite, key, iv, Pad(plaintext), i);
    BlocksOf(iv, data, 0);
    BlocksOf(iv, data, i);
    BlocksOf(iv, data, i + 1);
  }

  /** Which error a client's payload is refused with: its length comes first, then the key, then the rest. */
  lemma DecryptRefusals(suite: Suite, clientKey: Bytes, c: Bytes)
    ensures DecryptFromClient(suite, clientKey, c) == Err(TooShort) <==> |c| < BLOCK
    ensures DecryptFromClient(suite, clientKey, c) == Err(BadKey) <==> |c| >= BLOCK && suite.shared(clientKey).None?
    ensures |c| >= BLOCK && suite.shared(clientKey).Some? ==>
              DecryptFromClient(suite, clientKey, c) == DecryptWith(suite, suite.shared(clientKey).value, c)
  {
  }

  lemma PayloadLength(suite: Suite, key: AesKey, plaintext: Bytes, iv: Block)
    ensures |EncryptWith(suite, key, plaintext, iv)| == 16 + 16 * (|plaintext| / 16 + 1)
  {
    assert |Pad(plaintext)| % BLOCK == 0;
  }

  /**
   * Decryption and encryption are exactly inverse: decryption accepts `c` with plaintext `p`
   * if and only if `c` is the encryption of `p` under the IV that `c` starts with.
   */
  lemma DecryptAcceptsExactlyEncryptions(suite: Suite, key: AesKey, c: Bytes, p: Bytes)
    requires Bijective(suite)
    ensures DecryptWith(suite, key, c) == Ok(p) <==>
            |c| >= BLOCK && c == EncryptWith(suite, key, p, c[..BLOCK])
  {
    if |c| >= BLOCK {
      var iv: Block := c[..BLOCK];
      if DecryptWith(suite, key, c) == Ok(p) {
        var d := CbcDecrypt(suite, key, iv, c[BLOCK..]);
        PadUnpad(d, p);
        CbcEncryptInvertsDecrypt(suite, key, iv, c[BLOCK..]);
        assert c == iv + c[BLOCK..];
      }
      if c == EncryptWith(suite, key, p, iv) {
        DecryptInvertsEncrypt(suite, key, p, iv);
      }
    }
  }

  lemma DecryptInvertsEncrypt(suite: Suite, key: AesKey, p: Bytes, iv: Block)
    requires Bijective(suite)
    ensures DecryptWith(suite, key, EncryptWith(suite, key, p, iv)) == Ok(p)
  {
    var body := CbcEncrypt(suite, key, iv, Pad(p));
    assert (iv + body)[..BLOCK] == iv && (iv + body)[BLOCK..] == body;
    CbcDecryptInvertsEncrypt(suite, key, iv, Pad(p));
    UnpadPad(p);
  }

  // ---------- The short authentication string of v2 pairing ----------

  /** Byte strings in lexicographic order, as slices are compared. */
  predicate LexLe(a: Bytes, b: Bytes) {
    a == [] || (b != [] && (a[0] < b[0] || (a[0] == b[0] && LexLe(a[1..], b[1..]))))
  }

  lemma {:induction false} LexIsTotalOrder(a: Bytes, b: Bytes)
    ensures LexLe(a, b) || LexLe(b, a)
    ensures LexLe(a, b) && LexLe(b, a) ==> a == b
    decreases |a|
  {
    if a != [] && b != [] {
      LexIsTotalOrder(a[1..], b[1..]);
      assert a == [a[0]] + a[1..] && b == [b[0]] + b[1..];
    }
  }

  lemma HeadsDiffer(a: Bytes, b: Bytes)
    requires a != [] && b != [] && a[0] != b[0]
    ensures forall k: nat | 0 < k <= |a| && k <= |b| :: a[..k] != b[..k]
  {
    forall k: nat | 0 < k <= |a| && k <= |b| ensures a[..k] != b[..k] {
      assert a[..k][0] == a[0] && b[..k][0] == b[0];
    }
  }

  /** One string is a prefix of the other, or has the smaller byte where they first differ. */
  lemma {:induction false} LexLeExactly(a: Bytes, b: Bytes)
    ensures LexLe(a, b) <==>
            || a <= b
            || exists k: nat :: k < |a| && k < |b| && a[..k] == b[..k] && a[k] < b[k]
    decreases |a|
  {
    if a != [] && b != [] && a[0] == b[0] {
      LexLeExactly(a[1..], b[1..]);
      assert a == [a[0]] + a[1..] && b == [b[0]] + b[1..];
      if k: nat :| k < |a[1..]| && k < |b[1..]| && a[1..][..k] == b[1..][..k] && a[1..][k] < b[1..][k] {
        assert a[..k + 1] == [a[0]] + a[1..][..k] && b[..k + 1] == [b[0]] + b[1..][..k];
        assert a[k + 1] < b[k + 1];
      }
      if k: nat :| k < |a| && k < |b| && a[..k] == b[..k] && a[k] < b[k] {
        assert a[1..][..k - 1] == a[..k][1..] && b[1..][..k - 1] == b[..k][1..];
        assert a[1..][k - 1] < b[1..][k - 1];
      }
    } else if a != [] && b != [] {
      if a[0] < b[0] {
        assert a[..0] == b[..0];
      }
      HeadsDiffer(a, b);
    }
  }

  /** `compute_sas`; `hashPrefix` yields the first four bytes of the hash as a big-endian u32. */
  function ComputeSas(hashPrefix: Bytes -> nat, local: Bytes, remote: Bytes): nat {
    var (first, second) := if LexLe(local, remote) then (local, remote) else (remote, local);
    hashPrefix(first + second) % 0x8000_0000 % 1_000_000
  }

  /** Both sides compute the same six digits, from the hash of the smaller key before the larger, less its top bit. */
  lemma SasIsTheSameOnBothSides(hashPrefix: Bytes -> nat, a: Bytes, b: Bytes)
    ensures ComputeSas(hashPrefix, a, b) == ComputeSas(hashPrefix, b, a) < 1_000_000
    ensures LexLe(a, b) ==> ComputeSas(hashPrefix, b, a) == hashPrefix(a + b) % 0x8000_0000 % 1_000_000
  {
    LexIsTotalOrder(a, b);
  }
}
