/**
 * One-time codes of the admin login: the dynamic truncation of section 5.3 of RFC 4226 over time steps of
 * 30 seconds (section 4 of RFC 6238), accepted one step to either side.  HMAC-SHA-1 is a parameter.
 */
module Totp {
  import opened Prelude
  import opened Decimal
  import opened Text
  import opened BigEndian

  const STEP_SECONDS: nat := 30

  type Digest = d: Bytes | |d| == 20 witness seq(20, _ => 0)

  /** The MAC of each counter under a decoded secret; None when the secret is not valid base32. */
  type Secret = Option<nat -> Digest>

  function Truncate(digest: Digest): (r: nat)
    ensures r < 0x8000_0000
  {
    var offset := digest[19] % 16;
    (digest[offset] % 128) as int * 0x100_0000 + digest[offset + 1] as int * 0x1_0000
      + digest[offset + 2] as int * 0x100 + digest[offset + 3] as int
  }

  /** The truncated value is the low 31 bits of a big-endian u32, read where the last four bits of the digest point. */
  lemma TruncateReadsBigEndian(digest: Digest)
    ensures
      var offset := digest[19] % 16;
      Truncate(digest) == U32FromBytes(digest[offset..offset + 4]) % 0x8000_0000
  {
    var b := digest[digest[19] % 16..digest[19] % 16 + 4];
    var low := (b[0] % 128) as int * 0x100_0000 + b[1] as int * 0x1_0000 + b[2] as int * 0x100 + b[3] as int;
    assert U32FromBytes(b) == 0x8000_0000 * (b[0] as int / 128) + low;
  }

  function Zeros(n: nat): (r: string)
    ensures |r| == n && forall c <- r :: c == '0'
  {
    if n == 0 then [] else Zeros(n - 1) + ['0']
  }

  /** Zero-padded to six digits. */
  function SixDigits(n: nat): (r: string)
    requires n < 1_000_000
    ensures |r| == 6 && forall c <- r :: IsDigit(c)
  {
    assert Pow10(6) == 1_000_000;
    TextLength(n, 6);
    Zeros(6 - |ToText(n)|) + ToText(n)
  }

  function CodeAt(mac: nat -> Digest, counter: nat): string {
    SixDigits(Truncate(mac(counter)) % 1_000_000)
  }

  /** `current + offset as u64`: a step before the epoch wraps around. */
  function Counter(current: int, offset: int): nat {
    (current + offset) % U64_LIMIT
  }

  predicate VerifyTotp(secret: Secret, code: string, nowSeconds: nat) {
    var trimmed := Trim(code);
    && |trimmed| == 6 && (forall c <- trimmed :: IsDigit(c))
    && secret.Some?
    && exists offset | -1 <= offset <= 1 :: CodeAt(secret.value, Counter(nowSeconds / STEP_SECONDS, offset)) == trimmed
  }

  lemma {:induction false} ValueWithZeros(k: nat, s: string)
    requires forall c <- s :: IsDigit(c)
    ensures forall c <- Zeros(k) + s :: IsDigit(c)
    ensures Value(Zeros(k) + s) == Value(s)
    decreases k + |s|
  {
    if s != [] {
      ValueWithZeros(k, s[..|s| - 1]);
      assert (Zeros(k) + s)[..k + |s| - 1] == Zeros(k) + s[..|s| - 1];
      assert (Zeros(k) + s)[k + |s| - 1] == s[|s| - 1];
    } else if k > 0 {
      ValueWithZeros(k - 1, []);
      assert Zeros(k) + [] == Zeros(k - 1) + ['0'];
      assert (Zeros(k - 1) + ['0'])[..k - 1] == Zeros(k - 1) + [];
    }
  }

  /** Comparing codes as text is comparing them as numbers. */
  lemma SameTextSameNumber(m: nat, n: nat)
    requires m < 1_000_000 && n < 1_000_000
    ensures Value(SixDigits(m)) == m
    ensures SixDigits(m) == SixDigits(n) <==> m == n
  {
    assert Pow10(6) == 1_000_000;
    TextLength(m, 6);
    TextLength(n, 6);
    ValueOfText(m);
    ValueWithZeros(6 - |ToText(m)|, ToText(m));
    ValueOfText(n);
    ValueWithZeros(6 - |ToText(n)|, ToText(n));
  }

  lemma DigitsNeedNoTrim(s: string)
    requires s != [] && forall c <- s :: IsDigit(c)
    ensures Trim(s) == s
  {
    assert IsDigit(s[0]) && IsDigit(s[|s| - 1]);
    TrimNothing(s);
  }

  /**
   * Of all texts, those are accepted that, once trimmed, are the six digits of this step, the one before, or the one
   * after; and none at all when the stored secret cannot be decoded.
   */
  lemma AcceptedTexts(secret: Secret, code: string, nowSeconds: nat)
    ensures VerifyTotp(secret, code, nowSeconds) <==>
            && secret.Some?
            && exists offset | -1 <= offset <= 1 ::
                 Trim(code) == SixDigits(Truncate(secret.value(Counter(nowSeconds / STEP_SECONDS, offset))) % 1_000_000)
  {
  }

  /** What is accepted: the six digits of the truncated MAC of this step, the one before, or the one after. */
  lemma AcceptedExactly(mac: nat -> Digest, number: nat, nowSeconds: nat)
    requires number < 1_000_000
    ensures VerifyTotp(Some(mac), SixDigits(number), nowSeconds) <==>
            exists offset | -1 <= offset <= 1 ::
              Truncate(mac(Counter(nowSeconds / STEP_SECONDS, offset))) % 1_000_000 == number
  {
    var code := SixDigits(number);
    DigitsNeedNoTrim(code);
    var step := nowSeconds / STEP_SECONDS;
    forall offset | -1 <= offset <= 1
      ensures CodeAt(mac, Counter(step, offset)) == code <==> Truncate(mac(Counter(step, offset))) % 1_000_000 == number
    {
      SameTextSameNumber(Truncate(mac(Counter(step, offset))) % 1_000_000, number);
    }
  }

  /** Clock drift: a code made at second `t` is accepted at every second within 30 of it, before or after. */
  lemma AcceptedWithinOneStep(mac: nat -> Digest, t: nat, now: nat)
    requires -30 <= now - t <= 30 && t < U64_LIMIT
    ensures VerifyTotp(Some(mac), CodeAt(mac, Counter(t / STEP_SECONDS, 0)), now)
  {
    var offset := t / STEP_SECONDS - now / STEP_SECONDS;
    assert -1 <= offset <= 1;
    assert Counter(now / STEP_SECONDS, offset) == Counter(t / STEP_SECONDS, 0);
    DigitsNeedNoTrim(CodeAt(mac, Counter(t / STEP_SECONDS, 0)));
  }

  /** A minute away, the step that made the code is no longer among the three that are tried. */
  lemma OutOfWindowAfterAMinute(t: nat, now: nat, offset: int)
    requires now - t >= 60 || t - now >= 60
    requires -1 <= offset <= 1 && t < I64_LIMIT && now < I64_LIMIT
    ensures Counter(now / STEP_SECONDS, offset) != Counter(t / STEP_SECONDS, 0)
  {
    var a, b := now / STEP_SECONDS, t / STEP_SECONDS;
    assert a + 2 <= b || b + 2 <= a;
    CounterOf(a, offset);
    CounterOf(b, 0);
  }

  lemma CounterOf(current: nat, offset: int)
    requires -1 <= offset <= 1 && current < I64_LIMIT
    ensures Counter(current, offset) == if current + offset < 0 then U64_LIMIT - 1 else current + offset
  {
  }
}
