/** Decimal text of naturals (`usize::to_string`) and the standard library's unsigned parser. */
module Decimal {
  import opened Prelude

  predicate IsDigit(c: char) { '0' <= c <= '9' }

  function DigitChar(d: nat): char
    requires d < 10
  {
    ('0' as int + d) as char
  }

  function ToText(n: nat): (r: string)
    ensures |r| > 0 && forall c <- r :: IsDigit(c)
  {
    if n < 10 then [DigitChar(n)] else ToText(n / 10) + [DigitChar(n % 10)]
  }

  /** The value of a digit string read from the left. */
  function Value(s: string): nat
    requires forall c <- s :: IsDigit(c)
  {
    if s == [] then 0
    else
      assert IsDigit(s[|s| - 1]);
      Value(s[..|s| - 1]) * 10 + (s[|s| - 1] as int - '0' as int)
  }

  /** `str::parse` for an unsigned type of the given limit: an optional '+', then digits, without overflow. */
  function ParseUnsigned(s: string, limit: nat): Option<nat> {
    var digits := if |s| > 0 && s[0] == '+' then s[1..] else s;
    if digits == [] || exists c <- digits :: !IsDigit(c) then None
    else if Value(digits) >= limit then None
    else Some(Value(digits))
  }

  function Pow10(k: nat): nat {
    if k == 0 then 1 else 10 * Pow10(k - 1)
  }

  lemma {:induction false} ValueOfText(n: nat)
    ensures Value(ToText(n)) == n
  {
    if n < 10 {
      assert ToText(n)[..0] == [];
    } else {
      ValueOfText(n / 10);
      var t := ToText(n / 10);
      assert (t + [DigitChar(n % 10)])[..|t|] == t;
    }
  }

  const DIGITS: string := "0123456789"

  lemma DigitsExactly(d: nat)
    requires d < 10
    ensures |DIGITS| == 10 && DigitChar(d) == DIGITS[d]
  {
  }

  /** The last digit of a number's text is its remainder by ten, and the digits before it are its tenth. */
  lemma TextIsDecimal(n: nat)
    ensures ToText(n) == (if n < 10 then [] else ToText(n / 10)) + [DIGITS[n % 10]]
  {
    DigitsExactly(n % 10);
    assert [] + [DIGITS[n % 10]] == [DIGITS[n % 10]];
  }

  lemma TextIsInjective(m: nat, n: nat)
    ensures ToText(m) == ToText(n) <==> m == n
  {
    ValueOfText(m);
    ValueOfText(n);
  }

  /** A number has at most `k` digits exactly when it is below 10 to the `k`. */
  lemma {:induction false} TextLength(n: nat, k: nat)
    requires k > 0
    ensures |ToText(n)| <= k <==> n < Pow10(k)
    decreases n
  {
    if n < 10 {
      Pow10AtLeast(k);
    } else if k == 1 {
      assert Pow10(1) == 10 * Pow10(0);
    } else {
      TextLength(n / 10, k - 1);
    }
  }

  lemma {:induction false} Pow10AtLeast(k: nat)
    requires k > 0
    ensures Pow10(k) >= 10
  {
    if k > 1 {
      Pow10AtLeast(k - 1);
    }
  }

  lemma ParseOfText(n: nat, limit: nat)
    ensures ParseUnsigned(ToText(n), limit) == if n < limit then Some(n) else None
  {
    ValueOfText(n);
    assert ToText(n)[0] in ToText(n);
  }

  /** A sign and leading zeros are accepted; nothing else but the text of the number is. */
  lemma ParsedExactly(s: string, limit: nat, n: nat)
    ensures ParseUnsigned(s, limit) == Some(n) <==>
            exists digits :: (s == digits || s == ['+'] + digits) && digits != []
                             && (forall c <- digits :: IsDigit(c)) && Value(digits) == n < limit
  {
    if ParseUnsigned(s, limit) == Some(n) {
      var digits := if s[0] == '+' then s[1..] else s;
      assert s == digits || s == ['+'] + digits;
    }
    if digits :| (s == digits || s == ['+'] + digits) && digits != []
                 && (forall c <- digits :: IsDigit(c)) && Value(digits) == n < limit
    {
      assert digits[0] in digits;
      if s == ['+'] + digits {
        assert s[1..] == digits;
      }
    }
  }

  lemma TextOf512()
    ensures ToText(512) == "512"
  {
    assert ToText(5) == "5";
    assert ToText(51) == "51";
  }

  lemma TextOf10000()
    ensures ToText(10_000) == "10000"
  {
    assert ToText(1) == "1";
    assert ToText(10) == "10";
    assert ToText(100) == "100";
    assert ToText(1_000) == "1000";
  }
}
