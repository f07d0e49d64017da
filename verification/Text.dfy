/** Whitespace as `str::trim` sees it. */
module Text {
  predicate IsWhitespace(c: char) {
    || '\U{9}' <= c <= '\U{d}' || c == ' ' || c == '\U{85}' || c == '\U{a0}' || c == '\U{1680}'
    || '\U{2000}' <= c <= '\U{200a}' || c == '\U{2028}' || c == '\U{2029}' || c == '\U{202f}'
    || c == '\U{205f}' || c == '\U{3000}'
  }

  function Trim(s: string): string {
    if s == [] then []
    else if IsWhitespace(s[0]) then Trim(s[1..])
    else if IsWhitespace(s[|s| - 1]) then Trim(s[..|s| - 1])
    else s
  }

  predicate IsBlank(s: string) {
    forall c <- s :: IsWhitespace(c)
  }

  /** Trimming leaves nothing exactly when there is nothing but whitespace. */
  lemma {:induction false} TrimmedEmpty(s: string)
    ensures Trim(s) == [] <==> IsBlank(s)
    decreases |s|
  {
    if s != [] {
      if IsWhitespace(s[0]) {
        TrimmedEmpty(s[1..]);
        assert s == [s[0]] + s[1..];
      } else if IsWhitespace(s[|s| - 1]) {
        TrimmedEmpty(s[..|s| - 1]);
        assert s == s[..|s| - 1] + [s[|s| - 1]];
      }
    }
  }

  /** `s[i..j]` is `s` without the whitespace at both its ends. */
  ghost predicate IsTrimmed(s: string, i: nat, j: nat) {
    && i <= j <= |s| && IsBlank(s[..i]) && IsBlank(s[j..])
    && (i < j ==> !IsWhitespace(s[i]) && !IsWhitespace(s[j - 1]))
  }

  lemma TrimmedAfter(c: char, s: string, i: nat, j: nat)
    requires IsWhitespace(c) && IsTrimmed(s, i, j)
    ensures IsTrimmed([c] + s, i + 1, j + 1) && ([c] + s)[i + 1..j + 1] == s[i..j]
  {
    assert ([c] + s)[..i + 1] == [c] + s[..i] && ([c] + s)[j + 1..] == s[j..];
  }

  lemma TrimmedBefore(s: string, c: char, i: nat, j: nat)
    requires IsWhitespace(c) && IsTrimmed(s, i, j)
    ensures IsTrimmed(s + [c], i, j) && (s + [c])[i..j] == s[i..j]
  {
    assert (s + [c])[..i] == s[..i] && (s + [c])[j..] == s[j..] + [c];
  }

  /** Trimming removes the whitespace at both ends, all of it and nothing else. */
  lemma {:induction false} TrimIsExact(s: string) returns (i: nat, j: nat)
    ensures IsTrimmed(s, i, j) && Trim(s) == s[i..j]
    decreases |s|
  {
    if s == [] {
      i, j := 0, 0;
    } else if IsWhitespace(s[0]) {
      var c, t := s[0], s[1..];
      i, j := TrimIsExact(t);
      TrimmedAfter(c, t, i, j);
      assert s == [c] + t && Trim(s) == Trim(t);
      i, j := i + 1, j + 1;
    } else if IsWhitespace(s[|s| - 1]) {
      var t, c := s[..|s| - 1], s[|s| - 1];
      i, j := TrimIsExact(t);
      TrimmedBefore(t, c, i, j);
      assert s == t + [c] && Trim(s) == Trim(t);
    } else {
      i, j := 0, |s|;
    }
  }

  lemma TrimNothing(s: string)
    requires s != [] && !IsWhitespace(s[0]) && !IsWhitespace(s[|s| - 1])
    ensures Trim(s) == s
  {
  }
}
