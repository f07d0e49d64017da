/** Cutting a sequence into pieces (`slice::chunks`, `u64::div_ceil`) and joining pieces again. */
module Chunking {
  import opened Prelude

  /** `div_ceil` as the standard library computes it: quotient, plus one when there is a remainder. */
  function CeilDiv(a: nat, n: nat): nat
    requires n > 0
  {
    a / n + (if a % n > 0 then 1 else 0)
  }

  function Chunks<T>(s: seq<T>, n: nat): seq<seq<T>>
    requires n > 0
  {
    if s == [] then []
    else if |s| <= n then [s]
    else [s[..n]] + Chunks(s[n..], n)
  }

  function Join<T>(parts: seq<seq<T>>): seq<T> {
    if parts == [] then [] else parts[0] + Join(parts[1..])
  }

  /** What a splitting must look like: every piece full, except that the last may be short but not empty. */
  predicate WellSplit<T>(parts: seq<seq<T>>, n: nat) {
    forall i | 0 <= i < |parts| ::
      0 < |parts[i]| <= n && (i < |parts| - 1 ==> |parts[i]| == n)
  }

  // ---------- Division ----------

  lemma DivUnique(a: int, n: int, q: int, r: int)
    requires n > 0 && 0 <= r < n && a == n * q + r
    ensures a / n == q && a % n == r
  {
    var d := a / n - q;
    assert n * (a / n) + a % n == a;
    assert n * d == r - a % n by {
      assert n * d == n * (a / n) - n * q;
    }
    assert d >= 1 ==> n * d >= n;
    assert d <= -1 ==> n * d <= -n;
  }

  lemma CeilDivStep(a: nat, n: nat)
    requires n > 0 && a >= n
    ensures CeilDiv(a, n) == 1 + CeilDiv(a - n, n)
  {
    var q, r := a / n, a % n;
    assert a == n * q + r;
    assert a - n == n * (q - 1) + r;
    DivUnique(a - n, n, q - 1, r);
  }

  lemma CeilDivSmall(a: nat, n: nat)
    requires n > 0 && 0 < a <= n
    ensures CeilDiv(a, n) == 1
  {
    if a == n {
      DivUnique(a, n, 1, 0);
    } else {
      DivUnique(a, n, 0, a);
    }
  }

  /** The ceiling is the least piece count that covers `a`: it covers, and one fewer does not. */
  lemma CeilDivIsLeastCover(a: nat, n: nat)
    requires n > 0
    ensures a <= CeilDiv(a, n) * n
    ensures a > 0 ==> (CeilDiv(a, n) - 1) * n < a
    ensures a == 0 <==> CeilDiv(a, n) == 0
  {
    var q, r := a / n, a % n;
    assert a == n * q + r;
    if r > 0 {
      assert (q + 1) * n == n * q + n;
    } else {
      assert (q - 1) * n == n * q - n;
      if q == 0 { assert a == 0; }
    }
    assert q >= 0;
    if CeilDiv(a, n) == 0 { assert q == 0 && r == 0; }
  }

  lemma ProductsAscend(x: nat, y: nat, n: nat)
    requires x <= y
    ensures x * n <= y * n
  {
  }

  /** If `a` is at most `m` whole pieces then its ceiling is at most `m`. */
  lemma CeilDivBound(a: nat, n: nat, m: nat)
    requires n > 0 && a <= m * n
    ensures CeilDiv(a, n) <= m
  {
    CeilDivIsLeastCover(a, n);
    var c := CeilDiv(a, n);
    if c > m {
      ProductsAscend(m, c - 1, n);
    }
  }

  // ---------- Splitting and joining ----------

  lemma {:induction false} JoinChunks<T>(s: seq<T>, n: nat)
    requires n > 0
    ensures Join(Chunks(s, n)) == s
    decreases |s|
  {
    if s == [] {
    } else if |s| <= n {
      assert [s][1..] == [];
    } else {
      JoinChunks(s[n..], n);
      assert ([s[..n]] + Chunks(s[n..], n))[1..] == Chunks(s[n..], n);
      assert s == s[..n] + s[n..];
    }
  }

  lemma {:induction false} ChunkCount<T>(s: seq<T>, n: nat)
    requires n > 0
    ensures |Chunks(s, n)| == CeilDiv(|s|, n)
    decreases |s|
  {
    if s == [] {
      DivUnique(0, n, 0, 0);
    } else if |s| <= n {
      CeilDivSmall(|s|, n);
    } else {
      ChunkCount(s[n..], n);
      CeilDivStep(|s|, n);
    }
  }

  lemma SliceCons<T>(s: seq<T>, i: nat, k: nat)
    requires i + 1 + k <= |s|
    ensures s[i..i + 1 + k] == [s[i]] + s[i + 1..i + 1 + k]
  {
  }

  lemma SliceOfDrop<T>(s: seq<T>, n: nat, lo: nat, hi: nat)
    requires n <= |s| && lo <= hi <= |s| - n
    ensures s[n..][lo..hi] == s[lo + n..hi + n]
  {
  }

  lemma {:induction false} ChunkAt<T>(s: seq<T>, n: nat, i: nat)
    requires n > 0 && i < |Chunks(s, n)|
    ensures 0 <= i * n < |s|
    ensures Chunks(s, n)[i] == s[i * n..Min((i + 1) * n, |s|)]
    decreases |s|
  {
    if |s| <= n {
      assert i == 0;
      assert (i + 1) * n == n;
    } else if i == 0 {
      assert (i + 1) * n == n;
    } else {
      var t := s[n..];
      ChunkAt(t, n, i - 1);
      assert (i - 1) * n == i * n - n;
      assert ((i - 1) + 1) * n == (i + 1) * n - n;
      assert Chunks(s, n)[i] == Chunks(t, n)[i - 1];
      var lo, hi := (i - 1) * n, Min(i * n, |t|);
      assert lo == i * n - n && ((i - 1) + 1) * n == i * n;
      SliceOfDrop(s, n, lo, hi);
    }
  }

  lemma {:induction false} ChunksWellSplit<T>(s: seq<T>, n: nat)
    requires n > 0
    ensures WellSplit(Chunks(s, n), n)
    decreases |s|
  {
    if |s| > n {
      ChunksWellSplit(s[n..], n);
      assert Chunks(s[n..], n) != [];
    }
  }

  /** `Chunks` is the only way to split: pieces of the right shape that join to `s` are its chunks. */
  lemma {:induction false} WellSplitIsChunks<T>(parts: seq<seq<T>>, n: nat)
    requires n > 0 && WellSplit(parts, n)
    ensures Chunks(Join(parts), n) == parts
    decreases |parts|
  {
    if parts == [] {
    } else {
      var rest := parts[1..];
      assert WellSplit(rest, n) by {
        forall i | 0 <= i < |rest| ensures 0 < |rest[i]| <= n && (i < |rest| - 1 ==> |rest[i]| == n) {
          assert rest[i] == parts[i + 1];
        }
      }
      WellSplitIsChunks(rest, n);
      assert parts == [parts[0]] + rest;
      if rest == [] {
        assert Join(parts) == parts[0];
      } else {
        assert |parts[0]| == n;
        assert |Join(rest)| > 0 by { assert rest[0] == parts[1]; }
        assert Join(parts)[..n] == parts[0] && Join(parts)[n..] == Join(rest);
      }
    }
  }

  lemma {:induction false} JoinAppend<T>(a: seq<seq<T>>, b: seq<seq<T>>)
    ensures Join(a + b) == Join(a) + Join(b)
    decreases |a|
  {
    if a == [] {
      assert a + b == b;
    } else {
      JoinAppend(a[1..], b);
      assert (a + b)[1..] == a[1..] + b;
    }
  }

  lemma JoinSnoc<T>(a: seq<seq<T>>, x: seq<T>)
    ensures Join(a + [x]) == Join(a) + x
  {
    JoinAppend(a, [x]);
    assert Join([x]) == x + Join([x][1..]) == x;
  }

  lemma JoinOneMore<T>(parts: seq<seq<T>>, i: nat)
    requires i < |parts|
    ensures Join(parts[..i + 1]) == Join(parts[..i]) + parts[i]
  {
    assert parts[..i + 1] == parts[..i] + [parts[i]];
    JoinSnoc(parts[..i], parts[i]);
  }

  /** The first `k` pieces hold exactly the first `k * n` elements, or everything if there are fewer. */
  lemma {:induction false} JoinFirstChunks<T>(s: seq<T>, n: nat, k: nat)
    requires n > 0 && k <= |Chunks(s, n)|
    ensures Join(Chunks(s, n)[..k]) == s[..Min(k * n, |s|)]
    decreases k
  {
    var cs := Chunks(s, n);
    if k == 0 {
      assert 0 * n == 0;
    } else {
      JoinFirstChunks(s, n, k - 1);
      ChunkAt(s, n, k - 1);
      JoinOneMore(cs, k - 1);
    }
  }

  lemma {:induction false} JoinPrefixLengths<T>(parts: seq<seq<T>>, j: nat, k: nat)
    requires j <= k <= |parts|
    ensures |Join(parts[..j])| <= |Join(parts[..k])|
    decreases k
  {
    if j < k {
      JoinPrefixLengths(parts, j, k - 1);
      JoinOneMore(parts, k - 1);
    }
  }
}
