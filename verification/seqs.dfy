/** Small facts about sequences that the byte-level proofs use by name, so
    that no proof has to rediscover them by extensionality. */
module Seqs {

  lemma AppendAssoc<T>(x: seq<T>, y: seq<T>, z: seq<T>)
    ensures x + (y + z) == (x + y) + z
  {
  }

  lemma AppendEmpty<T>(x: seq<T>)
    ensures [] + x == x && x + [] == x
  {
  }

  /** A sequence is its prefix followed by its suffix. */
  lemma SplitAt<T>(s: seq<T>, n: nat)
    requires n <= |s|
    ensures s == s[..n] + s[n..]
  {
  }

  /** `s[a..c]` is the piece `s[a..b]` followed by `s[b..c]`. */
  lemma SplitSlice<T>(s: seq<T>, a: nat, b: nat, c: nat)
    requires a <= b <= c <= |s|
    ensures s[a..c] == s[a..b] + s[b..c]
  {
  }

  /** `s[p..]` is the piece `s[p..q]` followed by `s[q..]`. */
  lemma SplitSuffix<T>(s: seq<T>, p: nat, q: nat)
    requires p <= q <= |s|
    ensures s[p..] == s[p..q] + s[q..]
  {
  }

  /** A suffix made of a piece `a` and then `b + c`. */
  lemma SuffixParts<T>(s: seq<T>, p: nat, q: nat, a: seq<T>, b: seq<T>, c: seq<T>)
    requires p <= q <= |s| && s[p..q] == a && s[q..] == b + c
    ensures s[p..] == a + b + c
  {
    assert s[p..] == s[p..q] + s[q..];
  }

  /** The index of an element in the middle of a three-part sequence. */
  lemma MiddleAt<T>(a: seq<T>, e: seq<T>, t: seq<T>, j: nat)
    requires j < |e|
    ensures (a + e + t)[|a| + j] == e[j]
  {
  }

  /** Cutting the middle piece `b` out of `a + b + c + d`. */
  lemma CutMiddle<T>(a: seq<T>, b: seq<T>, c: seq<T>, d: seq<T>)
    ensures var s := a + b + c + d;
      s[..|a|] == a && s[|a| + |b|..|a| + |b| + |c|] == c
  {
    var s := a + b + c + d;
    assert s[..|a|] == a;
    assert s[|a| + |b|..|a| + |b| + |c|] == c;
  }

  /** Replacing the middle piece of `a + b + c` by one of the same length. */
  lemma ReplaceMiddle<T>(a: seq<T>, b: seq<T>, c: seq<T>, e: seq<T>)
    requires |e| == |b|
    ensures var s := a + b + c;
      s[..|a|] + e + s[|a| + |e|..] == a + e + c
  {
    var s := a + b + c;
    assert s[..|a|] == a;
    assert s[|a| + |e|..] == c;
  }

  /** A piece of a piece of `s` is a piece of `s`. */
  lemma SliceOfSlice<T>(s: seq<T>, p: nat, e: seq<T>, i: nat, j: nat)
    requires p + |e| <= |s| && s[p..p + |e|] == e && i <= j <= |e|
    ensures s[p + i..p + j] == e[i..j]
  {
    forall x | 0 <= x < j - i
      ensures s[p + i..p + j][x] == e[i..j][x]
    {
      assert s[p + i..p + j][x] == s[p..p + |e|][i + x];
    }
  }

  /** Two sequences of the same length that agree on three consecutive
      pieces are equal. */
  lemma EqualParts<T>(r: seq<T>, e: seq<T>, i: nat, j: nat)
    requires |r| == |e| && i <= j <= |r|
    requires r[..i] == e[..i] && r[i..j] == e[i..j] && r[j..] == e[j..]
    ensures r == e
  {
    assert r == r[..i] + r[i..j] + r[j..];
    assert e == e[..i] + e[i..j] + e[j..];
  }

  /** Updating one element leaves the pieces around it alone. */
  lemma UpdateParts<T>(s: seq<T>, i: nat, x: T)
    requires i < |s|
    ensures s[i := x][..i] == s[..i] && s[i := x][i + 1..] == s[i + 1..] && s[i := x][i] == x
  {
  }

  /** Cutting the second piece out of `a + b + c + d` and dropping `d`. */
  lemma CutOut<T>(a: seq<T>, b: seq<T>, c: seq<T>, d: seq<T>, p: nat, q: nat, e: nat)
    requires p == |a| && q == |a| + |b| && e == |a| + |b| + |c|
    ensures var s := a + b + c + d;
      q <= e <= |s| && s[..p] + s[q..e] == a + c
  {
    CutMiddle(a, b, c, d);
  }
}
