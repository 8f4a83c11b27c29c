/**
 * Sequence bookkeeping used by the proofs of the other modules: splitting,
 * re-associating and indexing concatenations.  It models nothing of the program.
 */
module Seqs {
  lemma SplitAt<T>(s: seq<T>, i: nat)
    requires i <= |s|
    ensures s == s[..i] + s[i..]
  {
  }

  lemma PrefixSnoc<T>(s: seq<T>, i: nat)
    requires i < |s|
    ensures s[..i + 1] == s[..i] + [s[i]]
  {
  }

  lemma PrefixAll<T>(s: seq<T>)
    ensures s[..|s|] == s
  {
  }

  lemma AppendAssoc<T>(a: seq<T>, b: seq<T>, c: seq<T>)
    ensures a + (b + c) == a + b + c
  {
  }

  lemma ConsSplit<T>(s: seq<T>)
    requires s != []
    ensures s == [s[0]] + s[1..]
  {
  }

  /** Splitting off the head of a non-empty sequence in front of a concatenation. */
  lemma ConsAppend<T>(g: seq<T>, x: seq<T>)
    requires g != []
    ensures g + x == [g[0]] + (g[1..] + x)
  {
    assert g == [g[0]] + g[1..];
  }

  /** The parts of `h + b + n + t` can be read back from it. */
  lemma Parts<T>(h: seq<T>, b: seq<T>, n: seq<T>, t: seq<T>)
    ensures |h + b + n + t| == |h| + |b| + |n| + |t|
    ensures (h + b + n + t)[..|h|] == h
    ensures (h + b + n + t)[|h|..|h| + |b|] == b
    ensures (h + b + n + t)[|h| + |b| + |n|..] == t
    ensures |b + n| > 0 ==> (h + b + n + t)[|h| + |b| + |n| - 1] == (b + n)[|b + n| - 1]
  {
    var o := h + b + n + t;
    if |b + n| > 0 {
      assert o == h + (b + n) + t;
    }
  }

  lemma SuffixCons<T>(o: seq<T>, x: T, t: seq<T>)
    requires |t| < |o| && o[|o| - |t|..] == t && o[|o| - |t| - 1] == x
    ensures o[|o| - |t| - 1..] == [x] + t
  {
  }

  lemma Assoc4<T>(a: seq<T>, h: seq<T>, b: seq<T>, n: seq<T>, t: seq<T>)
    ensures a + h + b + n + t == a + (h + b + n + t)
  {
  }

  lemma Bracketed<T>(o: T, x: seq<T>, c: T, bad: T)
    requires bad != o && bad != c && bad !in x
    ensures bad !in [o] + x + [c]
    ensures ([o] + x + [c])[0] == o && ([o] + x + [c])[|x| + 1] == c
  {
  }

  lemma PercentNewline()
    ensures "%\n" == "%" + "\n"
  {
  }

  lemma Assoc3<T>(h: seq<T>, b: seq<T>, p: seq<T>, n: seq<T>, r: seq<T>)
    ensures h + b + (p + n) + r == (h + b) + (p + (n + r))
  {
  }
}
