/**
 * Choosing the jar a random fortune comes from (`randomJar` and
 * `randomJarByWeight` in main.go).  The database is replaced by `numRows`, the
 * answer `queryNumRows` gives for a jar (the largest row id of its table, 0 for a
 * missing or empty table), and the random draws by parameters.
 */
module Pick {
  import opened Wrappers

  /** The result of `randomJarByWeight`: a jar, the fall-back to a uniform pick among
      all tables when no candidate has any rows, or the `log.Fatalf` for "no jar
      was picked". */
  datatype Outcome = Picked(jar: string) | UniformFallback | NoJarPicked

  /** The jars to choose from: those asked for, or all tables when none were. */
  function Candidates(jars: seq<string>, all: seq<string>): seq<string> {
    if |jars| == 0 then all else jars
  }

  /** The uniform pick of `randomJar`; `draw` stands for `rand.Intn(len(jars))`,
      which panics when there is nothing to choose from. */
  function RandomJar(jars: seq<string>, all: seq<string>, draw: nat): (r: Option<string>)
    requires draw < |Candidates(jars, all)| || Candidates(jars, all) == []
    ensures r.Some? <==> Candidates(jars, all) != []
    ensures r.Some? ==> r.value in Candidates(jars, all)
    ensures r.Some? && jars != [] ==> r.value in jars
    ensures r.Some? ==> r.value == Candidates(jars, all)[draw]
  {
    var cands := Candidates(jars, all);
    if cands == [] then None else Some(cands[draw])
  }

  /** The draws that make the uniform pick return `jar`. */
  function UniformHits(jars: seq<string>, all: seq<string>, jar: string): set<nat> {
    set d: nat | d < |Candidates(jars, all)| && RandomJar(jars, all, d) == Some(jar)
  }

  /** The positions at which `cands` holds `jar`. */
  function Positions(cands: seq<string>, jar: string): set<nat> {
    set d: nat | d < |cands| && cands[d] == jar
  }

  lemma {:induction false} PositionsCount(cands: seq<string>, jar: string)
    ensures |Positions(cands, jar)| == multiset(cands)[jar]
    decreases |cands|
  {
    if cands != [] {
      var init, x := cands[..|cands| - 1], cands[|cands| - 1];
      PositionsCount(init, jar);
      assert cands == init + [x];
      var last: nat := |init|;
      if x == jar {
        assert Positions(cands, jar) == Positions(init, jar) + {last};
      } else {
        assert Positions(cands, jar) == Positions(init, jar);
      }
    }
  }

  /** With `rand.Intn(len(jars))` uniform, the uniform pick is uniform: each jar is
      returned by as many of the equally likely draws as it occurs among the
      candidates, so by exactly one draw when the names are distinct. */
  lemma UniformShare(jars: seq<string>, all: seq<string>, jar: string)
    ensures |UniformHits(jars, all, jar)| == multiset(Candidates(jars, all))[jar]
  {
    var cands := Candidates(jars, all);
    assert UniformHits(jars, all, jar) == Positions(cands, jar);
    PositionsCount(cands, jar);
  }

  function Sum(s: seq<nat>): nat {
    if s == [] then 0 else s[0] + Sum(s[1..])
  }

  lemma {:induction false} SumSnoc(s: seq<nat>, x: nat)
    ensures Sum(s + [x]) == Sum(s) + x
  {
    if s != [] {
      assert (s + [x])[1..] == s[1..] + [x];
      SumSnoc(s[1..], x);
    }
  }

  lemma {:induction false} SumPrefixMonotone(s: seq<nat>, i: nat, j: nat)
    requires i <= j <= |s|
    ensures Sum(s[..i]) <= Sum(s[..j])
    decreases j - i
  {
    if i < j {
      SumPrefixMonotone(s, i + 1, j);
      assert s[..i + 1] == s[..i] + [s[i]];
      SumSnoc(s[..i], s[i]);
    }
  }

  lemma SumPrefixStep(s: seq<nat>, i: nat)
    requires i < |s|
    ensures Sum(s[..i + 1]) == Sum(s[..i]) + s[i]
  {
    assert s[..i + 1] == s[..i] + [s[i]];
    SumSnoc(s[..i], s[i]);
  }

  lemma SumWhole(s: seq<nat>)
    ensures Sum(s[..|s|]) == Sum(s)
  {
    assert s[..|s|] == s;
  }

  /** The row counts of the jars, in order. */
  function Counts(jars: seq<string>, numRows: string -> nat): (counts: seq<nat>)
    ensures |counts| == |jars|
    ensures forall i :: 0 <= i < |jars| ==> counts[i] == numRows(jars[i])
  {
    if jars == [] then [] else [numRows(jars[0])] + Counts(jars[1..], numRows)
  }

  /** The jar index a draw `npick` lands on when the draws `0 .. Sum(counts) - 1` are
      laid out jar after jar, each jar taking as many as its count. */
  function WeightedIndex(counts: seq<nat>, npick: nat): (k: nat)
    requires npick < Sum(counts)
    ensures k < |counts|
    ensures Sum(counts[..k]) <= npick < Sum(counts[..k + 1])
    ensures counts[k] > 0
  {
    assert counts != [];
    if npick < counts[0] then
      assert counts[..1] == [counts[0]];
      0
    else
      var k := WeightedIndex(counts[1..], npick - counts[0]);
      assert counts[..k + 1] == [counts[0]] + counts[1..][..k];
      assert counts[..k + 2] == [counts[0]] + counts[1..][..k + 1];
      k + 1
  }

  /** The index is the only one whose share of draws contains `npick`. */
  lemma WeightedIndexUnique(counts: seq<nat>, npick: nat, k: nat)
    requires k < |counts| && Sum(counts[..k]) <= npick < Sum(counts[..k + 1])
    ensures npick < Sum(counts)
    ensures WeightedIndex(counts, npick) == k
  {
    SumPrefixMonotone(counts, k + 1, |counts|);
    assert counts[..|counts|] == counts;
    var w := WeightedIndex(counts, npick);
    if w < k {
      SumPrefixMonotone(counts, w + 1, k);
    } else if k < w {
      SumPrefixMonotone(counts, k + 1, w);
    }
  }

  /** The jar picked is the first whose running count exceeds the draw: every
      earlier jar's running count is at most the draw. */
  lemma WeightedIndexFirst(counts: seq<nat>, npick: nat, j: nat)
    requires npick < Sum(counts) && j < WeightedIndex(counts, npick)
    ensures Sum(counts[..j + 1]) <= npick
  {
    SumPrefixMonotone(counts, j + 1, WeightedIndex(counts, npick));
  }

  /** The draws from `lo` up to but not including `hi`. */
  function Range(lo: nat, hi: nat): (r: set<nat>)
    ensures forall d :: d in r <==> lo <= d < hi
    ensures |r| == if lo <= hi then hi - lo else 0
    decreases hi - lo
  {
    if hi <= lo then {} else {lo} + Range(lo + 1, hi)
  }

  /** The draws that pick jar `k`. */
  function Hits(counts: seq<nat>, k: nat): set<nat> {
    set d: nat | d < Sum(counts) && WeightedIndex(counts, d) == k
  }

  /** Each jar is picked by exactly as many of the `Sum(counts)` equally likely draws
      as it has rows: the pick is weighted by row count. */
  lemma WeightedIndexShare(counts: seq<nat>, k: nat)
    requires k < |counts|
    ensures |Hits(counts, k)| == counts[k]
  {
    var lo, hi := Sum(counts[..k]), Sum(counts[..k + 1]);
    assert counts[..k + 1] == counts[..k] + [counts[k]];
    SumSnoc(counts[..k], counts[k]);
    var hits := Hits(counts, k);
    forall d: nat ensures d in hits <==> d in Range(lo, hi) {
      if lo <= d < hi {
        WeightedIndexUnique(counts, d, k);
      }
    }
    assert hits == Range(lo, hi);
  }

  /** The first loop of `randomJarByWeight`: the row count of every jar, and their total. */
  method CountRows(jars: seq<string>, numRows: string -> nat)
    returns (jarNumRows: map<string, nat>, totalRows: nat)
    ensures jarNumRows.Keys == set j | j in jars
    ensures forall j :: j in jarNumRows ==> jarNumRows[j] == numRows(j)
    ensures totalRows == Sum(Counts(jars, numRows))
  {
    jarNumRows := map[];
    totalRows := 0;
    for i := 0 to |jars|
      invariant jarNumRows.Keys == set j | j in jars[..i]
      invariant forall j :: j in jarNumRows ==> jarNumRows[j] == numRows(j)
      invariant totalRows == Sum(Counts(jars, numRows)[..i])
    {
      var nRows := numRows(jars[i]);
      assert jars[..i + 1] == jars[..i] + [jars[i]];
      assert Counts(jars, numRows)[..i + 1] == Counts(jars, numRows)[..i] + [nRows];
      SumSnoc(Counts(jars, numRows)[..i], nRows);
      jarNumRows := jarNumRows[jars[i] := nRows];
      totalRows := totalRows + nRows;
    }
    assert jars[..|jars|] == jars;
    assert Counts(jars, numRows)[..|jars|] == Counts(jars, numRows);
  }

  /** The second loop of `randomJarByWeight`: the running row count is compared with
      the draw, and the first jar that takes it past the draw is picked. */
  method WalkToDraw(cands: seq<string>, numRows: string -> nat,
                    jarNumRows: map<string, nat>, npick: nat)
    returns (pickJar: string)
    requires forall j :: j in cands ==> j in jarNumRows && jarNumRows[j] == numRows(j)
    requires npick < Sum(Counts(cands, numRows))
    ensures pickJar == cands[WeightedIndex(Counts(cands, numRows), npick)]
  {
    ghost var counts := Counts(cands, numRows);
    pickJar := "";
    var sumRows := 0;
    for i := 0 to |cands|
      invariant sumRows == Sum(counts[..i]) && sumRows <= npick
    {
      SumPrefixStep(counts, i);
      assert jarNumRows[cands[i]] == counts[i];
      sumRows := sumRows + jarNumRows[cands[i]];
      if npick < sumRows {
        WeightedIndexUnique(counts, npick, i);
        pickJar := cands[i];
        break;
      }
    }
    SumWhole(counts);
  }

  /** `randomJarByWeight` as written: with no rows among the candidates it falls back
      to a uniform pick; otherwise it picks the jar the draw lands on, but treats a
      picked jar whose name is empty as "no jar was picked". */
  method RandomJarByWeight(jars: seq<string>, all: seq<string>, numRows: string -> nat, npick: nat)
    returns (r: Outcome)
    requires Sum(Counts(Candidates(jars, all), numRows)) == 0 ||
             npick < Sum(Counts(Candidates(jars, all), numRows))
    ensures Sum(Counts(Candidates(jars, all), numRows)) == 0 ==> r == UniformFallback
    ensures Sum(Counts(Candidates(jars, all), numRows)) > 0 ==>
      var jar := Candidates(jars, all)[WeightedIndex(Counts(Candidates(jars, all), numRows), npick)];
      r == if jar == "" then NoJarPicked else Picked(jar)
    ensures r == NoJarPicked ==> "" in Candidates(jars, all)
  {
    var cands := Candidates(jars, all);
    var jarNumRows, totalRows := CountRows(cands, numRows);
    if totalRows == 0 {
      return UniformFallback;
    }
    var pickJar := WalkToDraw(cands, numRows, jarNumRows, npick);
    if pickJar == "" {
      return NoJarPicked;
    }
    return Picked(pickJar);
  }

  /** A jar with the empty name and one row: the draw picks it, and the pick is
      reported as "no jar was picked". */
  method EmptyJarNameIsFatal() returns (r: Outcome)
    ensures r == NoJarPicked
  {
    var one: string -> nat := _ => 1;
    assert Counts([""], one) == [1];
    r := RandomJarByWeight([""], [], one, 0);
  }

  /** `randomJarByWeight` as intended: whenever the candidates have any rows, the jar
      the draw lands on is picked, whatever its name. */
  method RandomJarByWeightFixed(jars: seq<string>, all: seq<string>, numRows: string -> nat, npick: nat)
    returns (r: Outcome)
    requires Sum(Counts(Candidates(jars, all), numRows)) == 0 ||
             npick < Sum(Counts(Candidates(jars, all), numRows))
    ensures Sum(Counts(Candidates(jars, all), numRows)) == 0 ==> r == UniformFallback
    ensures Sum(Counts(Candidates(jars, all), numRows)) > 0 ==>
      r == Picked(Candidates(jars, all)[WeightedIndex(Counts(Candidates(jars, all), numRows), npick)])
    ensures r != NoJarPicked
  {
    var cands := Candidates(jars, all);
    var jarNumRows, totalRows := CountRows(cands, numRows);
    if totalRows == 0 {
      return UniformFallback;
    }
    var pickJar := WalkToDraw(cands, numRows, jarNumRows, npick);
    return Picked(pickJar);
  }
}
