/**
 * Ingesting a fortune file: the jar name taken from the file name, and the
 * splitting of the file's lines into fortune records at `%` delimiter lines
 * (`ingestJarFile` in main.go). The database transaction around it is left
 * out: inserting a record is modelled as appending it to the result.
 */
module Ingest {
  import opened Text
  import opened Seqs

  /** The jar a file is ingested into: its base name up to the first dot. */
  function JarName(path: string): (jar: string)
    ensures '.' !in jar
    ensures jar == "/" || '/' !in jar
  {
    BeforeFirstDot(Base(path))
  }

  lemma {:induction false} BeforeFirstDotOf(name: string, rest: string)
    requires '.' !in name
    ensures BeforeFirstDot(name + "." + rest) == name
  {
    if name != [] {
      assert (name + "." + rest)[1..] == name[1..] + "." + rest;
      BeforeFirstDotOf(name[1..], rest);
    }
  }

  lemma {:induction false} BeforeFirstDotWhole(name: string)
    requires '.' !in name
    ensures BeforeFirstDot(name) == name
  {
    if name != [] {
      BeforeFirstDotWhole(name[1..]);
    }
  }

  /** A file `name.ext` in any directory is ingested into jar `name`
      (`test.txt` into `test`, `dir/.hidden` into the jar with the empty name). */
  lemma JarNameOfFile(dir: string, name: string, ext: string)
    requires dir == [] || dir[|dir| - 1] == '/'
    requires '/' !in name && '.' !in name
    requires '/' !in ext
    ensures JarName(dir + name + "." + ext) == name
  {
    var file := name + "." + ext;
    assert '/' !in file;
    AppendAssoc(dir, name + ".", ext);
    AppendAssoc(dir, name, ".");
    BaseOfFileInDir(dir, file);
    BeforeFirstDotOf(name, ext);
  }

  /** A file without a dot in its name is ingested into the jar of that name. */
  lemma JarNameWithoutExtension(dir: string, name: string)
    requires dir == [] || dir[|dir| - 1] == '/'
    requires name != [] && '/' !in name && '.' !in name
    ensures JarName(dir + name) == name
  {
    BaseOfFileInDir(dir, name);
    BeforeFirstDotWhole(name);
  }

  // ---------------------------------------------------------------------
  // Splitting a sequence at separator elements

  /** The runs of elements between separators, in order; there is always one run
      more than there are separators (runs may be empty). */
  function SplitOn<T>(xs: seq<T>, sep: T -> bool): (runs: seq<seq<T>>)
    ensures |runs| > 0
  {
    if xs == [] then [[]]
    else
      var rest := SplitOn(xs[1..], sep);
      if sep(xs[0]) then [[]] + rest else [[xs[0]] + rest[0]] + rest[1..]
  }

  /** How many elements of `xs` are separators. */
  function Count<T>(xs: seq<T>, sep: T -> bool): nat {
    if xs == [] then 0 else (if sep(xs[0]) then 1 else 0) + Count(xs[1..], sep)
  }

  /** The elements of `xs` that are not separators, in order. */
  function Kept<T>(xs: seq<T>, sep: T -> bool): seq<T> {
    if xs == [] then [] else (if sep(xs[0]) then [] else [xs[0]]) + Kept(xs[1..], sep)
  }

  function Flatten<T>(runs: seq<seq<T>>): seq<T> {
    if runs == [] then [] else runs[0] + Flatten(runs[1..])
  }

  /** One run per separator, plus one. */
  lemma {:induction false} SplitOnCount<T>(xs: seq<T>, sep: T -> bool)
    ensures |SplitOn(xs, sep)| == Count(xs, sep) + 1
  {
    if xs != [] {
      SplitOnCount(xs[1..], sep);
    }
  }

  /** No run contains a separator. */
  lemma {:induction false} SplitOnRunsHaveNoSeparator<T>(xs: seq<T>, sep: T -> bool)
    ensures forall j, k :: 0 <= j < |SplitOn(xs, sep)| && 0 <= k < |SplitOn(xs, sep)[j]| ==>
      !sep(SplitOn(xs, sep)[j][k])
  {
    if xs != [] {
      SplitOnRunsHaveNoSeparator(xs[1..], sep);
      var rest := SplitOn(xs[1..], sep);
      var runs := SplitOn(xs, sep);
      if !sep(xs[0]) {
        forall j, k | 0 <= j < |runs| && 0 <= k < |runs[j]| ensures !sep(runs[j][k]) {
          if j == 0 {
            if k > 0 { assert runs[0][k] == rest[0][k - 1]; }
          } else {
            assert runs[j] == rest[j];
          }
        }
      } else {
        forall j, k | 0 <= j < |runs| && 0 <= k < |runs[j]| ensures !sep(runs[j][k]) {
          assert runs[j] == rest[j - 1];
        }
      }
    }
  }

  /** Nothing but the separators is lost, and nothing is reordered: the runs laid
      end to end are the non-separator elements in their original order. */
  lemma {:induction false} SplitOnFlatten<T>(xs: seq<T>, sep: T -> bool)
    ensures Flatten(SplitOn(xs, sep)) == Kept(xs, sep)
  {
    if xs != [] {
      SplitOnFlatten(xs[1..], sep);
      var rest := SplitOn(xs[1..], sep);
      if sep(xs[0]) {
        assert ([[]] + rest)[1..] == rest;
      } else {
        var runs := [[xs[0]] + rest[0]] + rest[1..];
        assert runs[1..] == rest[1..];
        assert Flatten(rest) == rest[0] + Flatten(rest[1..]);
        AppendAssoc([xs[0]], rest[0], Flatten(rest[1..]));
      }
    }
  }

  /** The right-hand side of SplitOnConcat: the runs `a` then `b`, with the last run
      of `a` and the first run of `b` joined. */
  function Glue<T>(a: seq<seq<T>>, b: seq<seq<T>>): seq<seq<T>>
    requires a != [] && b != []
  {
    a[..|a| - 1] + [a[|a| - 1] + b[0]] + b[1..]
  }

  /** Gluing after an extra run in front (sequence bookkeeping for SplitOnConcat). */
  lemma GlueFront<T>(h: seq<T>, c: seq<seq<T>>, b: seq<seq<T>>)
    requires c != [] && b != []
    ensures [h] + Glue(c, b) == Glue([h] + c, b)
  {
    var a := [h] + c;
    assert a[..|a| - 1] == [h] + c[..|c| - 1];
    assert a[|a| - 1] == c[|c| - 1];
  }

  /** Gluing after an element put at the front of the first run. */
  lemma GlueHead<T>(x: T, c: seq<seq<T>>, b: seq<seq<T>>)
    requires c != [] && b != []
    ensures var g := Glue(c, b);
      [[x] + g[0]] + g[1..] == Glue([[x] + c[0]] + c[1..], b)
  {
    var g := Glue(c, b);
    if |c| == 1 {
      assert c[..0] == [];
      assert g == [c[0] + b[0]] + b[1..];
      AppendAssoc([x], c[0], b[0]);
      var a := [[x] + c[0]];
      assert a[..0] == [];
    } else {
      var c' := c[1..];
      assert c[..|c| - 1] == [c[0]] + c'[..|c'| - 1];
      assert c[|c| - 1] == c'[|c'| - 1];
      assert g == [c[0]] + Glue(c', b);
      GlueFront([x] + c[0], c', b);
    }
  }

  lemma SplitOnUnfold<T>(xs: seq<T>, sep: T -> bool)
    requires xs != []
    ensures var rest := SplitOn(xs[1..], sep);
      SplitOn(xs, sep) == if sep(xs[0]) then [[]] + rest else [[xs[0]] + rest[0]] + rest[1..]
  {
  }

  /** Splitting a concatenation: the last run of the front half and the first run of
      the back half join into one run. */
  lemma {:induction false} SplitOnConcat<T>(xs: seq<T>, ys: seq<T>, sep: T -> bool)
    ensures SplitOn(xs + ys, sep) == Glue(SplitOn(xs, sep), SplitOn(ys, sep))
  {
    var a, b := SplitOn(xs, sep), SplitOn(ys, sep);
    if xs == [] {
      assert xs + ys == ys;
      assert a[..|a| - 1] == [];
      assert a[|a| - 1] + b[0] == b[0];
      ConsSplit(b);
    } else {
      var zs := xs + ys;
      assert zs[0] == xs[0] && zs[1..] == xs[1..] + ys;
      SplitOnConcat(xs[1..], ys, sep);
      SplitOnUnfold(xs, sep);
      SplitOnUnfold(zs, sep);
      var a' := SplitOn(xs[1..], sep);
      if sep(xs[0]) {
        GlueFront([], a', b);
      } else {
        GlueHead(xs[0], a', b);
      }
    }
  }

  /** Appending one element: a separator opens a new empty run, anything else
      extends the last run. */
  lemma SplitOnSnoc<T>(xs: seq<T>, x: T, sep: T -> bool, done: seq<seq<T>>, cur: seq<T>)
    requires SplitOn(xs, sep) == done + [cur]
    ensures SplitOn(xs + [x], sep) ==
      if sep(x) then done + [cur] + [[]] else done + [cur + [x]]
  {
    SplitOnConcat(xs, [x], sep);
    var a := done + [cur];
    assert a[..|a| - 1] == done;
    assert [x][1..] == [];
    assert SplitOn([], sep) == [[]];
    if sep(x) {
      assert SplitOn([x], sep) == [[]] + [[]];
      assert cur + [] == cur;
    } else {
      assert [x] + [] == [x];
      var one: seq<seq<T>> := [[]];
      assert one[1..] == [];
      assert SplitOn([x], sep) == [[x]];
    }
  }

  /** A separator cuts the sequence into two halves that split independently. */
  lemma SplitOnCut<T>(xs: seq<T>, d: T, ys: seq<T>, sep: T -> bool)
    requires sep(d)
    ensures SplitOn(xs + [d] + ys, sep) == SplitOn(xs, sep) + SplitOn(ys, sep)
  {
    var a, b := SplitOn(xs, sep), SplitOn(ys, sep);
    SplitOnSnoc(xs, d, sep, a[..|a| - 1], a[|a| - 1]);
    assert a == a[..|a| - 1] + [a[|a| - 1]];
    var a2 := SplitOn(xs + [d], sep);
    assert a2 == a + [[]];
    SplitOnConcat(xs + [d], ys, sep);
    assert a2[..|a2| - 1] == a;
    assert [] + b[0] == b[0];
    assert b == [b[0]] + b[1..];
  }

  /** A sequence without separators is a single run. */
  lemma {:induction false} SplitOnNoSeparator<T>(xs: seq<T>, sep: T -> bool)
    requires forall k :: 0 <= k < |xs| ==> !sep(xs[k])
    ensures SplitOn(xs, sep) == [xs]
  {
    if xs != [] {
      SplitOnNoSeparator(xs[1..], sep);
      assert [xs[0]] + xs[1..] == xs;
    }
  }

  // ---------------------------------------------------------------------
  // Records of a fortune file

  /** A delimiter line: its text without surrounding white space is a single `%`. */
  predicate IsDelimiter(line: string) {
    TrimSpace(line) == "%"
  }

  /** A body that `strings.TrimSpace` empties: nothing is inserted for it. */
  predicate IsBlank(body: string) {
    |TrimSpace(body)| == 0
  }

  /** A delimiter line is exactly a `%` with white space around it. */
  lemma DelimiterIsPaddedPercent(line: string)
    ensures IsDelimiter(line) <==>
      exists pre, post :: AllSpace(pre) && AllSpace(post) && line == pre + "%" + post
  {
    if IsDelimiter(line) {
      assert exists pre, post :: AllSpace(pre) && AllSpace(post) && line == pre + "%" + post by {
        TrimSpaceSplits(line);
      }
    }
    if exists pre, post :: AllSpace(pre) && AllSpace(post) && line == pre + "%" + post {
      var pre, post :| AllSpace(pre) && AllSpace(post) && line == pre + "%" + post;
      assert IsDelimiter(line) by {
        assert !IsSpace('%');
        TrimSpacePadded(pre, "%", post);
      }
    }
  }

  /** The bare `%` line is a scanned line and a delimiter. */
  lemma PercentLine()
    ensures IsDelimiter("%") && IsScannedLine("%")
  {
    assert IsDelimiter("%") by { TrimSpaceUnpadded("%"); }
  }

  /** A blank body is one made only of white space. */
  lemma BlankIsAllSpace(body: string)
    ensures IsBlank(body) <==> AllSpace(body)
  {
  }

  /** `f` of each element of `xs`, in order, leaving out the results `drop` rejects. */
  function MapDrop<T, U>(xs: seq<T>, f: T -> U, drop: U -> bool): seq<U> {
    if xs == [] then []
    else (if drop(f(xs[0])) then [] else [f(xs[0])]) + MapDrop(xs[1..], f, drop)
  }

  lemma {:induction false} MapDropConcat<T, U>(a: seq<T>, b: seq<T>, f: T -> U, drop: U -> bool)
    ensures MapDrop(a + b, f, drop) == MapDrop(a, f, drop) + MapDrop(b, f, drop)
  {
    if a != [] {
      assert (a + b)[1..] == a[1..] + b;
      MapDropConcat(a[1..], b, f, drop);
      var first := if drop(f(a[0])) then [] else [f(a[0])];
      AppendAssoc(first, MapDrop(a[1..], f, drop), MapDrop(b, f, drop));
    } else {
      assert a + b == b;
    }
  }

  lemma MapDropSingle<T, U>(x: T, f: T -> U, drop: U -> bool)
    ensures MapDrop([x], f, drop) == if drop(f(x)) then [] else [f(x)]
  {
    assert [x][1..] == [];
  }

  /** Every result kept is `f` of some element and is not dropped; there are never
      more results than elements. */
  lemma {:induction false} MapDropElements<T, U>(xs: seq<T>, f: T -> U, drop: U -> bool)
    ensures |MapDrop(xs, f, drop)| <= |xs|
    ensures forall k :: 0 <= k < |MapDrop(xs, f, drop)| ==>
      !drop(MapDrop(xs, f, drop)[k]) &&
      exists j :: 0 <= j < |xs| && MapDrop(xs, f, drop)[k] == f(xs[j])
  {
    if xs != [] {
      MapDropElements(xs[1..], f, drop);
      var m := MapDrop(xs, f, drop);
      var later := MapDrop(xs[1..], f, drop);
      var skip := if drop(f(xs[0])) then 0 else 1;
      assert m == (if drop(f(xs[0])) then [] else [f(xs[0])]) + later;
      forall k | 0 <= k < |m|
        ensures !drop(m[k]) && exists j :: 0 <= j < |xs| && m[k] == f(xs[j])
      {
        if k < skip {
          assert m[k] == f(xs[0]);
        } else {
          assert m[k] == later[k - skip];
          var j :| 0 <= j < |xs[1..]| && later[k - skip] == f(xs[1..][j]);
          assert m[k] == f(xs[j + 1]);
        }
      }
    }
  }

  /** The records ingesting `lines` inserts into the jar: the runs of lines between
      delimiter lines, each line followed by a newline, blank ones left out. */
  function Records(lines: seq<string>): seq<string> {
    MapDrop(SplitOn(lines, IsDelimiter), JoinLines, IsBlank)
  }

  /** The records ingestion makes of the text of a fortune file. */
  function IngestText(text: string): seq<string> {
    Records(ScanLines(text))
  }

  /** A run of lines none of which is a delimiter. */
  predicate NoDelimiter(g: seq<string>) {
    forall t :: 0 <= t < |g| ==> !IsDelimiter(g[t])
  }

  /** `r` is the text of one of the runs `runs`, and is a well-formed record. */
  predicate RecordOf(r: string, runs: seq<seq<string>>) {
    && !IsBlank(r) && HasSuffix(r, "\n")
    && exists j :: 0 <= j < |runs| && NoDelimiter(runs[j]) && r == JoinLines(runs[j])
  }

  /** The records of a file: each is a run of non-delimiter lines, each line followed
      by a newline; none is blank; there is at most one more than there are
      delimiter lines. */
  lemma RecordsShape(lines: seq<string>)
    ensures |Records(lines)| <= Count(lines, IsDelimiter) + 1
    ensures forall k :: 0 <= k < |Records(lines)| ==>
      RecordOf(Records(lines)[k], SplitOn(lines, IsDelimiter))
  {
    var runs := SplitOn(lines, IsDelimiter);
    var recs := Records(lines);
    SplitOnCount(lines, IsDelimiter);
    MapDropElements(runs, JoinLines, IsBlank);
    SplitOnRunsHaveNoSeparator(lines, IsDelimiter);
    forall k | 0 <= k < |recs|
      ensures RecordOf(recs[k], runs)
    {
      var j :| 0 <= j < |runs| && recs[k] == JoinLines(runs[j]);
      assert runs[j] != [];
      JoinLinesEndsInNewline(runs[j]);
      assert NoDelimiter(runs[j]);
    }
  }

  /** An empty file holds no records. */
  lemma IngestNothing()
    ensures IngestText("") == []
  {
    assert ScanLines("") == [];
    var none: seq<string> := [];
    RecordsOfRun(none);
  }

  /** Lines written out each followed by a newline, then a `%` line, are read back by
      ingestion as one record, when they are scanned lines, none of them a delimiter
      and not all blank. */
  lemma IngestRecordText(run: seq<string>, rest: string)
    requires forall k :: 0 <= k < |run| ==> IsScannedLine(run[k]) && !IsDelimiter(run[k])
    requires !AllSpace(JoinLines(run))
    ensures IngestText(JoinLines(run) + ("%" + ("\n" + rest))) == [JoinLines(run)] + IngestText(rest)
  {
    var later := ScanLines(rest);
    PercentLine();
    assert ScanLines(JoinLines(run) + ("%" + ("\n" + rest))) == run + ["%"] + later by {
      ScanJoinLines(run, "%" + ("\n" + rest));
      ScanLinesCons("%", rest);
      AppendAssoc(run, ["%"], later);
    }
    RecordsCut(run, "%", later);
    RecordsOfRun(run);
    BlankIsAllSpace(JoinLines(run));
  }

  /** A delimiter line cuts the file into two halves whose records are independent. */
  lemma RecordsCut(xs: seq<string>, d: string, ys: seq<string>)
    requires IsDelimiter(d)
    ensures Records(xs + [d] + ys) == Records(xs) + Records(ys)
  {
    SplitOnCut(xs, d, ys, IsDelimiter);
    MapDropConcat(SplitOn(xs, IsDelimiter), SplitOn(ys, IsDelimiter), JoinLines, IsBlank);
  }

  /** Lines without a delimiter form a single record, dropped when blank. */
  lemma RecordsOfRun(ys: seq<string>)
    requires forall k :: 0 <= k < |ys| ==> !IsDelimiter(ys[k])
    ensures Records(ys) == if IsBlank(JoinLines(ys)) then [] else [JoinLines(ys)]
  {
    SplitOnNoSeparator(ys, IsDelimiter);
    MapDropSingle(ys, JoinLines, IsBlank);
  }

  /** The lines after the last delimiter form a final record when they are not blank,
      and are dropped when they are. */
  lemma RecordsTrailing(xs: seq<string>, d: string, ys: seq<string>)
    requires IsDelimiter(d)
    requires forall k :: 0 <= k < |ys| ==> !IsDelimiter(ys[k])
    ensures Records(xs + [d] + ys) ==
      Records(xs) + (if IsBlank(JoinLines(ys)) then [] else [JoinLines(ys)])
  {
    RecordsCut(xs, d, ys);
    RecordsOfRun(ys);
  }

  /** Separators split a run of six elements as expected. */
  lemma SplitOnSix<T>(a: T, d: T, e: T, b: T, sep: T -> bool)
    requires sep(d) && !sep(a) && !sep(e) && !sep(b)
    ensures SplitOn([a, d, e, d, b, d], sep) == [[a], [e], [b], []]
  {
    var s1: seq<T> := [d];
    assert SplitOn(s1, sep) == [[], []] by { assert s1[1..] == []; }
    var s2: seq<T> := [b, d];
    assert SplitOn(s2, sep) == [[b], []] by {
      assert s2[1..] == s1;
      var r := SplitOn(s1, sep);
      assert [b] + r[0] == [b] && r[1..] == [[]];
    }
    var s3: seq<T> := [d, b, d];
    assert SplitOn(s3, sep) == [[], [b], []] by { assert s3[1..] == s2; }
    var s4: seq<T> := [e, d, b, d];
    assert SplitOn(s4, sep) == [[e], [b], []] by {
      assert s4[1..] == s3;
      var r := SplitOn(s3, sep);
      assert [e] + r[0] == [e] && r[1..] == [[b], []];
    }
    var s5: seq<T> := [d, e, d, b, d];
    assert SplitOn(s5, sep) == [[], [e], [b], []] by { assert s5[1..] == s4; }
    var s6: seq<T> := [a, d, e, d, b, d];
    assert s6[1..] == s5;
    var r := SplitOn(s5, sep);
    assert [a] + r[0] == [a] && r[1..] == [[e], [b], []];
  }

  lemma MapDropFour<T, U>(a: T, e: T, b: T, z: T, f: T -> U, drop: U -> bool)
    requires !drop(f(a)) && drop(f(e)) && !drop(f(b)) && drop(f(z))
    ensures MapDrop([a, e, b, z], f, drop) == [f(a), f(b)]
  {
    var m1: seq<T> := [z];
    assert MapDrop(m1, f, drop) == [] by { assert m1[1..] == []; }
    var m2: seq<T> := [b, z];
    assert MapDrop(m2, f, drop) == [f(b)] by { assert m2[1..] == m1; }
    var m3: seq<T> := [e, b, z];
    assert MapDrop(m3, f, drop) == [f(b)] by { assert m3[1..] == m2; }
    var m4: seq<T> := [a, e, b, z];
    assert m4[1..] == m3;
  }

  /** An empty line between two delimiters yields a blank record, which is dropped,
      while the lines around it each yield their own record. */
  lemma BlankRecordDropped(a: string, d: string, e: string, b: string)
    requires IsDelimiter(d) && !IsDelimiter(a) && !IsDelimiter(e) && !IsDelimiter(b)
    requires !AllSpace(a) && AllSpace(e) && !AllSpace(b)
    ensures Records([a, d, e, d, b, d]) == [a + "\n", b + "\n"]
  {
    SplitOnSix(a, d, e, b, IsDelimiter);
    var ga: seq<string> := [a];
    var ge: seq<string> := [e];
    var gb: seq<string> := [b];
    var gz: seq<string> := [];
    JoinLinesSingle(a);
    JoinLinesSingle(e);
    JoinLinesSingle(b);
    assert IsBlank(JoinLines(gz));
    MapDropFour(ga, ge, gb, gz, JoinLines, IsBlank);
  }

  /** The splitting loop of `ingestJarFile`: lines accumulate in a builder, each
      followed by a newline; a delimiter line ends the record, which is inserted
      unless blank; what remains after the last line is inserted unless blank. */
  method SplitRecords(lines: seq<string>) returns (records: seq<string>)
    ensures records == Records(lines)
    ensures |records| <= Count(lines, IsDelimiter) + 1
    ensures forall k :: 0 <= k < |records| ==> RecordOf(records[k], SplitOn(lines, IsDelimiter))
  {
    records := [];
    var sb := "";
    ghost var done: seq<seq<string>> := [];
    ghost var cur: seq<string> := [];
    for i := 0 to |lines|
      invariant SplitOn(lines[..i], IsDelimiter) == done + [cur]
      invariant sb == JoinLines(cur)
      invariant records == MapDrop(done, JoinLines, IsBlank)
    {
      var line := lines[i];
      PrefixSnoc(lines, i);
      SplitOnSnoc(lines[..i], line, IsDelimiter, done, cur);
      if TrimSpace(line) == "%" {
        var body := sb;
        sb := "";
        MapDropConcat(done, [cur], JoinLines, IsBlank);
        MapDropSingle(cur, JoinLines, IsBlank);
        done, cur := done + [cur], [];
        if |TrimSpace(body)| != 0 {
          records := records + [body];
        }
      } else {
        JoinLinesAppend(cur, line);
        sb := sb + line + "\n";
        cur := cur + [line];
      }
    }
    var body := sb;
    MapDropConcat(done, [cur], JoinLines, IsBlank);
    MapDropSingle(cur, JoinLines, IsBlank);
    if |TrimSpace(body)| > 0 {
      records := records + [body];
    }
    PrefixAll(lines);
    RecordsShape(lines);
  }
}
