/**
 * The search output of `printAllFortunes` in main.go: every record of a jar that
 * the search pattern matches is written out, optionally under a `(jar)` header
 * line, and followed by a `%` line.  The regular expression (with its `-i`
 * case folding) is the opaque predicate `matches`, and the records of the jar
 * are passed in as `bodies`.
 */
module Search {
  import opened Text
  import opened Ingest
  import opened Seqs

  /** A switch as Go's map index reads it: the empty string when it is absent. */
  function SwitchValue(switches: map<string, string>, k: string): string {
    if k in switches then switches[k] else ""
  }

  /** The `(jar)` header line written under `-c`. */
  function Header(jar: string, showJar: bool): string {
    if showJar then "(" + jar + ")\n" else ""
  }

  /** What is written for one matching record: the header, the record unchanged, a
      newline only when the record does not already end in one, and the `%` line. */
  function FormatMatch(jar: string, body: string, showJar: bool): (out: string)
    ensures |out| == |Header(jar, showJar)| + |body| + if HasSuffix(body, "\n") then 2 else 3
    ensures HasPrefix(out, Header(jar, showJar))
    ensures out[|Header(jar, showJar)|..|Header(jar, showJar)| + |body|] == body
    ensures HasSuffix(out, "\n%\n")
  {
    var h := Header(jar, showJar);
    var nl := if HasSuffix(body, "\n") then "" else "\n";
    var pct := "%\n";
    var out := h + body + nl + pct;
    Parts(h, body, nl, pct);
    assert (body + nl)[|body + nl| - 1] == '\n' by {
      if nl == "" {
        assert body + nl == body;
      }
    }
    SuffixCons(out, '\n', pct);
    out
  }

  /** What is written for one record: its formatted text when it matches, nothing otherwise. */
  function Piece(jar: string, body: string, matches: string -> bool, showJar: bool): string {
    if matches(body) then FormatMatch(jar, body, showJar) else ""
  }

  /** Everything written for the records `bodies`, in order. */
  function Output(jar: string, bodies: seq<string>, matches: string -> bool, showJar: bool): string {
    if bodies == [] then ""
    else Piece(jar, bodies[0], matches, showJar) + Output(jar, bodies[1..], matches, showJar)
  }

  lemma {:induction false} OutputSnoc(jar: string, bodies: seq<string>, body: string,
                                      matches: string -> bool, showJar: bool)
    ensures Output(jar, bodies + [body], matches, showJar) ==
      Output(jar, bodies, matches, showJar) + Piece(jar, body, matches, showJar)
  {
    var piece := Piece(jar, body, matches, showJar);
    if bodies == [] {
      var one := [body];
      assert bodies + [body] == one && one[1..] == [];
    } else {
      assert (bodies + [body])[1..] == bodies[1..] + [body];
      OutputSnoc(jar, bodies[1..], body, matches, showJar);
      AppendAssoc(Piece(jar, bodies[0], matches, showJar), Output(jar, bodies[1..], matches, showJar), piece);
    }
  }

  /** The loop of `printAllFortunes` over the rows of the jar's table; `-c` turns the
      header on. */
  method PrintAllFortunes(jar: string, bodies: seq<string>, matches: string -> bool,
                          switches: map<string, string>)
    returns (out: string)
    ensures out == Output(jar, bodies, matches, SwitchValue(switches, "c") != "")
  {
    var showJar := SwitchValue(switches, "c") != "";
    out := "";
    for i := 0 to |bodies|
      invariant out == Output(jar, bodies[..i], matches, showJar)
    {
      var body := bodies[i];
      PrefixSnoc(bodies, i);
      OutputSnoc(jar, bodies[..i], body, matches, showJar);
      if !matches(body) {
        assert Piece(jar, body, matches, showJar) == "";
        continue;
      }
      ghost var before := out;
      ghost var h := Header(jar, showJar);
      if showJar {
        out := out + ("(" + jar + ")\n");
      }
      assert out == before + h;
      out := out + body;
      ghost var nl := if HasSuffix(body, "\n") then "" else "\n";
      if !HasSuffix(body, "\n") {
        out := out + "\n";
      }
      assert out == before + h + body + nl;
      out := out + "%\n";
      Assoc4(before, h, body, nl, "%\n");
    }
    PrefixAll(bodies);
  }

  // ---------------------------------------------------------------------------
  // Feeding the search output back to the ingestion gives back the records.

  /** A record as ingestion stores it: scanned lines, none a delimiter, each followed
      by a newline, and not blank. */
  ghost predicate IsStoredRecord(body: string) {
    && !AllSpace(body)
    && exists g: seq<string> :: (&& body == JoinLines(g)
                                 && forall k :: 0 <= k < |g| ==> IsScannedLine(g[k]) && !IsDelimiter(g[k]))
  }

  /** The records ingestion makes of the search output: each matching record under
      its header. */
  function Reingested(jar: string, bodies: seq<string>, matches: string -> bool, showJar: bool)
    : seq<string>
  {
    if bodies == [] then []
    else (if matches(bodies[0]) then [Header(jar, showJar) + bodies[0]] else [])
         + Reingested(jar, bodies[1..], matches, showJar)
  }

  /** The header, as the lines it consists of. */
  function HeaderLines(jar: string, showJar: bool): (h: seq<string>)
    ensures JoinLines(h) == Header(jar, showJar)
  {
    if showJar then
      var line := "(" + jar + ")";
      assert [line][1..] == [];
      [line]
    else []
  }

  lemma HeaderLinesScanned(jar: string, showJar: bool)
    requires '\n' !in jar
    ensures forall k :: 0 <= k < |HeaderLines(jar, showJar)| ==>
      IsScannedLine(HeaderLines(jar, showJar)[k]) && !IsDelimiter(HeaderLines(jar, showJar)[k])
  {
    if showJar {
      var line := "(" + jar + ")";
      Bracketed('(', jar, ')', '\n');
      TrimSpaceUnpadded(line);
      assert |line| >= 2;
    }
  }

  lemma FormatMatchEndedBody(jar: string, body: string, showJar: bool)
    requires HasSuffix(body, "\n")
    ensures FormatMatch(jar, body, showJar) == Header(jar, showJar) + body + "%\n"
  {
    var empty: string := "";
    assert Header(jar, showJar) + body + empty == Header(jar, showJar) + body;
  }

  /** Scanned, non-delimiter lines stay so when two runs of them are put together. */
  lemma RecordLinesConcat(h: seq<string>, g: seq<string>)
    requires forall k :: 0 <= k < |h| ==> IsScannedLine(h[k]) && !IsDelimiter(h[k])
    requires forall k :: 0 <= k < |g| ==> IsScannedLine(g[k]) && !IsDelimiter(g[k])
    ensures forall k :: 0 <= k < |h + g| ==> IsScannedLine((h + g)[k]) && !IsDelimiter((h + g)[k])
  {
    forall k | 0 <= k < |h + g| ensures IsScannedLine((h + g)[k]) && !IsDelimiter((h + g)[k]) {
      if k >= |h| { assert (h + g)[k] == g[k - |h|]; }
    }
  }

  /** A stored record under its header is again the text of some lines, none of
      them a delimiter, and it is not blank. */
  lemma StoredUnderHeader(jar: string, body: string, showJar: bool) returns (run: seq<string>)
    requires IsStoredRecord(body)
    requires '\n' !in jar
    ensures JoinLines(run) == Header(jar, showJar) + body
    ensures forall k :: 0 <= k < |run| ==> IsScannedLine(run[k]) && !IsDelimiter(run[k])
    ensures !AllSpace(JoinLines(run))
    ensures HasSuffix(body, "\n")
  {
    var g: seq<string> :| body == JoinLines(g) &&
      forall k :: 0 <= k < |g| ==> IsScannedLine(g[k]) && !IsDelimiter(g[k]);
    var h := HeaderLines(jar, showJar);
    run := h + g;
    HeaderLinesScanned(jar, showJar);
    RecordLinesConcat(h, g);
    assert JoinLines(run) == Header(jar, showJar) + body by { JoinLinesConcat(h, g); }
    assert !AllSpace(JoinLines(run)) by {
      if AllSpace(JoinLines(run)) { AllSpaceSuffix(Header(jar, showJar), body); }
    }
    assert HasSuffix(body, "\n") by {
      assert g != [] by { assert |body| > 0; }
      JoinLinesEndsInNewline(g);
    }
  }

  /** One formatted matching record, scanned and split again, is that record under
      its header, followed by whatever comes after it. */
  lemma IngestPiece(jar: string, body: string, showJar: bool, rest: string)
    requires IsStoredRecord(body)
    requires '\n' !in jar
    ensures IngestText(FormatMatch(jar, body, showJar) + rest) ==
      [Header(jar, showJar) + body] + IngestText(rest)
  {
    var run := StoredUnderHeader(jar, body, showJar);
    assert FormatMatch(jar, body, showJar) + rest == JoinLines(run) + ("%" + ("\n" + rest)) by {
      FormatMatchEndedBody(jar, body, showJar);
      PercentNewline();
      Assoc3(Header(jar, showJar), body, "%", "\n", rest);
    }
    IngestRecordText(run, rest);
  }

  /** Ingesting the search output of a jar gives back exactly the matching records,
      in order, each under its header when `-c` was given. */
  lemma {:induction false} ReingestOutput(jar: string, bodies: seq<string>, matches: string -> bool,
                                          showJar: bool)
    requires forall k :: 0 <= k < |bodies| ==> IsStoredRecord(bodies[k])
    requires '\n' !in jar
    ensures IngestText(Output(jar, bodies, matches, showJar)) == Reingested(jar, bodies, matches, showJar)
  {
    if bodies == [] {
      IngestNothing();
    } else {
      var rest := Output(jar, bodies[1..], matches, showJar);
      assert IngestText(rest) == Reingested(jar, bodies[1..], matches, showJar) by {
        forall k | 0 <= k < |bodies[1..]| ensures IsStoredRecord(bodies[1..][k]) {
          assert bodies[1..][k] == bodies[k + 1];
        }
        ReingestOutput(jar, bodies[1..], matches, showJar);
      }
      var out := Output(jar, bodies, matches, showJar);
      var back := Reingested(jar, bodies, matches, showJar);
      if matches(bodies[0]) {
        var piece := FormatMatch(jar, bodies[0], showJar);
        assert out == piece + rest;
        assert back == [Header(jar, showJar) + bodies[0]] + Reingested(jar, bodies[1..], matches, showJar);
        IngestPiece(jar, bodies[0], showJar, rest);
      } else {
        assert out == rest;
        assert back == Reingested(jar, bodies[1..], matches, showJar);
      }
    }
  }
}
