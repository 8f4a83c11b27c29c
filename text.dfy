/**
 * The few Go standard-library string operations the fortune tool relies on,
 * modelled on Unicode code points (`string` is `seq<char>`):
 * `unicode.IsSpace` / `strings.TrimSpace`, `strings.HasPrefix` / `HasSuffix`,
 * `bufio.ScanLines`, `filepath.Base` (with the Unix separator `/`) and
 * `strings.Split(s, ".")[0]`.
 */
module Text {
  import opened Seqs

  /** The characters Go's `unicode.IsSpace` reports as white space. */
  predicate IsSpace(c: char) {
    || c == ' ' || c == '\t' || c == '\n' || c == '\r'
    || c == '\U{000B}' || c == '\U{000C}' || c == '\U{0085}' || c == '\U{00A0}'
    || c == '\U{1680}' || ('\U{2000}' <= c <= '\U{200A}')
    || c == '\U{2028}' || c == '\U{2029}' || c == '\U{202F}' || c == '\U{205F}'
    || c == '\U{3000}'
  }

  predicate AllSpace(s: string) {
    forall i :: 0 <= i < |s| ==> IsSpace(s[i])
  }

  predicate HasPrefix(s: string, p: string) {
    |p| <= |s| && s[..|p|] == p
  }

  predicate HasSuffix(s: string, p: string) {
    |p| <= |s| && s[|s| - |p|..] == p
  }

  /** Drops the white space at the front: what is left is a suffix of `s`. */
  function TrimLeft(s: string): (r: string)
    ensures |r| <= |s| && r == s[|s| - |r|..]
    ensures r == [] || !IsSpace(r[0])
    ensures forall i :: 0 <= i < |s| - |r| ==> IsSpace(s[i])
  {
    if s != [] && IsSpace(s[0]) then TrimLeft(s[1..]) else s
  }

  /** Drops the white space at the back: what is left is a prefix of `s`. */
  function TrimRight(s: string): (r: string)
    ensures |r| <= |s| && r == s[..|r|]
    ensures r == [] || !IsSpace(r[|r| - 1])
    ensures forall i :: |r| <= i < |s| ==> IsSpace(s[i])
  {
    if s != [] && IsSpace(s[|s| - 1]) then TrimRight(s[..|s| - 1]) else s
  }

  /** `strings.TrimSpace`: the text of `s` between its leading and trailing white space. */
  function TrimSpace(s: string): (r: string)
    ensures |r| <= |s|
    ensures r == [] || (!IsSpace(r[0]) && !IsSpace(r[|r| - 1]))
    ensures r == [] <==> AllSpace(s)
  {
    var t := TrimLeft(s);
    var r := TrimRight(t);
    assert r != [] ==> r[0] == t[0];
    assert r == [] ==> t == [];
    r
  }

  lemma {:induction false} TrimLeftPadded(pad: string, u: string)
    requires AllSpace(pad)
    requires u == [] || !IsSpace(u[0])
    ensures TrimLeft(pad + u) == u
  {
    if pad != [] {
      assert (pad + u)[1..] == pad[1..] + u;
      TrimLeftPadded(pad[1..], u);
    } else {
      assert pad + u == u;
    }
  }

  lemma {:induction false} TrimRightPadded(u: string, pad: string)
    requires AllSpace(pad)
    requires u == [] || !IsSpace(u[|u| - 1])
    ensures TrimRight(u + pad) == u
  {
    if pad != [] {
      assert (u + pad)[..|u + pad| - 1] == u + pad[..|pad| - 1];
      TrimRightPadded(u, pad[..|pad| - 1]);
    } else {
      assert u + pad == u;
    }
  }

  /** Trimming `t` padded on both sides with white space gives back `t`. */
  lemma TrimSpacePadded(pre: string, t: string, post: string)
    requires AllSpace(pre) && AllSpace(post)
    requires t == [] || (!IsSpace(t[0]) && !IsSpace(t[|t| - 1]))
    ensures TrimSpace(pre + t + post) == t
  {
    if t == [] {
      assert pre + t + post == pre + post;
      assert AllSpace(pre + post);
    } else {
      assert pre + t + post == pre + (t + post);
      TrimLeftPadded(pre, t + post);
      TrimRightPadded(t, post);
    }
  }

  lemma AllSpaceSuffix(a: string, b: string)
    requires AllSpace(a + b)
    ensures AllSpace(b)
  {
    assert forall i :: 0 <= i < |b| ==> b[i] == (a + b)[|a| + i];
  }

  /** A string with no white space at either end is its own trimmed text. */
  lemma TrimSpaceUnpadded(t: string)
    requires t == [] || (!IsSpace(t[0]) && !IsSpace(t[|t| - 1]))
    ensures TrimSpace(t) == t
  {
    var empty: string := [];
    TrimSpacePadded(empty, t, empty);
    assert empty + t + empty == t;
  }

  /** Every string is its trimmed text padded with white space. */
  lemma TrimSpaceSplits(s: string)
    ensures exists pre, post :: AllSpace(pre) && AllSpace(post) && s == pre + TrimSpace(s) + post
  {
    var l := TrimLeft(s);
    var r := TrimRight(l);
    var pre := s[..|s| - |l|];
    var post := l[|r|..];
    assert AllSpace(pre) by {
      forall i | 0 <= i < |pre| ensures IsSpace(pre[i]) {
        assert pre[i] == s[i];
      }
    }
    assert AllSpace(post) by {
      forall i | 0 <= i < |post| ensures IsSpace(post[i]) {
        assert post[i] == l[|r| + i];
      }
    }
    assert s == pre + r + post by {
      SplitAt(l, |r|);
      SplitAt(s, |s| - |l|);
      AppendAssoc(pre, r, post);
    }
    assert TrimSpace(s) == r;
  }

  /** Each line followed by a newline, in order: the text a `strings.Builder` holds
      after `WriteString(line); WriteString("\n")` for every line of `g`. */
  function JoinLines(g: seq<string>): string {
    if g == [] then [] else g[0] + "\n" + JoinLines(g[1..])
  }

  lemma {:induction false} JoinLinesAppend(g: seq<string>, l: string)
    ensures JoinLines(g + [l]) == JoinLines(g) + l + "\n"
  {
    if g != [] {
      assert (g + [l])[1..] == g[1..] + [l];
      JoinLinesAppend(g[1..], l);
    } else {
      assert [l][1..] == [];
    }
  }

  lemma {:induction false} JoinLinesConcat(g: seq<string>, h: seq<string>)
    ensures JoinLines(g + h) == JoinLines(g) + JoinLines(h)
  {
    if g != [] {
      assert (g + h)[1..] == g[1..] + h;
      JoinLinesConcat(g[1..], h);
    } else {
      assert g + h == h;
    }
  }

  /** The joined text ends in a newline unless there were no lines at all. */
  lemma {:induction false} JoinLinesEndsInNewline(g: seq<string>)
    requires g != []
    ensures HasSuffix(JoinLines(g), "\n")
  {
    if |g| > 1 {
      JoinLinesEndsInNewline(g[1..]);
    }
  }

  lemma JoinLinesSingle(l: string)
    ensures JoinLines([l]) == l + "\n"
    ensures AllSpace(l + "\n") <==> AllSpace(l)
  {
    var g: seq<string> := [l];
    assert g[1..] == [];
    assert (l + "\n")[|l|] == '\n';
    assert forall i :: 0 <= i < |l| ==> (l + "\n")[i] == l[i];
  }

  /** The joined text is blank exactly when every line is. */
  lemma {:induction false} JoinLinesBlank(g: seq<string>)
    ensures AllSpace(JoinLines(g)) <==> forall k :: 0 <= k < |g| ==> AllSpace(g[k])
  {
    if g != [] {
      JoinLinesBlank(g[1..]);
      var j := JoinLines(g);
      var rest := JoinLines(g[1..]);
      assert j == g[0] + "\n" + rest;
      if AllSpace(j) {
        assert AllSpace(g[0]) by {
          forall i | 0 <= i < |g[0]| ensures IsSpace(g[0][i]) { assert g[0][i] == j[i]; }
        }
        assert AllSpace(rest) by {
          forall i | 0 <= i < |rest| ensures IsSpace(rest[i]) { assert rest[i] == j[|g[0]| + 1 + i]; }
        }
        forall k | 0 <= k < |g| ensures AllSpace(g[k]) {
          if k > 0 { assert g[k] == g[1..][k - 1]; }
        }
      }
      if forall k :: 0 <= k < |g| ==> AllSpace(g[k]) {
        forall k | 0 <= k < |g[1..]| ensures AllSpace(g[1..][k]) { assert g[1..][k] == g[k + 1]; }
        assert AllSpace(g[0]);
        forall i | 0 <= i < |j| ensures IsSpace(j[i]) {
          if i < |g[0]| {
            assert j[i] == g[0][i];
          } else if i > |g[0]| {
            assert j[i] == rest[i - |g[0]| - 1];
          }
        }
      }
    }
  }

  /** Index of the first newline of `s`, or `|s|` when it has none. */
  function FirstNewline(s: string): (i: nat)
    ensures i <= |s|
    ensures i < |s| ==> s[i] == '\n'
    ensures forall j :: 0 <= j < i ==> s[j] != '\n'
  {
    if s == [] || s[0] == '\n' then 0 else 1 + FirstNewline(s[1..])
  }

  /** `bufio.ScanLines` drops one carriage return at the end of a line. */
  function DropCR(line: string): string {
    if line != [] && line[|line| - 1] == '\r' then line[..|line| - 1] else line
  }

  /** The lines `bufio.Scanner` with `ScanLines` yields from `text`: split at each
      newline, one trailing carriage return dropped from each, and no empty last
      line after a final newline. */
  function ScanLines(text: string): (lines: seq<string>)
    ensures forall k :: 0 <= k < |lines| ==> '\n' !in lines[k]
    decreases |text|
  {
    if text == [] then []
    else
      var i := FirstNewline(text);
      var line := DropCR(text[..i]);
      assert forall j :: 0 <= j < |line| ==> line[j] == text[j];
      [line] + (if i < |text| then ScanLines(text[i + 1..]) else [])
  }

  /** A line as the scanner hands it out: no newline, no trailing carriage return. */
  predicate IsScannedLine(line: string) {
    '\n' !in line && DropCR(line) == line
  }

  lemma ScanLinesCons(line: string, tail: string)
    requires IsScannedLine(line)
    ensures ScanLines(line + ("\n" + tail)) == [line] + ScanLines(tail)
  {
    var text := line + ("\n" + tail);
    assert text[|line|] == '\n';
    assert forall j :: 0 <= j < |line| ==> text[j] == line[j];
    assert FirstNewline(text) == |line|;
    assert text[..|line|] == line;
    assert text[|line| + 1..] == tail;
  }

  /** A line ended by a carriage return and a newline is yielded without the carriage
      return, and scanning continues after the newline. */
  lemma ScanLinesCRLF(line: string, tail: string)
    requires IsScannedLine(line)
    ensures ScanLines(line + ("\r\n" + tail)) == [line] + ScanLines(tail)
  {
    var text := line + ("\r\n" + tail);
    assert text[|line|] == '\r' && text[|line| + 1] == '\n';
    assert forall j :: 0 <= j < |line| ==> text[j] == line[j];
    assert FirstNewline(text) == |line| + 1;
    assert text[..|line| + 1] == line + "\r";
    assert DropCR(line + "\r") == line;
    assert text[|line| + 2..] == tail;
  }

  /** Writing lines out with newlines and scanning them back gives the same lines. */
  lemma {:induction false} ScanJoinLines(g: seq<string>, rest: string)
    requires forall k :: 0 <= k < |g| ==> IsScannedLine(g[k])
    ensures ScanLines(JoinLines(g) + rest) == g + ScanLines(rest)
  {
    if g == [] {
      assert JoinLines(g) + rest == rest;
    } else {
      var tail := JoinLines(g[1..]) + rest;
      var later := ScanLines(rest);
      assert JoinLines(g) + rest == g[0] + ("\n" + tail);
      assert ScanLines(tail) == g[1..] + later by {
        assert forall k :: 0 <= k < |g[1..]| ==> g[1..][k] == g[k + 1];
        ScanJoinLines(g[1..], rest);
      }
      ScanLinesCons(g[0], tail);
      ConsAppend(g, later);
    }
  }

  /** `filepath.Base` with trailing separators removed first. */
  function StripTrailingSlashes(p: string): (r: string)
    ensures |r| <= |p| && r == p[..|r|]
    ensures r == [] || r[|r| - 1] != '/'
    ensures forall i :: |r| <= i < |p| ==> p[i] == '/'
  {
    if p != [] && p[|p| - 1] == '/' then StripTrailingSlashes(p[..|p| - 1]) else p
  }

  /** The text after the last separator of `p` (all of it when there is none). */
  function LastElement(p: string): (r: string)
    ensures |r| <= |p| && r == p[|p| - |r|..]
    ensures '/' !in r
    ensures |r| < |p| ==> p[|p| - |r| - 1] == '/'
  {
    if p == [] || p[|p| - 1] == '/' then [] else LastElement(p[..|p| - 1]) + [p[|p| - 1]]
  }

  /** `filepath.Base` on Unix: the last element of a path, "." for the empty path
      and "/" for a path made only of separators. */
  function Base(path: string): (r: string)
    ensures r != []
    ensures r == "/" || '/' !in r
  {
    if path == [] then "."
    else
      var e := LastElement(StripTrailingSlashes(path));
      if e == [] then "/" else e
  }

  /** After a separator (or at the start), the last element is the rest of the path. */
  lemma {:induction false} LastElementAfterSlash(dir: string, name: string)
    requires dir == [] || dir[|dir| - 1] == '/'
    requires '/' !in name
    ensures LastElement(dir + name) == name
  {
    if name == [] {
      assert dir + name == dir;
    } else {
      var p := dir + name;
      var front := name[..|name| - 1];
      var c := name[|name| - 1];
      assert name == front + [c];
      assert p == (dir + front) + [c];
      assert '/' !in front by { assert forall x :: x in front ==> x in name; }
      LastElementAfterSlash(dir, front);
      assert p[..|p| - 1] == dir + front;
    }
  }

  /** The base name of `dir` followed by a separator-free, non-empty `name` is `name`. */
  lemma BaseOfFileInDir(dir: string, name: string)
    requires dir == [] || dir[|dir| - 1] == '/'
    requires name != [] && '/' !in name
    ensures Base(dir + name) == name
  {
    var p := dir + name;
    assert p[|p| - 1] == name[|name| - 1];
    assert StripTrailingSlashes(p) == p;
    LastElementAfterSlash(dir, name);
  }

  /** `strings.Split(s, ".")[0]`: the text of `s` before its first dot. */
  function BeforeFirstDot(s: string): (r: string)
    ensures |r| <= |s| && r == s[..|r|]
    ensures '.' !in r
    ensures |r| < |s| ==> s[|r|] == '.'
  {
    if s == [] || s[0] == '.' then [] else [s[0]] + BeforeFirstDot(s[1..])
  }
}
