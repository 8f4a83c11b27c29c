/**
 * The command-line switch parser `parseArgs` of main.go: a single left-to-right
 * pass over the arguments that fills a switch map and an ordered parameter list.
 *
 * `Step` is one iteration of the pass and `Parse` the whole pass; the method
 * `ParseArgs` is the loop itself.  Independently of the pass, `Params`,
 * `KeyPending` and `LastWrite` say declaratively which argument plays which
 * role, and `ParseSpec` proves that the pass computes exactly that.
 */
module Args {
  import opened Text
  import opened Seqs
  import opened Wrappers

  /** Single-letter switches that take no value (`-c`, `-e`, `-f`, `-i`, also clustered). */
  const StandaloneSwitches: seq<string> := ["c", "e", "f", "i"]
  /** Switches whose value is the next plain argument (`-F value`). */
  const DefinitionSwitches: seq<string> := ["F"]

  function ListContains(ss: seq<string>, v: string): (r: bool)
    ensures r <==> v in ss
  {
    if ss == [] then false else v == ss[0] || ListContains(ss[1..], v)
  }

  /** The value a map holds for `k`, if any. */
  function Lookup(m: map<string, string>, k: string): Option<string> {
    if k in m then Some(m[k]) else None
  }

  /** An argument that starts with two dashes: the end marker `--` or a long switch. */
  predicate IsLong(a: string) {
    HasPrefix(a, "--")
  }

  /** An argument that starts with exactly one dash: a cluster of short switches,
      a definition switch, or a lone `-`. */
  predicate IsShort(a: string) {
    HasPrefix(a, "-") && !HasPrefix(a, "--")
  }

  /** An argument that does not start with a dash. */
  predicate IsPlain(a: string) {
    !HasPrefix(a, "-")
  }

  /** The state of the pass: the switches and parameters so far, whether `--` has
      been seen, and the definition switch waiting for its value (empty if none). */
  datatype Parser = Parser(switches: map<string, string>, parms: seq<string>,
                           noMoreSwitches: bool, curKey: string)

  const Start := Parser(map[], [], false, "")

  /** The short switches of one cluster, marked in order. */
  function Cluster(sw: map<string, string>, cs: string): map<string, string>
    decreases |cs|
  {
    if cs == [] then sw
    else
      var m := Cluster(sw, cs[..|cs| - 1]);
      var sch := [cs[|cs| - 1]];
      if ListContains(StandaloneSwitches, sch) then m[sch := "y"] else m
  }

  /** A cluster marks exactly the standalone switches whose letter it contains,
      and leaves every other entry as it was. */
  lemma {:induction false} ClusterLookup(sw: map<string, string>, cs: string, k: string)
    ensures Lookup(Cluster(sw, cs), k) ==
      if k in StandaloneSwitches && k[0] in cs then Some("y") else Lookup(sw, k)
    decreases |cs|
  {
    if cs != [] {
      var init := cs[..|cs| - 1];
      ClusterLookup(sw, init, k);
      assert cs == init + [cs[|cs| - 1]];
      assert k in StandaloneSwitches ==> (k[0] in cs <==> k[0] in init || k == [cs[|cs| - 1]]);
    }
  }

  /** One iteration of the loop in `parseArgs`. */
  function Step(p: Parser, arg: string): Parser {
    if p.noMoreSwitches then p.(parms := p.parms + [arg])
    else if arg == "--" then p.(noMoreSwitches := true)
    else if HasPrefix(arg, "--") then p.(switches := p.switches[arg[2..] := "y"], curKey := "")
    else if HasPrefix(arg, "-") then
      if ListContains(DefinitionSwitches, arg[1..]) then p.(curKey := arg[1..])
      else p.(switches := Cluster(p.switches, arg[1..]))
    else if p.curKey != "" then p.(switches := p.switches[p.curKey := arg], curKey := "")
    else p.(parms := p.parms + [arg])
  }

  /** The state after the first `n` arguments. */
  function RunTo(args: seq<string>, n: nat): Parser
    requires n <= |args|
  {
    if n == 0 then Start else Step(RunTo(args, n - 1), args[n - 1])
  }

  function Parse(args: seq<string>): Parser {
    RunTo(args, |args|)
  }

  /** The loop of `parseArgs`, with the cluster loop over the letters of a short argument. */
  method ParseArgs(args: seq<string>) returns (switches: map<string, string>, parms: seq<string>)
    ensures switches == Parse(args).switches && parms == Parse(args).parms
    ensures parms == Params(args, SwitchEnd(args)) + AfterEnd(args)
    ensures forall k :: Lookup(switches, k) == LastWrite(args, SwitchEnd(args), k)
  {
    switches := map[];
    parms := [];
    var noMoreSwitches := false;
    var curKey := "";
    for i := 0 to |args|
      invariant Parser(switches, parms, noMoreSwitches, curKey) == RunTo(args, i)
    {
      var arg := args[i];
      if noMoreSwitches {
        parms := parms + [arg];
      } else if arg == "--" {
        noMoreSwitches := true;
      } else if HasPrefix(arg, "--") {
        switches := switches[arg[2..] := "y"];
        curKey := "";
      } else if HasPrefix(arg, "-") {
        if ListContains(DefinitionSwitches, arg[1..]) {
          curKey := arg[1..];
        } else {
          var letters := arg[1..];
          ghost var before := switches;
          for j := 0 to |letters|
            invariant switches == Cluster(before, letters[..j])
          {
            PrefixSnoc(letters, j);
            var sch := [letters[j]];
            if ListContains(StandaloneSwitches, sch) {
              switches := switches[sch := "y"];
            }
          }
          PrefixAll(letters);
        }
      } else if curKey != "" {
        switches := switches[curKey := arg];
        curKey := "";
      } else {
        parms := parms + [arg];
      }
    }
    ParseSpec(args);
  }

  // ---------------------------------------------------------------------------
  // The declarative reading of the argument list.

  /** The position of the first `--`, or the length of the list if there is none. */
  function SwitchEnd(args: seq<string>): (e: nat)
    ensures e <= |args|
    ensures e < |args| ==> args[e] == "--"
    ensures forall j :: 0 <= j < e ==> args[j] != "--"
  {
    if args == [] || args[0] == "--" then 0 else 1 + SwitchEnd(args[1..])
  }

  /** The arguments after the first `--`, which are all parameters. */
  function AfterEnd(args: seq<string>): seq<string> {
    if SwitchEnd(args) < |args| then args[SwitchEnd(args) + 1..] else []
  }

  /** Before argument `j`, a `-F` is waiting for its value: it came earlier and only
      short-switch arguments stand between it and `j`. */
  predicate KeyPending(args: seq<string>, j: nat)
    requires j <= |args|
  {
    exists i :: 0 <= i < j && args[i] == "-F" && forall t :: i < t < j ==> IsShort(args[t])
  }

  /** Argument `j` is a parameter: a plain argument that is not the value of a `-F`. */
  predicate IsParameter(args: seq<string>, j: nat)
    requires j < |args|
  {
    IsPlain(args[j]) && !KeyPending(args, j)
  }

  /** The parameters among the first `n` arguments, in their original order. */
  function Params(args: seq<string>, n: nat): seq<string>
    requires n <= |args|
  {
    if n == 0 then []
    else Params(args, n - 1) + (if IsParameter(args, n - 1) then [args[n - 1]] else [])
  }

  /** The value argument `i` writes to switch `k`, if it writes one: a long switch
      writes "y" to its name, a cluster "y" to each standalone letter it holds, and
      the value of a `-F` is written to `F`. */
  function WriteOf(args: seq<string>, i: nat, k: string): Option<string>
    requires i < |args|
  {
    var a := args[i];
    if IsLong(a) then (if a[2..] == k then Some("y") else None)
    else if IsShort(a) then
      (if a != "-F" && k in StandaloneSwitches && k[0] in a[1..] then Some("y") else None)
    else if KeyPending(args, i) && k == "F" then Some(a)
    else None
  }

  /** The value of the last write to `k` among the first `n` arguments. */
  function LastWrite(args: seq<string>, n: nat, k: string): Option<string>
    requires n <= |args|
  {
    if n == 0 then None
    else if WriteOf(args, n - 1, k).Some? then WriteOf(args, n - 1, k)
    else LastWrite(args, n - 1, k)
  }

  /** Whether a `-F` is waiting after argument `j` follows from the argument itself:
      `-F` starts the wait, other short arguments keep it as it is, anything else ends it. */
  lemma KeyPendingStep(args: seq<string>, j: nat)
    requires j < |args|
    ensures args[j] == "-F" ==> KeyPending(args, j + 1)
    ensures IsShort(args[j]) && args[j] != "-F" ==> (KeyPending(args, j + 1) <==> KeyPending(args, j))
    ensures KeyPending(args, j + 1) ==> IsShort(args[j])
  {
    assert IsShort("-F") by {
      var flag := "-F";
      assert flag[..1] == "-" && flag[1] != '-';
    }
    if IsShort(args[j]) && args[j] != "-F" {
      if KeyPending(args, j) {
        var i :| 0 <= i < j && args[i] == "-F" && forall t :: i < t < j ==> IsShort(args[t]);
        assert forall t :: i < t < j + 1 ==> IsShort(args[t]);
      }
      if KeyPending(args, j + 1) {
        var i :| 0 <= i < j + 1 && args[i] == "-F" && forall t :: i < t < j + 1 ==> IsShort(args[t]);
        assert i < j;
      }
    }
    if KeyPending(args, j + 1) {
      var i :| 0 <= i < j + 1 && args[i] == "-F" && forall t :: i < t < j + 1 ==> IsShort(args[t]);
      if i < j {
        assert IsShort(args[j]);
      }
    }
  }

  /** The state of the pass before the first `--`, as the declarative reading gives it. */
  ghost predicate Agrees(p: Parser, args: seq<string>, n: nat)
    requires n <= |args|
  {
    && !p.noMoreSwitches
    && p.parms == Params(args, n)
    && p.curKey == (if KeyPending(args, n) then "F" else "")
    && forall k :: Lookup(p.switches, k) == LastWrite(args, n, k)
  }

  lemma StepAgrees(args: seq<string>, n: nat)
    requires n < SwitchEnd(args)
    requires Agrees(RunTo(args, n), args, n)
    ensures Agrees(RunTo(args, n + 1), args, n + 1)
  {
    var p := RunTo(args, n);
    var a := args[n];
    var q := RunTo(args, n + 1);
    assert q == Step(p, a);
    KeyPendingStep(args, n);
    assert a != "--";
    if HasPrefix(a, "--") {
      assert a[..1] == a[..2][..1];
      assert !IsParameter(args, n);
      assert q.switches == p.switches[a[2..] := "y"];
      forall k ensures Lookup(q.switches, k) == LastWrite(args, n + 1, k) {
      }
    } else if HasPrefix(a, "-") {
      if ListContains(DefinitionSwitches, a[1..]) {
        assert a == [a[0]] + a[1..];
        assert a == "-F";
      } else {
        assert a != "-F";
        forall k ensures Lookup(q.switches, k) == LastWrite(args, n + 1, k) {
          ClusterLookup(p.switches, a[1..], k);
        }
      }
    } else if p.curKey != "" {
      assert KeyPending(args, n) && !IsLong(a) && !IsShort(a);
      assert q.switches == p.switches["F" := a];
      forall k ensures Lookup(q.switches, k) == LastWrite(args, n + 1, k) {
      }
    } else {
      assert !KeyPending(args, n) && !IsLong(a) && !IsShort(a);
      forall k ensures Lookup(q.switches, k) == LastWrite(args, n + 1, k) {
      }
    }
  }

  /** Up to the first `--`, the pass computes the declarative reading. */
  lemma {:induction false} RunToAgrees(args: seq<string>, n: nat)
    requires n <= SwitchEnd(args)
    ensures Agrees(RunTo(args, n), args, n)
  {
    if n > 0 {
      RunToAgrees(args, n - 1);
      StepAgrees(args, n - 1);
    }
  }

  /** After the first `--` the switches and the pending key are frozen, and every
      later argument is appended to the parameters verbatim, dashes and all. */
  lemma {:induction false} RunToAfterEnd(args: seq<string>, n: nat)
    requires SwitchEnd(args) < n <= |args|
    ensures RunTo(args, n).noMoreSwitches
    ensures RunTo(args, n).switches == RunTo(args, SwitchEnd(args)).switches
    ensures RunTo(args, n).parms == RunTo(args, SwitchEnd(args)).parms + args[SwitchEnd(args) + 1..n]
  {
    var e := SwitchEnd(args);
    if n == e + 1 {
      assert !RunTo(args, e).noMoreSwitches by { RunToAgrees(args, e); }
      assert args[e + 1..n] == [];
    } else {
      RunToAfterEnd(args, n - 1);
      PrefixSnoc(args[e + 1..], n - 1 - (e + 1));
      assert args[e + 1..n] == args[e + 1..n - 1] + [args[n - 1]];
    }
  }

  /** The whole pass: the parameters are the plain arguments before the first `--`
      that are not the value of a `-F`, in order, followed by everything after the
      first `--`; each switch holds the value of its last write before the first `--`. */
  lemma ParseSpec(args: seq<string>)
    ensures Parse(args).parms == Params(args, SwitchEnd(args)) + AfterEnd(args)
    ensures forall k :: Lookup(Parse(args).switches, k) == LastWrite(args, SwitchEnd(args), k)
  {
    var e := SwitchEnd(args);
    var p := RunTo(args, e);
    RunToAgrees(args, e);
    assert Parse(args).switches == p.switches && Parse(args).parms == p.parms + AfterEnd(args) by {
      if e < |args| {
        RunToAfterEnd(args, |args|);
      } else {
        assert p.parms + [] == p.parms;
      }
    }
  }

  /** The pass over a list depends only on its first `n` arguments. */
  lemma {:induction false} RunToPrefix(args: seq<string>, more: seq<string>, n: nat)
    requires n <= |args|
    ensures RunTo(args + more, n) == RunTo(args, n)
  {
    if n > 0 {
      RunToPrefix(args, more, n - 1);
      assert (args + more)[n - 1] == args[n - 1];
    }
  }

  /** `--` ends the switches: whatever follows it, dashes included, is appended to
      the parameters verbatim and in order, and `--` itself is neither a parameter
      nor a switch. */
  lemma DoubleDashEndsSwitches(before: seq<string>, after: seq<string>)
    requires "--" !in before
    ensures Parse(before + ["--"] + after).switches == Parse(before).switches
    ensures Parse(before + ["--"] + after).parms == Parse(before).parms + after
  {
    var args := before + ["--"] + after;
    assert SwitchEnd(args) == |before| by {
      assert args[|before|] == "--";
      assert forall j :: 0 <= j < |before| ==> args[j] == before[j];
    }
    assert RunTo(args, |before|) == Parse(before) by {
      AppendAssoc(before, ["--"], after);
      RunToPrefix(before, ["--"] + after, |before|);
    }
    assert args[|before| + 1..|args|] == after;
    RunToAfterEnd(args, |args|);
  }

  lemma ParseSnoc(before: seq<string>, a: string)
    ensures Parse(before + [a]) == Step(Parse(before), a)
  {
    RunToPrefix(before, [a], |before|);
  }

  /** Switches stay open until the first `--`. */
  lemma OpenBeforeDoubleDash(before: seq<string>)
    requires "--" !in before
    ensures !Parse(before).noMoreSwitches
  {
    assert SwitchEnd(before) == |before|;
    RunToAgrees(before, |before|);
  }

  /** `--name` sets switch `name` to "y" and cancels a `-F` waiting for its value. */
  lemma LongSwitch(before: seq<string>, name: string)
    requires "--" !in before && name != ""
    ensures Parse(before + ["--" + name]).switches == Parse(before).switches[name := "y"]
    ensures Parse(before + ["--" + name]).parms == Parse(before).parms
    ensures Parse(before + ["--" + name]).curKey == ""
  {
    var a := "--" + name;
    ParseSnoc(before, a);
    OpenBeforeDoubleDash(before);
    assert a[..2] == "--" && a[2..] == name;
  }

  /** A short argument that is not `-F` sets exactly the standalone switches among its
      letters, ignores every other letter, adds no parameter and keeps a pending `-F`. */
  lemma ShortCluster(before: seq<string>, a: string)
    requires "--" !in before && IsShort(a) && a != "-F"
    ensures Parse(before + [a]).parms == Parse(before).parms
    ensures Parse(before + [a]).curKey == Parse(before).curKey
    ensures forall k :: (Lookup(Parse(before + [a]).switches, k) ==
      if k in StandaloneSwitches && k[0] in a[1..] then Some("y") else Lookup(Parse(before).switches, k))
  {
    ParseSnoc(before, a);
    OpenBeforeDoubleDash(before);
    assert a == [a[0]] + a[1..];
    assert a[1..] != "F";
    forall k {
      ClusterLookup(Parse(before).switches, a[1..], k);
    }
  }

  /** `-F` followed by a plain argument sets switch `F` to that argument, which does
      not become a parameter. */
  lemma DefinitionValue(before: seq<string>, v: string)
    requires "--" !in before && IsPlain(v)
    ensures Parse(before + ["-F", v]).switches == Parse(before).switches["F" := v]
    ensures Parse(before + ["-F", v]).parms == Parse(before).parms
    ensures Parse(before + ["-F", v]).curKey == ""
  {
    var f := "-F";
    ParseSnoc(before, f);
    ParseSnoc(before + [f], v);
    assert before + [f] + [v] == before + [f, v];
    OpenBeforeDoubleDash(before);
    assert IsShort("-F") by {
      var flag := "-F";
      assert flag[..1] == "-" && flag[1] != '-';
    }
    assert f[1..] == "F";
  }
}
