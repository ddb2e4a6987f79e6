/**
 * What the option parser promises, stated without running the scan.
 *
 * A "flag position" is an index the loop would read as a flag if no help
 * token stopped it first: position 0, and after each flag position the one
 * its step leads to (two further for a value flag, one further otherwise).
 * The chain runs on past a help token; properties that depend on this are
 * stated for runs, where no flag position holds one. Every property below is
 * phrased over these positions and proved against the scan in `Args`.
 */
module ArgsProps {
  import opened Wrappers
  import opened Args

  /** Where the loop goes after reading position `i` as a flag. */
  function NextPos(args: seq<string>, i: nat): nat {
    if i < |args| && FlagOf(args[i]).Some? then i + 2 else i + 1
  }

  /** Scanning from `j`, the loop reaches position `i` as a flag unless a help token ends it first. */
  ghost predicate ReachedFrom(args: seq<string>, j: nat, i: nat)
    decreases i - j
  {
    j == i || (j < i && j < |args| && ReachedFrom(args, NextPos(args, j), i))
  }

  ghost predicate Reached(args: seq<string>, i: nat) {
    ReachedFrom(args, 0, i)
  }

  /** Scanning from `j`, position `k` is read as flag `f`. */
  ghost predicate FlagFrom(args: seq<string>, j: nat, k: nat, f: Flag) {
    k < |args| && ReachedFrom(args, j, k) && FlagOf(args[k]) == Some(f)
  }

  /** Position `i` is the last one read as flag `f`. */
  ghost predicate LastFrom(args: seq<string>, j: nat, i: nat, f: Flag) {
    FlagFrom(args, j, i, f) && forall k: nat :: FlagFrom(args, j, k, f) ==> k <= i
  }

  /**
   * `v` is what last-wins assignment gives field `f`: the argument after the
   * last flag position naming `f` (absent when that flag ends the list), or
   * `dflt` when no flag position names `f`.
   */
  ghost predicate ResolvedFrom(args: seq<string>, j: nat, f: Flag, v: Option<string>, dflt: Option<string>) {
    || (exists i: nat :: LastFrom(args, j, i, f) && v == At(args, i + 1))
    || ((forall k: nat :: !FlagFrom(args, j, k, f)) && v == dflt)
  }

  ghost predicate Resolved(args: seq<string>, f: Flag, v: Option<string>) {
    ResolvedFrom(args, 0, f, v, Get(Defaults, f))
  }

  /** One step of the chain: from a position inside the list, the positions reached are it and those reached from its successor. */
  lemma ReachedStep(args: seq<string>, j: nat, k: nat)
    requires j < |args|
    ensures ReachedFrom(args, j, k) <==> (k == j || ReachedFrom(args, NextPos(args, j), k))
  {
  }

  /** The loop reads the same flags as the scan from `j` does, so the scan's fields obey last-wins. */
  lemma {:induction false} ScanResolves(args: seq<string>, j: nat, o: Options, f: Flag)
    requires ScanFrom(args, j, o).Run?
    ensures ResolvedFrom(args, j, f, Get(ScanFrom(args, j, o).opts, f), Get(o, f))
    decreases |args| - j
  {
    var r := ScanFrom(args, j, o);
    if j >= |args| {
      forall k ensures !FlagFrom(args, j, k, f) {
      }
    } else {
      var n := NextPos(args, j);
      var o' := if FlagOf(args[j]).Some? then Set(o, FlagOf(args[j]).value, At(args, j + 1)) else o;
      assert ScanFrom(args, j, o) == ScanFrom(args, n, o');
      ScanResolves(args, n, o', f);
      forall k ensures FlagFrom(args, j, k, f) <==> (k == j && FlagOf(args[j]) == Some(f)) || FlagFrom(args, n, k, f) {
        ReachedStep(args, j, k);
      }
      if i: nat :| LastFrom(args, n, i, f) && Get(r.opts, f) == At(args, i + 1) {
        assert LastFrom(args, j, i, f);
      } else if FlagOf(args[j]) == Some(f) {
        assert LastFrom(args, j, j, f);
      } else {
        assert forall k: nat :: !FlagFrom(args, j, k, f);
      }
    }
  }

  /** The scan from `j` ends in the usage text exactly when a help flag sits at a flag position. */
  lemma {:induction false} ScanHelpIff(args: seq<string>, j: nat, o: Options)
    ensures ScanFrom(args, j, o).Help? <==>
      exists i: nat :: i < |args| && ReachedFrom(args, j, i) && IsHelp(args[i])
    decreases |args| - j
  {
    if j >= |args| {
      assert forall i: nat :: i < |args| ==> !ReachedFrom(args, j, i);
    } else {
      var n := NextPos(args, j);
      forall i ensures ReachedFrom(args, j, i) <==> (i == j || ReachedFrom(args, n, i)) {
        ReachedStep(args, j, i);
      }
      if FlagOf(args[j]).Some? {
        ScanHelpIff(args, n, Set(o, FlagOf(args[j]).value, At(args, j + 1)));
      } else if !IsHelp(args[j]) {
        ScanHelpIff(args, n, o);
      }
    }
  }

  /** `--help` or `-h` at a flag position, and only there, yields the usage text with exit 0 instead of options. */
  lemma HelpIff(args: seq<string>)
    ensures ParseArgs(args) == Help <==> exists i: nat :: i < |args| && Reached(args, i) && IsHelp(args[i])
  {
    ScanHelpIff(args, 0, Defaults);
  }

  /** The starting URL and the user name are the values after their last flags, or the defaults. */
  lemma LastWins(args: seq<string>)
    requires ParseArgs(args).Run?
    ensures Resolved(args, Url, ParseArgs(args).opts.url)
    ensures Resolved(args, User, ParseArgs(args).opts.user)
  {
    ScanResolves(args, 0, Defaults, Url);
    ScanResolves(args, 0, Defaults, User);
  }

  /** Without a truthy user name, the output path is the value after the last `--output`, or `./auth.json`. */
  lemma OutputLastWins(args: seq<string>)
    requires ParseArgs(args).Run?
    requires !Truthy(ParseArgs(args).opts.user)
    ensures Resolved(args, Output, ParseArgs(args).opts.output)
  {
    ScanResolves(args, 0, Defaults, Output);
  }

  /**
   * If the last `--user` is followed by a non-empty name, the output path is
   * `./<name>-auth.json`, wherever and however often `--output` occurs.
   */
  lemma UserOverride(args: seq<string>, i: nat, name: string)
    requires ParseArgs(args).Run?
    requires LastFrom(args, 0, i, User) && At(args, i + 1) == Some(name) && name != ""
    ensures ParseArgs(args).opts.output == Some("./" + name + "-auth.json")
  {
    ScanResolves(args, 0, Defaults, User);
    var o := ScanFrom(args, 0, Defaults).opts;
    if j: nat :| LastFrom(args, 0, j, User) && o.user == At(args, j + 1) {
      assert i <= j && j <= i;
    }
  }

  /**
   * A trailing `--user` with nothing after it, or an empty name, leaves the
   * output path to `--output` and the default.
   */
  lemma FalsyUserKeepsOutput(args: seq<string>, i: nat)
    requires ParseArgs(args).Run?
    requires LastFrom(args, 0, i, User) && !Truthy(At(args, i + 1))
    ensures Resolved(args, Output, ParseArgs(args).opts.output)
  {
    ScanResolves(args, 0, Defaults, User);
    var o := ScanFrom(args, 0, Defaults).opts;
    if j: nat :| LastFrom(args, 0, j, User) && o.user == At(args, j + 1) {
      assert i <= j && j <= i;
    }
    OutputLastWins(args);
  }

  /**
   * The argument after a value flag is consumed as its value: the loop never
   * reads it as a flag (so a `--help` there does not stop the run) and goes
   * on right after it.
   */
  lemma ValueConsumed(args: seq<string>, i: nat)
    requires i < |args| && Reached(args, i) && FlagOf(args[i]).Some?
    ensures !Reached(args, i + 1)
    ensures Reached(args, i + 2)
  {
    ReachedTrans(args, 0, i, i + 2);
    if Reached(args, i + 1) {
      ReachedOrdered(args, 0, i, i + 1);
    }
  }

  lemma {:induction false} ReachedTrans(args: seq<string>, j: nat, i: nat, k: nat)
    requires ReachedFrom(args, j, i) && ReachedFrom(args, i, k)
    ensures ReachedFrom(args, j, k)
    decreases i - j
  {
    if j != i {
      ReachedTrans(args, NextPos(args, j), i, k);
    }
  }

  /** The flag positions form one chain: of two positions reached, the later is reached from the earlier. */
  lemma {:induction false} ReachedOrdered(args: seq<string>, j: nat, i: nat, k: nat)
    requires ReachedFrom(args, j, i) && ReachedFrom(args, j, k) && i <= k
    ensures ReachedFrom(args, i, k)
    decreases i - j
  {
    if j != i {
      ReachedOrdered(args, NextPos(args, j), i, k);
    }
  }

  /** The scan depends only on the arguments from its position on. */
  lemma {:induction false} ScanSuffix(a: seq<string>, i: nat, b: seq<string>, k: nat, o: Options)
    requires i <= |a| && k <= |b| && a[i..] == b[k..]
    ensures ScanFrom(a, i, o) == ScanFrom(b, k, o)
    decreases |a| - i
  {
    if i < |a| {
      assert a[i] == a[i..][0] == b[k..][0] == b[k];
      assert At(a, i + 1) == At(b, k + 1) by {
        if i + 1 < |a| {
          assert a[i + 1] == a[i..][1] == b[k..][1] == b[k + 1];
        }
      }
      if FlagOf(a[i]).Some? {
        if i + 2 <= |a| {
          assert a[i + 2..] == a[i..][2..] == b[k..][2..] == b[k + 2..];
          ScanSuffix(a, i + 2, b, k + 2, Set(o, FlagOf(a[i]).value, At(a, i + 1)));
        }
      } else if !IsHelp(a[i]) {
        assert a[i + 1..] == a[i..][1..] == b[k..][1..] == b[k + 1..];
        ScanSuffix(a, i + 1, b, k + 1, o);
      }
    }
  }

  lemma {:induction false} ScanSkipRemoved(args: seq<string>, j: nat, i: nat, o: Options)
    requires i < |args| && ReachedFrom(args, j, i)
    requires FlagOf(args[i]).None? && !IsHelp(args[i])
    ensures ScanFrom(args[..i] + args[i + 1..], j, o) == ScanFrom(args, j, o)
    decreases i - j
  {
    var rest := args[..i] + args[i + 1..];
    if j == i {
      assert rest[i..] == args[i + 1..];
      ScanSuffix(rest, i, args, i + 1, o);
    } else {
      var n := NextPos(args, j);
      assert rest[j] == args[j];
      if FlagOf(args[j]).Some? {
        assert n == j + 2 <= i by { ReachedStep(args, j, i); }
        assert rest[j + 1] == args[j + 1];
        ScanSkipRemoved(args, n, i, Set(o, FlagOf(args[j]).value, At(args, j + 1)));
      } else if !IsHelp(args[j]) {
        ScanSkipRemoved(args, n, i, o);
      }
    }
  }

  /** An argument at a flag position that is neither a value flag nor a help flag has no effect: deleting it changes nothing. */
  lemma SkipHasNoEffect(args: seq<string>, i: nat)
    requires i < |args| && Reached(args, i)
    requires FlagOf(args[i]).None? && !IsHelp(args[i])
    ensures ParseArgs(args[..i] + args[i + 1..]) == ParseArgs(args)
  {
    ScanSkipRemoved(args, 0, i, Defaults);
  }

  /** `--help` right after a value flag is that flag's value, not a request for help. */
  lemma HelpAsValue()
    ensures ParseArgs(["--user", "--help"]) ==
      Run(Options(Some(DefaultUrl), Some("./--help-auth.json"), Some("--help")))
  {
    var args := ["--user", "--help"];
    assert FlagOf(args[0]) == Some(User);
    assert ScanFrom(args, 0, Defaults) == ScanFrom(args, 2, Defaults.(user := Some("--help")));
    assert Truthy(Some("--help")) && AuthFileFor("--help") == "./--help-auth.json";
  }

  /** The session name decides the output path whichever of `--user` and `--output` comes first. */
  lemma OverrideEitherOrder()
    ensures ParseArgs(["--output", "./x.json", "--user", "bob"]).opts.output == Some("./bob-auth.json")
    ensures ParseArgs(["--user", "bob", "--output", "./x.json"]).opts.output == Some("./bob-auth.json")
  {
    var first := ["--output", "./x.json", "--user", "bob"];
    assert FlagOf(first[0]) == Some(Output) && FlagOf(first[2]) == Some(User);
    assert ScanFrom(first, 0, Defaults) == ScanFrom(first, 2, Defaults.(output := Some("./x.json")));
    assert ScanFrom(first, 2, Defaults.(output := Some("./x.json")))
        == Run(Defaults.(output := Some("./x.json"), user := Some("bob")));
    assert Truthy(Some("bob")) && AuthFileFor("bob") == "./bob-auth.json";
    var second := ["--user", "bob", "--output", "./x.json"];
    assert FlagOf(second[0]) == Some(User) && FlagOf(second[2]) == Some(Output);
    assert ScanFrom(second, 0, Defaults) == ScanFrom(second, 2, Defaults.(user := Some("bob")));
    assert ScanFrom(second, 2, Defaults.(user := Some("bob")))
        == Run(Defaults.(user := Some("bob"), output := Some("./x.json")));
  }
}
