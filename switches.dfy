/** The command-line switch decoder (`decodeSwitches`): a left-to-right scan that
    consumes `--url <value>` and `--help`, refuses every other `-`-prefixed token,
    and stops at the first token that is not a switch. That token is the program
    path and every later token is an argument template. */
module Switches {
  import opened Errors

  /** What the decoder hands to the rest of the program. A missing `--url` leaves
      `url` None (null in the program); a missing program path leaves `filename` None. */
  datatype Arguments = Arguments(showHelp: bool, url: Option<string>, filename: Option<string>, args: seq<string>)

  /** One switch as it was written on the command line. */
  datatype Switch = UrlSwitch(value: string) | HelpSwitch

  /** A token in switch position is a switch when it starts with `-` (a lone `-` included). */
  predicate IsSwitch(token: string) {
    |token| > 0 && token[0] == '-'
  }

  /** The tokens that spell one switch. */
  function Spelling(s: Switch): seq<string> {
    match s
    case UrlSwitch(v) => ["--url", v]
    case HelpSwitch => ["--help"]
  }

  /** The tokens that spell a list of switches: the inverse of the scan. */
  function Tokens(ss: seq<Switch>): seq<string> {
    if ss == [] then [] else Spelling(ss[0]) + Tokens(ss[1..])
  }

  /** The value of the last `--url` switch, read from the end of the list. */
  function LastUrl(ss: seq<Switch>): Option<string> {
    if ss == [] then None
    else if ss[|ss| - 1].UrlSwitch? then Some(ss[|ss| - 1].value)
    else LastUrl(ss[..|ss| - 1])
  }

  /** A URL is recorded exactly when some `--url` switch was given. */
  lemma {:induction false} LastUrlPresent(ss: seq<Switch>)
    ensures LastUrl(ss).Some? <==> exists i :: 0 <= i < |ss| && ss[i].UrlSwitch?
  {
    if ss != [] && !ss[|ss| - 1].UrlSwitch? {
      var init := ss[..|ss| - 1];
      LastUrlPresent(init);
      if exists i :: 0 <= i < |ss| && ss[i].UrlSwitch? {
        var i :| 0 <= i < |ss| && ss[i].UrlSwitch?;
        assert init[i] == ss[i];
      }
      if exists i :: 0 <= i < |init| && init[i].UrlSwitch? {
        var i :| 0 <= i < |init| && init[i].UrlSwitch?;
        assert ss[i] == init[i];
      }
    }
  }

  /** Specification of the switch scan, reading from the front: the switches in
      switch position, or the first failure met from the left. */
  function ScanSwitches(args: seq<string>): (r: Result<seq<Switch>>)
    ensures r.Err? ==> r.error == MissingUrlValue || r.error.UnsupportedSwitch?
    ensures r.Err? && r.error.UnsupportedSwitch? ==>
      IsSwitch(r.error.token) && r.error.token != "--url" && r.error.token != "--help"
  {
    if args == [] || !IsSwitch(args[0]) then Ok([])
    else if args[0] == "--url" then
      if |args| == 1 then Err(MissingUrlValue)
      else
        match ScanSwitches(args[2..])
        case Err(e) => Err(e)
        case Ok(more) => Ok([UrlSwitch(args[1])] + more)
    else if args[0] == "--help" then
      match ScanSwitches(args[1..])
      case Err(e) => Err(e)
      case Ok(more) => Ok([HelpSwitch] + more)
    else Err(UnsupportedSwitch(args[0]))
  }

  /** Specification of `decodeSwitches`. */
  function Decode(args: seq<string>): (r: Result<Arguments>)
    ensures r.Err? ==> r.error == MissingUrlValue || r.error.UnsupportedSwitch?
    ensures r.Ok? ==> |r.value.args| <= |args| && r.value.args == args[|args| - |r.value.args|..]
    ensures r.Ok? && r.value.filename.Some? ==>
      |r.value.args| < |args| && args[|args| - |r.value.args| - 1] == r.value.filename.value
  {
    match ScanSwitches(args)
    case Err(e) => Err(e)
    case Ok(ss) =>
      var k := |Tokens(ss)|;
      if k < |args| then Ok(Arguments(HelpSwitch in ss, LastUrl(ss), Some(args[k]), args[k + 1..]))
      else Ok(Arguments(HelpSwitch in ss, LastUrl(ss), None, []))
  }

  /** On success the scan has read exactly the spelling of its switches, and it
      stopped at the end or before a token that does not start with `-`. */
  lemma {:induction false} ScanReadsSpelling(args: seq<string>)
    requires ScanSwitches(args).Ok?
    ensures var k := |Tokens(ScanSwitches(args).value)|;
      k <= |args| && args[..k] == Tokens(ScanSwitches(args).value) && (k == |args| || !IsSwitch(args[k]))
    decreases |args|
  {
    if args == [] || !IsSwitch(args[0]) {
      assert ScanSwitches(args) == Ok([]);
    } else if args[0] == "--url" {
      assert args == Spelling(UrlSwitch(args[1])) + args[2..];
      ScanReadsSpelling(args[2..]);
      ReadsAfterSpelling(UrlSwitch(args[1]), args[2..]);
    } else {
      assert args == Spelling(HelpSwitch) + args[1..];
      ScanReadsSpelling(args[1..]);
      ReadsAfterSpelling(HelpSwitch, args[1..]);
    }
  }

  lemma ReadsAfterSpelling(s: Switch, rest: seq<string>)
    requires ScanSwitches(rest).Ok?
    requires var k := |Tokens(ScanSwitches(rest).value)|;
      k <= |rest| && rest[..k] == Tokens(ScanSwitches(rest).value) && (k == |rest| || !IsSwitch(rest[k]))
    ensures ScanSwitches(Spelling(s) + rest) == Ok([s] + ScanSwitches(rest).value)
    ensures var ss := [s] + ScanSwitches(rest).value; var all := Spelling(s) + rest; var k := |Tokens(ss)|;
      k <= |all| && all[..k] == Tokens(ss) && (k == |all| || !IsSwitch(all[k]))
  {
    ScanAfterSpelling(s, rest);
    var more := ScanSwitches(rest).value;
    var ss := [s] + more;
    assert ss[0] == s && ss[1..] == more;
    var all := Spelling(s) + rest;
    var n := |Spelling(s)|;
    var k := |Tokens(more)|;
    assert Tokens(ss) == Spelling(s) + Tokens(more);
    assert all[..n + k] == Spelling(s) + rest[..k];
    if n + k < |all| {
      assert all[n + k] == rest[k];
    }
  }

  /** A decoded program path never starts with `-`, and without one there are no
      argument templates. */
  lemma DecodeShape(args: seq<string>)
    requires Decode(args).Ok?
    ensures Decode(args).value.filename.None? ==> Decode(args).value.args == []
    ensures Decode(args).value.filename.Some? ==> !IsSwitch(Decode(args).value.filename.value)
  {
    ScanReadsSpelling(args);
  }

  /** The decoder as the program runs it: one pass over the tokens, setting the
      fields one at a time, then the program path and a copy of the tail. */
  method DecodeSwitches(args: seq<string>) returns (r: Result<Arguments>)
    ensures r == Decode(args)
  {
    var showHelp := false;
    var url: Option<string> := None;
    ghost var seen: seq<Switch> := [];
    var index := 0;
    while index < |args|
      invariant 0 <= index <= |args|
      invariant args[..index] == Tokens(seen)
      invariant showHelp == (HelpSwitch in seen) && url == LastUrl(seen)
    {
      var arg := args[index];
      if !IsSwitch(arg) {
        break;
      }
      if arg == "--url" {
        index := index + 1;
        if index >= |args| {
          DecodeMissingUrlAt(args, seen);
          return Err(MissingUrlValue);
        }
        url := Some(args[index]);
        StepUrl(args, index - 1, seen);
        seen := seen + [UrlSwitch(args[index])];
      } else if arg == "--help" {
        showHelp := true;
        StepHelp(args, index, seen);
        seen := seen + [HelpSwitch];
      } else {
        DecodeUnsupportedAt(args, index, seen);
        return Err(UnsupportedSwitch(arg));
      }
      index := index + 1;
    }
    ghost var stop := index;
    DecodeAt(args, stop, seen);
    var filename: Option<string> := None;
    if index < |args| {
      filename := Some(args[index]);
      index := index + 1;
    } else {
      assert args[index..] == [];
    }
    r := Ok(Arguments(showHelp, url, filename, args[index..]));
  }

  /** One step of the decoder's loop over `--url` and its value at `at`. */
  lemma StepUrl(args: seq<string>, at: nat, seen: seq<Switch>)
    requires at + 1 < |args| && args[..at] == Tokens(seen) && args[at] == "--url"
    ensures args[..at + 2] == Tokens(seen + [UrlSwitch(args[at + 1])])
    ensures (HelpSwitch in seen + [UrlSwitch(args[at + 1])]) == (HelpSwitch in seen)
    ensures LastUrl(seen + [UrlSwitch(args[at + 1])]) == Some(args[at + 1])
  {
    StepOver(args, at, seen, UrlSwitch(args[at + 1]));
  }

  /** One step of the decoder's loop over `--help` at `at`. */
  lemma StepHelp(args: seq<string>, at: nat, seen: seq<Switch>)
    requires at < |args| && args[..at] == Tokens(seen) && args[at] == "--help"
    ensures args[..at + 1] == Tokens(seen + [HelpSwitch])
    ensures HelpSwitch in seen + [HelpSwitch]
    ensures LastUrl(seen + [HelpSwitch]) == LastUrl(seen)
  {
    StepOver(args, at, seen, HelpSwitch);
  }

  /** The tokens at `index` spell switch `s`: the decoder's state after it. */
  lemma StepOver(args: seq<string>, index: nat, seen: seq<Switch>, s: Switch)
    requires index + |Spelling(s)| <= |args| && args[..index] == Tokens(seen)
    requires args[index..index + |Spelling(s)|] == Spelling(s)
    ensures args[..index + |Spelling(s)|] == Tokens(seen + [s])
    ensures (HelpSwitch in seen + [s]) == (HelpSwitch in seen || s == HelpSwitch)
    ensures LastUrl(seen + [s]) == if s.UrlSwitch? then Some(s.value) else LastUrl(seen)
  {
    TokensAppend(seen, s);
    var n := index + |Spelling(s)|;
    assert args[..n] == args[..index] + args[index..n];
    assert (seen + [s])[..|seen|] == seen;
  }

  /** The decoder's loop meets `--url` as the last token. */
  lemma DecodeMissingUrlAt(args: seq<string>, seen: seq<Switch>)
    requires |args| > 0 && args[..|args| - 1] == Tokens(seen) && args[|args| - 1] == "--url"
    ensures Decode(args) == Err(MissingUrlValue)
  {
    assert args == args[..|args| - 1] + ["--url"];
    DecodeMissingUrlValue(seen);
  }

  /** The decoder's loop meets an unsupported switch at `index`. */
  lemma DecodeUnsupportedAt(args: seq<string>, index: nat, seen: seq<Switch>)
    requires index < |args| && args[..index] == Tokens(seen)
    requires IsSwitch(args[index]) && args[index] != "--url" && args[index] != "--help"
    ensures Decode(args) == Err(UnsupportedSwitch(args[index]))
  {
    assert args == args[..index] + [args[index]] + args[index + 1..];
    DecodeUnsupportedSwitch(seen, args[index], args[index + 1..]);
  }

  /** The decoder's loop stops at `index`, at the end or before a non-switch. */
  lemma DecodeAt(args: seq<string>, index: nat, seen: seq<Switch>)
    requires index <= |args| && args[..index] == Tokens(seen)
    requires index == |args| || !IsSwitch(args[index])
    ensures Decode(args) ==
      if index == |args| then Ok(Arguments(HelpSwitch in seen, LastUrl(seen), None, []))
      else Ok(Arguments(HelpSwitch in seen, LastUrl(seen), Some(args[index]), args[index + 1..]))
  {
    var rest := args[index..];
    assert args == Tokens(seen) + rest;
    DecodeOfTokens(seen, rest);
    if index < |args| {
      assert rest[0] == args[index] && rest[1..] == args[index + 1..];
    }
  }

  /** Tokens maps concatenation of switch lists to concatenation of token lists. */
  lemma {:induction false} TokensAppend(ss: seq<Switch>, s: Switch)
    ensures Tokens(ss + [s]) == Tokens(ss) + Spelling(s)
  {
    if ss == [] {
      assert Tokens([s]) == Spelling(s) + Tokens([]);
    } else {
      assert (ss + [s])[1..] == ss[1..] + [s];
      TokensAppend(ss[1..], s);
    }
  }

  /** Scanning the spelling of one switch and then more tokens yields that switch
      followed by whatever the rest scans to, or the rest's failure. */
  lemma ScanAfterSpelling(s: Switch, rest: seq<string>)
    ensures ScanSwitches(Spelling(s) + rest) == Prepend([s], ScanSwitches(rest))
  {
    var all := Spelling(s) + rest;
    match s
    case UrlSwitch(v) =>
      assert all[0] == "--url" && all[1] == v && all[2..] == rest;
    case HelpSwitch =>
      assert all[0] == "--help" && all[1..] == rest;
  }

  /** Scanning the spelling of some switches and then more tokens yields those
      switches followed by whatever the rest scans to, or the rest's failure. */
  lemma {:induction false} ScanAfterTokens(ss: seq<Switch>, rest: seq<string>)
    ensures ScanSwitches(Tokens(ss) + rest) == Prepend(ss, ScanSwitches(rest))
  {
    if ss == [] {
      assert Tokens(ss) + rest == rest;
      if ScanSwitches(rest).Ok? {
        assert ss + ScanSwitches(rest).value == ScanSwitches(rest).value;
      }
    } else {
      var tail := Tokens(ss[1..]) + rest;
      calc {
        ScanSwitches(Tokens(ss) + rest);
        { assert Tokens(ss) + rest == Spelling(ss[0]) + tail; }
        ScanSwitches(Spelling(ss[0]) + tail);
        { ScanAfterSpelling(ss[0], tail); }
        Prepend([ss[0]], ScanSwitches(tail));
        { ScanAfterTokens(ss[1..], rest); }
        Prepend([ss[0]], Prepend(ss[1..], ScanSwitches(rest)));
        { PrependTwice([ss[0]], ss[1..], ScanSwitches(rest)); assert [ss[0]] + ss[1..] == ss; }
        Prepend(ss, ScanSwitches(rest));
      }
    }
  }

  /** The tokens the decoder did not take as switches: the program path, then the
      argument templates. */
  function Positional(a: Arguments): seq<string> {
    (if a.filename.Some? then [a.filename.value] else []) + a.args
  }

  /** Completeness: a run of well-formed switches followed by tokens whose first is
      not a switch decodes to the help flag of those switches, the value of their
      last `--url`, the first remaining token as program path and the others, in
      order, as argument templates. With nothing after the switches there is no
      program path and no argument. */
  lemma DecodeOfTokens(ss: seq<Switch>, rest: seq<string>)
    requires rest == [] || !IsSwitch(rest[0])
    ensures Decode(Tokens(ss) + rest) ==
      if rest == [] then Ok(Arguments(HelpSwitch in ss, LastUrl(ss), None, []))
      else Ok(Arguments(HelpSwitch in ss, LastUrl(ss), Some(rest[0]), rest[1..]))
  {
    var all := Tokens(ss) + rest;
    ScanAfterTokens(ss, rest);
    assert ScanSwitches(rest) == Ok([]);
    assert ss + [] == ss;
    assert ScanSwitches(all) == Ok(ss);
    var k := |Tokens(ss)|;
    assert all[k..] == rest;
    if rest != [] {
      assert all[k] == rest[0] && all[k + 1..] == rest[1..];
    }
  }

  /** Soundness: whatever the decoder accepts is a run of switches it accounted for,
      followed by the program path and the argument templates exactly as given. */
  lemma DecodeAccountsForEveryToken(args: seq<string>)
    requires Decode(args).Ok?
    ensures var a := Decode(args).value;
      exists ss :: args == Tokens(ss) + Positional(a)
        && a.showHelp == (HelpSwitch in ss) && a.url == LastUrl(ss)
  {
    var ss := ScanSwitches(args).value;
    var a := Decode(args).value;
    ScanReadsSpelling(args);
    var k := |Tokens(ss)|;
    assert args == args[..k] + args[k..];
    if k < |args| {
      assert args[k..] == [args[k]] + args[k + 1..];
    }
    assert args == Tokens(ss) + Positional(a);
  }

  /** `--url` as the last token in switch position is refused. */
  lemma DecodeMissingUrlValue(ss: seq<Switch>)
    ensures Decode(Tokens(ss) + ["--url"]) == Err(MissingUrlValue)
  {
    ScanAfterTokens(ss, ["--url"]);
  }

  /** Any other token that starts with `-` in switch position is refused, whatever
      follows it; earlier switches, `--help` included, do not stop the scan. */
  lemma DecodeUnsupportedSwitch(ss: seq<Switch>, t: string, rest: seq<string>)
    requires IsSwitch(t) && t != "--url" && t != "--help"
    ensures Decode(Tokens(ss) + [t] + rest) == Err(UnsupportedSwitch(t))
  {
    var tail := [t] + rest;
    assert tail[0] == t;
    assert ScanSwitches(tail) == Err(UnsupportedSwitch(t));
    assert Tokens(ss) + [t] + rest == Tokens(ss) + tail;
    ScanAfterTokens(ss, tail);
  }

  /** `args` starts with the spelling of `ss` and then the token the decoder
      refuses with `e`: a trailing `--url`, or an unsupported switch. */
  predicate FailsAfter(args: seq<string>, ss: seq<Switch>, e: Error) {
    var k := |Tokens(ss)|;
    k < |args| && args[..k] == Tokens(ss) &&
    ((e == MissingUrlValue && args == Tokens(ss) + ["--url"]) ||
     (e.UnsupportedSwitch? && args[k] == e.token && IsSwitch(e.token)
      && e.token != "--url" && e.token != "--help"))
  }

  lemma FailsAfterSwitch(s: Switch, rest: seq<string>, ss: seq<Switch>, e: Error)
    requires FailsAfter(rest, ss, e)
    ensures FailsAfter(Spelling(s) + rest, [s] + ss, e)
  {
    assert Tokens([s] + ss) == Spelling(s) + Tokens(ss);
    var args := Spelling(s) + rest;
    var k := |Tokens(ss)|;
    assert args[|Spelling(s)|..] == rest;
    if e == MissingUrlValue && rest == Tokens(ss) + ["--url"] {
      assert args == Tokens([s] + ss) + ["--url"];
    }
  }

  /** Every refusal is one of the two above: the decoder fails only at a token
      that follows well-formed switches and is either a trailing `--url` or an
      unsupported switch. */
  lemma DecodeFailure(args: seq<string>)
    requires Decode(args).Err?
    ensures exists ss :: FailsAfter(args, ss, Decode(args).error)
  {
    ScanFailure(args);
  }

  /** The scan fails only where FailsAfter says. */
  lemma {:induction false} ScanFailure(args: seq<string>)
    requires ScanSwitches(args).Err?
    ensures exists ss :: FailsAfter(args, ss, ScanSwitches(args).error)
    decreases |args|, 0
  {
    var e := ScanSwitches(args).error;
    if args[0] == "--url" && |args| > 1 {
      FailureAfterSpelling(UrlSwitch(args[1]), args[2..], args);
    } else if args[0] == "--help" {
      FailureAfterSpelling(HelpSwitch, args[1..], args);
    } else {
      assert Tokens([]) == [];
      assert FailsAfter(args, [], e);
    }
  }

  lemma {:induction false} FailureAfterSpelling(s: Switch, rest: seq<string>, args: seq<string>)
    requires args == Spelling(s) + rest && ScanSwitches(args).Err?
    ensures exists ss :: FailsAfter(args, ss, ScanSwitches(args).error)
    decreases |rest|, 1
  {
    var e := ScanSwitches(args).error;
    ScanAfterSpelling(s, rest);
    assert ScanSwitches(rest) == Err(e);
    ScanFailure(rest);
    var ss :| FailsAfter(rest, ss, e);
    FailsAfterSwitch(s, rest, ss, e);
  }

  /** The value of a later `--url` replaces that of an earlier one. */
  lemma {:induction false} LaterUrlWins(ss: seq<Switch>, u: string, later: seq<Switch>)
    requires forall i :: 0 <= i < |later| ==> later[i] == HelpSwitch
    ensures LastUrl(ss + [UrlSwitch(u)] + later) == Some(u)
    decreases |later|
  {
    if later != [] {
      var all := ss + [UrlSwitch(u)] + later;
      assert all[..|all| - 1] == ss + [UrlSwitch(u)] + later[..|later| - 1];
      LaterUrlWins(ss, u, later[..|later| - 1]);
    }
  }

  /** The value after `--url` is taken as it is, even when it starts with `-`. */
  lemma DecodeUrlValueVerbatim()
    ensures Decode(["--url", "--help", "a.exe"]) == Ok(Arguments(false, Some("--help"), Some("a.exe"), []))
  {
    var ss := [UrlSwitch("--help")];
    assert Tokens(ss) + ["a.exe"] == ["--url", "--help", "a.exe"];
    DecodeOfTokens(ss, ["a.exe"]);
    assert ss[0] != HelpSwitch;
    assert LastUrl(ss) == Some("--help");
    assert ["a.exe"][1..] == [];
  }

  /** `--help` is recorded and the scan goes on to the URL, the program path and
      the argument templates; templates may start with `-`. */
  lemma DecodeHelpDoesNotStop()
    ensures Decode(["--help", "--url", "x://y", "a.exe", "-b"]) ==
      Ok(Arguments(true, Some("x://y"), Some("a.exe"), ["-b"]))
  {
    var ss := [HelpSwitch, UrlSwitch("x://y")];
    assert Tokens(ss) + ["a.exe", "-b"] == ["--help", "--url", "x://y", "a.exe", "-b"];
    DecodeOfTokens(ss, ["a.exe", "-b"]);
    assert LastUrl(ss) == Some("x://y");
  }

  /** A second `--url` overrides the first; with only switches there is no program path. */
  lemma DecodeSecondUrlOverrides()
    ensures Decode(["--url", "a://1", "--url", "b://2"]) == Ok(Arguments(false, Some("b://2"), None, []))
  {
    var ss := [UrlSwitch("a://1"), UrlSwitch("b://2")];
    assert Tokens(ss) + [] == ["--url", "a://1", "--url", "b://2"];
    DecodeOfTokens(ss, []);
  }

  /** A lone `-` is an unsupported switch, also after `--help`. */
  lemma DecodeLoneDash()
    ensures Decode(["--help", "-"]) == Err(UnsupportedSwitch("-"))
  {
    assert Tokens([HelpSwitch]) + ["-"] + [] == ["--help", "-"];
    DecodeUnsupportedSwitch([HelpSwitch], "-", []);
  }
}
