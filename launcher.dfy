/** One invocation of the launcher (`Main`): decode the switches, then either show
    the help text or split the URL, expand the program path and the joined
    argument templates, and hand both to the operating system. Process creation,
    the help dialog and tracing are effects outside the model: an invocation ends
    in the Outcome that says which of them happens. */
module Launcher {
  import opened Errors
  import opened Switches
  import opened UrlSplit
  import opened Formatting

  /** The program path and the single argument string given to `Process.Start`. */
  datatype Command = Command(fileName: string, arguments: string)

  /** What an invocation does: show help, start a process, or trace a failure. */
  datatype Outcome = ShowHelp | Launch(command: Command) | Failed(error: Error)

  /** Environment-variable expansion with no variable defined. */
  function NoEnvironment(s: string): string {
    s
  }

  /** `expand`: environment variables first, then the two placeholders. */
  function Expand(filename: string, parts: UrlParts, expandEnv: string -> string): (r: Result<string>)
    ensures r.Err? ==> r.error.IsFormatError()
  {
    Format(expandEnv(filename), parts.protocol, parts.url)
  }

  /** `startProcess` up to the call of `Process.Start`: the URL is split first,
      then the program path is expanded, then the argument templates are joined
      with single spaces and formatted; the first failure ends it. */
  function StartProcess(filename: string, arguments: seq<string>, url: Option<string>,
                        expandEnv: string -> string): (r: Result<Command>)
    ensures Split(url).Err? ==> r == Err(UrlMismatch)
    ensures Split(url).Ok? && r.Err? ==> r.error.IsFormatError()
  {
    match Split(url)
    case Err(e) => Err(e)
    case Ok(parts) =>
      match Expand(filename, parts, expandEnv)
      case Err(e) => Err(e)
      case Ok(f) =>
        match Format(JoinWithSpaces(arguments), parts.protocol, parts.url)
        case Err(e) => Err(e)
        case Ok(a) => Ok(Command(f, a))
  }

  /** `Main`: help when asked for or when there is no program path, a launch otherwise. */
  function Invoke(args: seq<string>, expandEnv: string -> string): (r: Outcome)
    ensures Decode(args).Err? ==> r == Failed(Decode(args).error)
    ensures Decode(args).Ok? && r.Failed? ==> r.error == UrlMismatch || r.error.IsFormatError()
  {
    match Decode(args)
    case Err(e) => Failed(e)
    case Ok(a) =>
      if a.showHelp || a.filename.None? then ShowHelp
      else
        match StartProcess(a.filename.value, a.args, a.url, expandEnv)
        case Err(e) => Failed(e)
        case Ok(c) => Launch(c)
  }

  /** Help is shown exactly when the decoded switches ask for it or name no program
      path; then the URL is never split, so even a malformed one does no harm. */
  lemma InvokeShowsHelpExactly(args: seq<string>, expandEnv: string -> string)
    requires Decode(args).Ok?
    ensures Invoke(args, expandEnv) == ShowHelp <==>
      (Decode(args).value.showHelp || Decode(args).value.filename.None?)
  {
  }

  /** A launch uses the decoded program path, argument templates and URL: the
      command is the path with environment variables expanded and then the
      protocol and address put in, and the templates joined with spaces with the
      same two values put in. */
  lemma InvokeLaunches(args: seq<string>, expandEnv: string -> string, c: Command)
    requires Invoke(args, expandEnv) == Launch(c)
    ensures Decode(args).Ok?
    ensures var a := Decode(args).value;
      !a.showHelp && a.filename.Some? && Split(a.url).Ok? &&
      Format(expandEnv(a.filename.value), Split(a.url).value.protocol, Split(a.url).value.url) == Ok(c.fileName) &&
      Format(JoinWithSpaces(a.args), Split(a.url).value.protocol, Split(a.url).value.url) == Ok(c.arguments)
  {
  }

  /** Conversely, when the decoded switches ask for no help and name a program
      path, the invocation is exactly what `startProcess` builds from the decoded
      path, argument templates and URL: a launch of its command, or its failure. */
  lemma InvokeStartsProcess(args: seq<string>, expandEnv: string -> string)
    requires Decode(args).Ok? && !Decode(args).value.showHelp && Decode(args).value.filename.Some?
    ensures var a := Decode(args).value;
      Invoke(args, expandEnv) ==
        match StartProcess(a.filename.value, a.args, a.url, expandEnv)
        case Ok(c) => Launch(c)
        case Err(e) => Failed(e)
  {
  }

  /** `startProcess` succeeds exactly when the URL splits and both the program path
      and the joined argument templates format, and then its command is made of
      those two results; otherwise it fails with the first of the three failures. */
  lemma StartProcessSucceeds(filename: string, arguments: seq<string>, url: Option<string>,
                             expandEnv: string -> string)
    ensures StartProcess(filename, arguments, url, expandEnv).Ok? <==>
      Split(url).Ok? &&
      Format(expandEnv(filename), Split(url).value.protocol, Split(url).value.url).Ok? &&
      Format(JoinWithSpaces(arguments), Split(url).value.protocol, Split(url).value.url).Ok?
    ensures StartProcess(filename, arguments, url, expandEnv).Ok? ==>
      StartProcess(filename, arguments, url, expandEnv).value == Command(
        Format(expandEnv(filename), Split(url).value.protocol, Split(url).value.url).value,
        Format(JoinWithSpaces(arguments), Split(url).value.protocol, Split(url).value.url).value)
    ensures (Split(url).Ok? &&
             Format(expandEnv(filename), Split(url).value.protocol, Split(url).value.url).Err?) ==>
      StartProcess(filename, arguments, url, expandEnv) ==
        Err(Format(expandEnv(filename), Split(url).value.protocol, Split(url).value.url).error)
  {
  }

  /** A URL switch followed by a program path: the program is launched with that URL. */
  lemma InvokeWithUrl(u: string, f: string, ts: seq<string>, expandEnv: string -> string)
    requires !IsSwitch(f)
    ensures Invoke(["--url", u, f] + ts, expandEnv) ==
      match StartProcess(f, ts, Some(u), expandEnv)
      case Ok(c) => Launch(c)
      case Err(e) => Failed(e)
  {
    var ss := [UrlSwitch(u)];
    assert Tokens(ss) + ([f] + ts) == ["--url", u, f] + ts;
    DecodeOfTokens(ss, [f] + ts);
    assert ss[0] != HelpSwitch;
    assert LastUrl(ss) == Some(u);
    assert ([f] + ts)[1..] == ts;
  }

  /** A URL with no path and templates without braces except a trailing `{1}` in
      the one argument template, as in the help text's example
      `--url rdp://10.0.0.1 mstsc.exe /v:{1}`: the program path is kept and the
      address replaces the placeholder. */
  lemma StartProcessWithAddressSlot(p: string, a: string, f: string, text: string)
    requires |p| > 0 && IsWord(p) && |a| > 0 && IsLine(a)
    requires forall i :: 0 <= i < |a| ==> a[i] != '/'
    requires forall i :: 0 <= i < |f| ==> f[i] != '{' && f[i] != '}'
    requires forall i :: 0 <= i < |text| ==> text[i] != '{' && text[i] != '}'
    ensures StartProcess(f, [text + "{1}"], Some(p + "://" + a), NoEnvironment) == Ok(Command(f, text + a))
  {
    SplitRoundTrip(p, a, "");
    var parts := UrlParts(p, a);
    FormatWithoutBraces(f, p, a);
    assert Expand(f, parts, NoEnvironment) == Ok(f);
    FormatTextThenUrl(text, p, a);
    assert JoinWithSpaces([text + "{1}"]) == text + "{1}";
  }

  /** The help text's example, end to end, for any protocol, address, program
      path and argument prefix of the same shape. */
  lemma InvokeWithAddressSlot(p: string, a: string, f: string, text: string)
    requires |p| > 0 && IsWord(p) && |a| > 0 && IsLine(a) && !IsSwitch(f)
    requires forall i :: 0 <= i < |a| ==> a[i] != '/'
    requires forall i :: 0 <= i < |f| ==> f[i] != '{' && f[i] != '}'
    requires forall i :: 0 <= i < |text| ==> text[i] != '{' && text[i] != '}'
    ensures Invoke(["--url", p + "://" + a, f, text + "{1}"], NoEnvironment) == Launch(Command(f, text + a))
  {
    InvokeWithUrl(p + "://" + a, f, [text + "{1}"], NoEnvironment);
    assert ["--url", p + "://" + a, f] + [text + "{1}"] == ["--url", p + "://" + a, f, text + "{1}"];
    StartProcessWithAddressSlot(p, a, f, text);
  }

  /** `--help` alone, and no token at all, show help. */
  lemma InvokeHelpCases(expandEnv: string -> string)
    ensures Invoke(["--help"], expandEnv) == ShowHelp
    ensures Invoke([], expandEnv) == ShowHelp
  {
    DecodeOfTokens([HelpSwitch], []);
    assert Tokens([HelpSwitch]) + [] == ["--help"];
    DecodeOfTokens([], []);
  }

  /** Without `--url` the placeholders stand for empty text. */
  lemma InvokeWithoutUrl(f: string, text: string)
    requires !IsSwitch(f)
    requires forall i :: 0 <= i < |f| ==> f[i] != '{' && f[i] != '}'
    requires forall i :: 0 <= i < |text| ==> text[i] != '{' && text[i] != '}'
    ensures Invoke([f, text + "{1}"], NoEnvironment) == Launch(Command(f, text))
  {
    var rest := [f, text + "{1}"];
    DecodeOfTokens([], rest);
    assert Tokens([]) + rest == rest;
    assert rest[1..] == [text + "{1}"];
    assert Decode(rest) == Ok(Arguments(false, None, Some(f), [text + "{1}"]));
    var parts := UrlParts("", "");
    FormatWithoutBraces(f, "", "");
    assert Expand(f, parts, NoEnvironment) == Ok(f);
    FormatTextThenUrl(text, "", "");
    assert text + "" == text;
    assert JoinWithSpaces([text + "{1}"]) == text + "{1}";
  }

  /** An empty `--url` value does not match, so nothing is launched: only a missing
      `--url` gives empty parts. */
  lemma InvokeWithEmptyUrl(expandEnv: string -> string)
    ensures Invoke(["--url", "", "a.exe"], expandEnv) == Failed(UrlMismatch)
  {
    var ss := [UrlSwitch("")];
    assert Tokens(ss) + ["a.exe"] == ["--url", "", "a.exe"];
    DecodeOfTokens(ss, ["a.exe"]);
    assert ss[0] != HelpSwitch;
    assert LastUrl(ss) == Some("");
    SplitRefuses();
  }

  /** Help wins over a URL that would not match: the URL is only split for a launch. */
  lemma InvokeHelpIgnoresUrl(u: string, rest: seq<string>, expandEnv: string -> string)
    requires rest == [] || !IsSwitch(rest[0])
    ensures Invoke(["--help", "--url", u] + rest, expandEnv) == ShowHelp
  {
    var ss := [HelpSwitch, UrlSwitch(u)];
    assert ss[1..] == [UrlSwitch(u)] && ss[1..][1..] == [];
    assert Tokens(ss[1..]) == ["--url", u];
    assert Tokens(ss) == ["--help", "--url", u];
    assert Tokens(ss) + rest == ["--help", "--url", u] + rest;
    DecodeOfTokens(ss, rest);
  }
}
