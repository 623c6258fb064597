# CustomURL launcher — a verified model

CustomURL is a protocol-handler launcher. The operating system starts it with a
custom-scheme URL such as `rdp://10.0.0.1`, passed through `--url`. It then starts
another program. The command line is
`CustomURL [--url <protocol>://<address>[/<path>]] [--help] <program path> [argument ...]`.
The program path and the arguments may contain `{0}` for the protocol and `{1}`
for the address. The whole program is `Program.cs`. This project models its logic
in five Dafny modules:

- `Errors` (errors.dfy): the five failures the model covers, with their messages,
  and the `Result` type that stands in for a thrown exception.
- `Switches` (switches.dfy): `decodeSwitches`. It is an imperative method,
  `DecodeSwitches`, that scans the tokens with a `while` loop. It is proved equal to
  `Decode`, a specification built on the recursive scan `ScanSwitches`. `Decode` is then characterised by lemmas. A
  well-formed run of switches followed by a non-switch decodes to the help flag,
  the last `--url` value, the program path and the rest (`DecodeOfTokens`). Every
  accepted input is exactly such a run plus the path and arguments
  (`DecodeAccountsForEveryToken`). Every refusal is a trailing `--url` or an
  unsupported switch (`DecodeFailure`).
- `UrlSplit` (urlsplit.dfy): `split`. The regular expression `^(\w+)://(.+?)(?:/(.*))?$`
  appears twice. `PatternMatch` is a declarative predicate: the pattern matches with
  given groups. `Split` is an explicit function that computes the groups. The lemmas
  prove three things. `Split` succeeds exactly when the pattern matches. Its result
  is a match. Its address is the shortest one, which is what the lazy `.+?` picks.
- `Formatting` (formatting.dfy): the part of `string.Format` the program relies on.
  `Parse` reads a template into pieces and `Print` writes pieces back; the two are
  inverses. `Fill` puts the protocol and address in. Substituting into the
  space-joined argument templates gives the same text as substituting into each
  template and then joining, whenever each template is well formed on its own.
- `Launcher` (launcher.dfy): `expand`, `startProcess` up to `Process.Start`, and the
  help-or-launch decision of `Main` (as `Invoke`, which returns an `Outcome`).

Two behaviours of the code are worth noting:

- `split("")` is refused. Only a missing `--url` (a null URL) gives empty parts.
  An empty string goes to the regular expression, which does not match it.
- `--help` does not stop the scan. A later unsupported switch or a trailing `--url`
  is still refused.

`Regex.Match` returns a failed match whose `Groups.Count` is 1. A successful match
of this pattern always has four groups. So the program's test `Groups.Count != 4`
is a test for "no match", and the model treats it that way.

## Model

| member | source | states |
|---|---|---|
| Errors.Error.Message | Program.cs:78-119 | the message of the exception thrown for each failure (Program.cs:78, 87, 119, and .NET's FormatException): the missing `--url` value, "Unsupported switch: " and the refused token, the URL mismatch naming the pattern, and the two texts of .NET's format exception (a bad brace, an index out of range); every message is non-empty and the unsupported-switch message ends with the refused token |
| Switches.LastUrlPresent | Program.cs:75-81 | a URL is recorded exactly when some `--url` switch was given |
| Switches.ScanSwitches | Program.cs:66-90 | the recursive definition of the switch loop: the switches read from the front, or the first failure; a failure is a missing `--url` value or an unsupported switch, and the refused token starts with `-` and is neither `--url` nor `--help` |
| Switches.Decode | Program.cs:62-102 | the definition of `decodeSwitches` that the loop is proved against: a failure is one of the two switch errors; the argument templates are a tail of the input, and the program path is the token just before them |
| Switches.ScanReadsSpelling | Program.cs:67-90 | on success the switches' own spelling is a prefix of the input, and the token after it, if any, does not start with `-` (the scan stops there) |
| Switches.DecodeShape | Program.cs:92-99 | with no program path there are no arguments; a program path never starts with `-` |
| Switches.DecodeSwitches | Program.cs:62-102 | the loop that sets `Url` and `ShowHelp` token by token, then takes the program path and copies the tail, returns exactly what the specification `Decode` gives, failures included |
| Switches.ScanAfterTokens | Program.cs:67-90 | the scan goes through well-formed switches one after the other: their list followed by the rest's scan, or the rest's failure |
| Switches.DecodeOfTokens | Program.cs:67-99 | switches followed by a non-switch give the help flag of those switches, the last `--url` value, the first remaining token as program path and the others as arguments, in order; with only switches, no path and no arguments |
| Switches.DecodeAccountsForEveryToken | Program.cs:92-99 | every accepted input is the spelling of some switches followed by the program path and the arguments exactly as given; the help flag and URL are those of the switches |
| Switches.DecodeMissingUrlValue | Program.cs:75-78 | `--url` as the last token after well-formed switches fails with "Argument after --url is missing." |
| Switches.DecodeUnsupportedSwitch | Program.cs:82-87 | any other `-`-prefixed token in switch position fails with "Unsupported switch", whatever precedes or follows it |
| Switches.DecodeFailure | Program.cs:73-88 | a failure happens only at a trailing `--url` or an unsupported switch that follows well-formed switches |
| Switches.ScanFailure | Program.cs:73-88 | the same for the scan of the switches alone |
| Switches.LaterUrlWins | Program.cs:79 | the value of a later `--url` replaces an earlier one |
| Switches.DecodeUrlValueVerbatim | Program.cs:75-79 | the token after `--url` is taken as the URL even when it starts with `-` |
| Switches.DecodeHelpDoesNotStop | Program.cs:82-85 | `--help` is recorded and the scan continues to the URL, path and arguments; arguments may start with `-` |
| Switches.DecodeSecondUrlOverrides | Program.cs:75-99 | two `--url` switches: the second value wins, and with no further token there is no program path |
| Switches.DecodeLoneDash | Program.cs:70-87 | a lone `-` after `--help` is an unsupported switch |
| UrlSplit.PatternMatch | Program.cs:116 | the pattern matches `s` with groups `p` and `a`: a non-empty word `p`, `://`, a non-empty line `a`, then nothing, a final newline, or `/` and a line with an optional final newline |
| UrlSplit.WordPrefixLength | Program.cs:116 | `\w+` takes the longest run of word characters: all of them word characters, followed by the end or a non-word character |
| UrlSplit.WordPrefixLengthIs | Program.cs:116 | that run ends at the first non-word character |
| UrlSplit.AddressLength | Program.cs:116 | the lazy `(.+?)` stops at the first position after its first character that is the end or a `/` |
| UrlSplit.AddressLengthIs | Program.cs:116 | conversely, a position with that property is where the lazy address stops |
| UrlSplit.Split | Program.cs:111-128 | null gives empty parts; a failure is always the "Url does not match" error |
| UrlSplit.SplitSound | Program.cs:116-127 | what `Split` returns is a match of the pattern with those groups: a non-empty word protocol, `://`, a non-empty address without newline, then nothing, a final newline, or `/` and a line |
| UrlSplit.SplitLeast | Program.cs:116-127 | whenever the pattern matches, `Split` succeeds with the same protocol and an address that is a prefix of the match's address (the shortest match) |
| UrlSplit.SplitFailsExactlyWithoutMatch | Program.cs:117-119 | `Split` refuses a non-null URL exactly when no protocol and address make the pattern match it |
| UrlSplit.SplitRoundTrip | Program.cs:116-127 | for a word protocol `p` and a non-empty address `a` without `/`, both `p://a` and `p://a/path` split to `(p, a)` |
| UrlSplit.ShortestIsWhole | Program.cs:116-127 | a match whose address has no `/` is exactly the match `Split` returns |
| UrlSplit.SplitHelpExample | Program.cs:116-127 | `rdp://10.0.0.1` splits to `rdp` and `10.0.0.1` |
| UrlSplit.SplitDropsPath | Program.cs:116-127 | `scheme://host/a/b` splits to `scheme` and `host` |
| UrlSplit.SplitRefuses | Program.cs:113-119 | `notaurl` and the empty string are refused |
| UrlSplit.SplitSlashFirst | Program.cs:116-127 | in `a:///x` the address is `/x`: a `/` in first position does not end it |
| Formatting.Lead | Program.cs:56 | a recognised first piece takes at least one character and no more than the template has; a placeholder index is read digit by digit as .NET reads it, and a failure is a bad brace or an index of 2 or more |
| Formatting.Parse | Program.cs:56 | a template that cannot be read fails with one of the two format errors |
| Formatting.Format | Program.cs:106 | formatting fails only with one of the two format errors |
| Formatting.Fill | Program.cs:56 | the pieces rendered in order: a literal as its character, `{0}` as the protocol, `{1}` as the address (also used at Program.cs:106) |
| Formatting.JoinWithSpaces | Program.cs:56 | `string.Join(" ", arguments)`: when no template holds a space, cutting the joined text at its spaces gives the templates back, in order |
| Formatting.ParsePrint | Program.cs:56 | every sequence of pieces, printed as a template, reads back to the same pieces |
| Formatting.PrintParse | Program.cs:56 | every template that reads prints back to itself, so reading loses nothing |
| Formatting.FormatWithoutBraces | Program.cs:106 | a template without braces comes out unchanged, whatever the protocol and address |
| Formatting.ParseConcat | Program.cs:56 | reading a template that reads on its own followed by any text gives its pieces followed by the text's pieces, or the text's failure |
| Formatting.ParseAppend | Program.cs:56 | a template that reads on its own reads the same in front of any text |
| Formatting.FormatAroundSpace | Program.cs:56 | two well-formed templates joined by a space format to their results joined by a space |
| Formatting.FormatJoinCommutes | Program.cs:56 | if every argument template is well formed, formatting the joined templates equals joining the formatted ones |
| Formatting.FormatBothSlots | Program.cs:41 | `{0}` takes the protocol and `{1}` the address, with literal text between kept |
| Formatting.FormatTextThenUrl | Program.cs:47 | literal text followed by `{1}` becomes the text followed by the address |
| Formatting.FormatEscapes | Program.cs:56 | `}}` and `{{` stand for single braces |
| Formatting.FormatErrors | Program.cs:56 | `{2}`, `{12}` and `{2x` are index-out-of-range errors; `{2` and `{0` cut short by the end, a lone `{`, a lone `}` and `{0x}` are invalid-format errors |
| Launcher.Expand | Program.cs:104-109 | expanding the program path fails only with a format error |
| Launcher.StartProcess | Program.cs:52-56 | the URL is split before anything is formatted: a URL that does not match gives that error whatever the templates; after a good split only format errors remain |
| Launcher.StartProcessSucceeds | Program.cs:52-56 | `startProcess` succeeds exactly when the URL splits and both the program path and the joined templates format, and its command is those two results; a failing path format is the failure even when the templates are bad too |
| Launcher.Invoke | Program.cs:12-31 | a decoding failure ends the invocation with that failure; after good decoding the only failures are a URL mismatch or a format error |
| Launcher.InvokeShowsHelpExactly | Program.cs:18-25 | help is shown exactly when `--help` was given or no program path was |
| Launcher.InvokeLaunches | Program.cs:18-25 | a launch uses the decoded path, arguments and URL. The command's program is the path with environment variables expanded and the two parts put in. Its argument string is the templates joined with single spaces, with the same parts put in |
| Launcher.InvokeStartsProcess | Program.cs:18-25 | when no help is asked for and a program path is given, the invocation is a launch of exactly what `startProcess` builds from the decoded path, templates and URL, or its failure |
| Launcher.InvokeWithUrl | Program.cs:16-24 | `--url u f ts...` launches whatever `startProcess(f, ts, u)` builds, or fails with its error |
| Launcher.StartProcessWithAddressSlot | Program.cs:52-56 | a path without braces is kept and an argument `text{1}` becomes `text` followed by the address |
| Launcher.InvokeWithAddressSlot | Program.cs:39-47 | the help text's usage `--url p://a program text{1}` launches `program` with argument `text` + `a` |
| Launcher.InvokeHelpCases | Program.cs:18-21 | `--help` alone, and an empty command line, show help |
| Launcher.InvokeWithoutUrl | Program.cs:52-56 | without `--url` the placeholders stand for empty text |
| Launcher.InvokeWithEmptyUrl | Program.cs:113-119 | an empty `--url` value is refused as a URL mismatch and nothing is launched |
| Launcher.InvokeHelpIgnoresUrl | Program.cs:18-25 | with `--help` the URL is never split, so any URL value still shows help |

## Left out

- `Process.Start`, the help dialog (`MessageBox.Show` and the help text) and all
  tracing. They are operating-system and logging effects. `Invoke` ends in an
  `Outcome` that says which of them happens, and `Failed` stands for the trace of
  the caught exception. The trace writes `ex.ToString()`: the exception's type
  name, the message that `Error.Message` gives, then a stack trace; only the
  message is modelled. A failure of `Process.Start` itself (program not found) is
  not modelled.
- The catch-all `try`/`catch` of `Main`. Every exception becomes `Failed(error)`.
- `Environment.ExpandEnvironmentVariables` reads the process environment. It is a
  function parameter `expandEnv` of `Expand`, `StartProcess` and `Invoke`. The
  concrete lemmas use `NoEnvironment`, the identity.
- UrlSplit.Split: `\w` is restricted to ASCII letters, digits and `_`. .NET's `\w`
  is `[\p{L}\p{Mn}\p{Nd}\p{Pc}]`: all Unicode letters, nonspacing marks, decimal
  digits and connector punctuation. A scheme with such non-ASCII characters (for
  example `٣://x`) matches in the program and is refused in the model. The `.` and
  `$` rules for `\n` are modelled as .NET applies them without options.
- Formatting.Parse: only `{0}`, `{1}`, `{{` and `}}` are read. .NET also accepts
  leading zeros and trailing spaces in an index, alignment (`{0,5}`) and format
  strings (`{0:x}`). The model refuses those as invalid-format errors. An index
  of 2 or more is an index-out-of-range error in both; the digits of an index
  are read as .NET Framework reads them, up to the first index of 1000000 or more.
- Switches.IsSwitch: `StartsWith("-")` is modelled as "the first character is `-`".
  .NET's culture-sensitive comparison may also ignore leading zero-width characters.
- The argument array of `Main` never holds null tokens, so tokens are plain
  strings. A null URL (no `--url`) and a null program path are `None`.
- The concrete end-to-end case `--url rdp://10.0.0.1 mstsc.exe /v:{1}` is not
  stated as a lemma on literal strings. `InvokeWithAddressSlot` states it for every
  protocol, address, program path and argument prefix of that shape.
