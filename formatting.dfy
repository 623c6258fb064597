/** The part of .NET composite formatting (`string.Format(template, protocol, url)`)
    that the launcher relies on: `{0}` stands for the protocol, `{1}` for the
    address, `{{` and `}}` for literal braces; any other use of a brace is a
    format error. A template is read into pieces (Parse), the pieces are
    rendered with the two values (Fill); Print writes pieces back as a template. */
module Formatting {
  import opened Errors

  /** One unit of a template. */
  datatype Piece = Literal(c: char) | ProtocolSlot | UrlSlot

  predicate IsDigit(c: char) {
    '0' <= c <= '9'
  }

  /** The digit loop that reads a placeholder's index, starting at the digit at
      `pos` with the index read so far: it goes on while the next character is a
      digit and the index is below 1000000. The result is the index and the
      position after its last digit, or None when the template ends right after
      a digit. */
  function ReadIndex(t: string, pos: nat, index: nat): (r: Option<(nat, nat)>)
    requires pos < |t| && IsDigit(t[pos])
    ensures r.Some? ==> pos < r.value.1 < |t|
    ensures r.Some? && r.value.1 == pos + 1 ==> r.value.0 == index * 10 + (t[pos] as int - '0' as int)
    decreases |t| - pos
  {
    var next := index * 10 + (t[pos] as int - '0' as int);
    if pos + 1 == |t| then None
    else if IsDigit(t[pos + 1]) && next < 1000000 then ReadIndex(t, pos + 1, next)
    else Some((next, pos + 1))
  }

  /** The first piece of a non-empty template and the number of characters it
      takes. A placeholder's index is read in full and refused when it is 2 or
      more; any other brace that is neither an escape nor `{0}` or `{1}` is
      invalid. */
  function Lead(t: string): (r: Result<(Piece, nat)>)
    requires t != []
    ensures r.Ok? ==> 1 <= r.value.1 <= |t|
    ensures r.Err? ==> r.error.IsFormatError()
  {
    if t[0] == '{' then
      if |t| >= 2 && t[1] == '{' then Ok((Literal('{'), 2))
      else if |t| >= 2 && IsDigit(t[1]) then
        match ReadIndex(t, 1, 0)
        case None => Err(InvalidFormat)
        case Some((index, next)) =>
          if index >= 2 then Err(IndexOutOfRange)
          else if next == 2 && t[2] == '}' then Ok((if index == 0 then ProtocolSlot else UrlSlot, 3))
          else Err(InvalidFormat)
      else Err(InvalidFormat)
    else if t[0] == '}' then
      if |t| >= 2 && t[1] == '}' then Ok((Literal('}'), 2))
      else Err(InvalidFormat)
    else Ok((Literal(t[0]), 1))
  }

  /** Reads a template left to right into pieces. */
  function Parse(t: string): (r: Result<seq<Piece>>)
    ensures r.Err? ==> r.error.IsFormatError()
    decreases |t|
  {
    if t == [] then Ok([])
    else
      match Lead(t)
      case Err(e) => Err(e)
      case Ok((p, w)) => Prepend([p], Parse(t[w..]))
  }

  /** The template text of one piece. */
  function PrintPiece(p: Piece): string {
    match p
    case Literal(c) => if c == '{' || c == '}' then [c, c] else [c]
    case ProtocolSlot => "{0}"
    case UrlSlot => "{1}"
  }

  /** The template text of some pieces: the inverse of Parse. */
  function Print(ps: seq<Piece>): string {
    if ps == [] then [] else PrintPiece(ps[0]) + Print(ps[1..])
  }

  /** The text of one piece once the protocol and the address are put in. */
  function Render(p: Piece, protocol: string, url: string): string {
    match p
    case Literal(c) => [c]
    case ProtocolSlot => protocol
    case UrlSlot => url
  }

  function Fill(ps: seq<Piece>, protocol: string, url: string): string {
    if ps == [] then [] else Render(ps[0], protocol, url) + Fill(ps[1..], protocol, url)
  }

  /** `string.Format(t, protocol, url)`. */
  function Format(t: string, protocol: string, url: string): (r: Result<string>)
    ensures r.Err? ==> r.error.IsFormatError()
  {
    match Parse(t)
    case Ok(ps) => Ok(Fill(ps, protocol, url))
    case Err(e) => Err(e)
  }

  /** `string.Join(" ", xs)`: the templates in order, a single space between two
      neighbours. When no template holds a space, cutting the joined text at its
      spaces gives the templates back, so joining loses nothing. */
  function JoinWithSpaces(xs: seq<string>): (r: string)
    ensures xs != [] && NoSpaces(xs) ==> SplitAtSpaces(r) == xs
  {
    if xs == [] then ""
    else if |xs| == 1 then
      SplitWord(xs[0]);
      xs[0]
    else
      var rest := JoinWithSpaces(xs[1..]);
      SplitWordThenSpace(xs[0], rest);
      xs[0] + " " + rest
  }

  predicate NoSpace(w: string) {
    forall i :: 0 <= i < |w| ==> w[i] != ' '
  }

  predicate NoSpaces(xs: seq<string>) {
    forall j :: 0 <= j < |xs| ==> NoSpace(xs[j])
  }

  /** The text cut at every space, as `s.Split(' ')` does: one part more than
      there are spaces, empty parts included. */
  function SplitAtSpaces(s: string): (r: seq<string>)
    ensures |r| >= 1
  {
    if s == [] then [""]
    else
      var rest := SplitAtSpaces(s[1..]);
      if s[0] == ' ' then [""] + rest
      else [[s[0]] + rest[0]] + rest[1..]
  }

  /** A text without spaces is a single part. */
  lemma {:induction false} SplitWord(w: string)
    ensures NoSpace(w) ==> SplitAtSpaces(w) == [w]
  {
    if w != [] && NoSpace(w) {
      SplitWord(w[1..]);
      assert [w[0]] + w[1..] == w;
    }
  }

  /** A word without spaces followed by a space and more text is the word's part
      followed by the parts of the text. */
  lemma {:induction false} SplitWordThenSpace(w: string, s: string)
    ensures NoSpace(w) ==> SplitAtSpaces(w + " " + s) == [w] + SplitAtSpaces(s)
  {
    if NoSpace(w) {
      if w == [] {
        assert w + " " + s == [' '] + s;
        assert ([' '] + s)[1..] == s;
      } else {
        SplitWordThenSpace(w[1..], s);
        var all := w + " " + s;
        assert all[0] == w[0] && all[1..] == w[1..] + " " + s;
        assert [w[0]] + w[1..] == w;
      }
    }
  }

  /** Every template this model accepts is read back from its own pieces. */
  lemma {:induction false} ParsePrint(ps: seq<Piece>)
    ensures Parse(Print(ps)) == Ok(ps)
  {
    if ps != [] {
      ParsePrint(ps[1..]);
      var rest := Print(ps[1..]);
      var t := Print(ps);
      assert t == PrintPiece(ps[0]) + rest;
      assert ps == [ps[0]] + ps[1..];
      match ps[0]
      case Literal(c) =>
        if c == '{' || c == '}' {
          assert t[0] == c && t[1] == c && t[2..] == rest;
        } else {
          assert t[0] == c && t[1..] == rest;
        }
      case ProtocolSlot =>
        assert t[0] == '{' && t[1] == '0' && t[2] == '}' && t[3..] == rest;
      case UrlSlot =>
        assert t[0] == '{' && t[1] == '1' && t[2] == '}' && t[3..] == rest;
    }
  }

  /** Reading a template loses nothing: printing its pieces gives the template back. */
  lemma {:induction false} PrintParse(t: string)
    requires Parse(t).Ok?
    ensures Print(Parse(t).value) == t
    decreases |t|
  {
    if t != [] {
      var ps := Parse(t).value;
      var (p, w) := Lead(t).value;
      assert ps == [p] + Parse(t[w..]).value;
      PrintParse(t[w..]);
      assert ps[1..] == Parse(t[w..]).value;
      LeadPrints(t);
      assert t == t[..w] + t[w..];
    }
  }

  /** The first piece of a template is written as the characters it was read from. */
  lemma LeadPrints(t: string)
    requires t != [] && Lead(t).Ok?
    ensures PrintPiece(Lead(t).value.0) == t[..Lead(t).value.1]
  {
  }

  /** The first piece of a template does not depend on what follows it. */
  lemma LeadAppend(a: string, b: string)
    requires a != [] && Lead(a).Ok?
    ensures Lead(a + b) == Lead(a)
  {
    var ab := a + b;
    assert ab[0] == a[0];
    if |a| >= 2 { assert ab[1] == a[1]; }
    if |a| >= 3 { assert ab[2] == a[2]; }
  }

  /** A template with no brace is formatted to itself, whatever the protocol and address. */
  lemma {:induction false} FormatWithoutBraces(t: string, protocol: string, url: string)
    requires forall i :: 0 <= i < |t| ==> t[i] != '{' && t[i] != '}'
    ensures Format(t, protocol, url) == Ok(t)
    decreases |t|
  {
    if t != [] {
      FormatWithoutBraces(t[1..], protocol, url);
      var ps := Parse(t[1..]).value;
      assert Parse(t) == Ok([Literal(t[0])] + ps);
      assert ([Literal(t[0])] + ps)[1..] == ps;
      assert t == [t[0]] + t[1..];
    }
  }

  /** Reading a concatenation: the pieces of a template that reads on its own,
      then the pieces of the rest, or the rest's failure. */
  lemma {:induction false} ParseConcat(a: string, b: string)
    requires Parse(a).Ok?
    ensures Parse(a + b) == Prepend(Parse(a).value, Parse(b))
    decreases |a|
  {
    if a == [] {
      assert a + b == b;
      if Parse(b).Ok? { assert [] + Parse(b).value == Parse(b).value; }
    } else {
      var (p, w) := Lead(a).value;
      LeadAppend(a, b);
      var rest := Parse(a[w..]).value;
      assert Parse(a) == Ok([p] + rest);
      assert (a + b)[w..] == a[w..] + b;
      calc {
        Parse(a + b);
        Prepend([p], Parse(a[w..] + b));
        { ParseConcat(a[w..], b); }
        Prepend([p], Prepend(rest, Parse(b)));
        { PrependTwice([p], rest, Parse(b)); }
        Prepend([p] + rest, Parse(b));
      }
    }
  }

  /** A template that reads on its own reads the same in front of any text:
      formatting the concatenation is concatenating the formatted parts. */
  lemma ParseAppend(a: string, b: string)
    requires Parse(a).Ok?
    ensures Parse(b).Ok? ==> Parse(a + b) == Ok(Parse(a).value + Parse(b).value)
    ensures Parse(b).Err? ==> Parse(a + b) == Parse(b)
  {
    ParseConcat(a, b);
  }

  lemma {:induction false} FillAppend(ps: seq<Piece>, qs: seq<Piece>, protocol: string, url: string)
    ensures Fill(ps + qs, protocol, url) == Fill(ps, protocol, url) + Fill(qs, protocol, url)
  {
    if ps == [] {
      assert ps + qs == qs;
    } else {
      assert (ps + qs)[1..] == ps[1..] + qs;
      FillAppend(ps[1..], qs, protocol, url);
    }
  }

  /** Formats each template on its own; fails at the first that does not read. */
  function FormatEach(ts: seq<string>, protocol: string, url: string): (r: Result<seq<string>>)
    ensures r.Ok? ==> |r.value| == |ts|
  {
    if ts == [] then Ok([])
    else
      match Format(ts[0], protocol, url)
      case Err(e) => Err(e)
      case Ok(s) =>
        match FormatEach(ts[1..], protocol, url)
        case Err(e) => Err(e)
        case Ok(ss) => Ok([s] + ss)
  }

  /** Two templates that read on their own, joined by a space, format to their
      formatted texts joined by a space. */
  lemma FormatAroundSpace(head: string, rest: string, protocol: string, url: string)
    requires Parse(head).Ok? && Parse(rest).Ok?
    ensures Format(head + " " + rest, protocol, url)
      == Ok(Format(head, protocol, url).value + " " + Format(rest, protocol, url).value)
  {
    var ph, qs := Parse(head).value, Parse(rest).value;
    var tail := " " + rest;
    assert tail[0] == ' ' && tail[1..] == rest;
    assert Parse(tail) == Prepend([Literal(' ')], Parse(rest));
    assert head + " " + rest == head + tail;
    ParseAppend(head, tail);
    var ps := ph + ([Literal(' ')] + qs);
    assert Parse(head + " " + rest) == Ok(ps);
    calc {
      Fill(ps, protocol, url);
      { FillAppend(ph, [Literal(' ')] + qs, protocol, url); }
      Fill(ph, protocol, url) + Fill([Literal(' ')] + qs, protocol, url);
      { FillAppend([Literal(' ')], qs, protocol, url); }
      Fill(ph, protocol, url) + (Fill([Literal(' ')], protocol, url) + Fill(qs, protocol, url));
      { assert Fill([Literal(' ')], protocol, url) == " "; }
      Fill(ph, protocol, url) + " " + Fill(qs, protocol, url);
    }
  }

  /** When every argument template reads on its own, substituting in the joined
      templates (as the program does) gives the same text as substituting in each
      template and then joining. */
  lemma {:induction false} FormatJoinCommutes(ts: seq<string>, protocol: string, url: string)
    requires FormatEach(ts, protocol, url).Ok?
    ensures Format(JoinWithSpaces(ts), protocol, url) == Ok(JoinWithSpaces(FormatEach(ts, protocol, url).value))
  {
    var fs := FormatEach(ts, protocol, url).value;
    if ts == [] {
      assert Parse("") == Ok([]);
    } else if |ts| == 1 {
      assert fs == [Format(ts[0], protocol, url).value];
    } else {
      var rest := JoinWithSpaces(ts[1..]);
      assert Format(ts[0], protocol, url) == Ok(fs[0]);
      assert fs[1..] == FormatEach(ts[1..], protocol, url).value;
      FormatJoinCommutes(ts[1..], protocol, url);
      assert Parse(rest).Ok?;
      FormatAroundSpace(ts[0], rest, protocol, url);
      assert JoinWithSpaces(ts) == ts[0] + " " + rest;
      assert JoinWithSpaces(fs) == fs[0] + " " + JoinWithSpaces(fs[1..]);
    }
  }

  /** Both slots with literal text between them: `{0}-{1}` with protocol `rdp` and
      address `10.0.0.1` gives `rdp-10.0.0.1`. */
  lemma FormatBothSlots(sep: string, protocol: string, url: string)
    requires forall i :: 0 <= i < |sep| ==> sep[i] != '{' && sep[i] != '}'
    ensures Format("{0}" + sep + "{1}", protocol, url) == Ok(protocol + sep + url)
  {
    var slot := "{0}";
    assert Lead(slot) == Ok((ProtocolSlot, 3));
    assert slot[3..] == [];
    assert [ProtocolSlot] + [] == [ProtocolSlot];
    assert Parse(slot) == Ok([ProtocolSlot]);
    FormatTextThenUrl(sep, protocol, url);
    var qs := Parse(sep + "{1}").value;
    assert "{0}" + sep + "{1}" == slot + (sep + "{1}");
    ParseAppend(slot, sep + "{1}");
    assert Fill(qs, protocol, url) == sep + url;
    assert Parse("{0}" + sep + "{1}") == Ok([ProtocolSlot] + qs);
    FillAppend([ProtocolSlot], qs, protocol, url);
    assert Fill([ProtocolSlot], protocol, url) == protocol;
    assert protocol + (sep + url) == protocol + sep + url;
  }

  /** Literal text followed by the address slot, as in the help text's `/v:{1}`. */
  lemma FormatTextThenUrl(text: string, protocol: string, url: string)
    requires forall i :: 0 <= i < |text| ==> text[i] != '{' && text[i] != '}'
    ensures Format(text + "{1}", protocol, url) == Ok(text + url)
  {
    FormatWithoutBraces(text, protocol, url);
    var ps := Parse(text).value;
    var slot := "{1}";
    assert Lead(slot) == Ok((UrlSlot, 3));
    assert slot[3..] == [];
    assert [UrlSlot] + [] == [UrlSlot];
    assert Parse(slot) == Ok([UrlSlot]);
    ParseAppend(text, slot);
    FillAppend(ps, [UrlSlot], protocol, url);
    assert Fill([UrlSlot], protocol, url) == url;
  }

  /** Doubled braces stand for single ones. */
  lemma FormatEscapes(protocol: string, url: string)
    ensures Format("}}{{", protocol, url) == Ok("}{")
  {
    var rs := [Literal('}'), Literal('{')];
    assert Print(rs) == "}}{{";
    ParsePrint(rs);
    assert Parse("}}{{") == Ok(rs);
    assert rs[1..] == [Literal('{')] && [Literal('{')][1..] == [];
    assert Fill([Literal('{')], protocol, url) == "{";
    assert Fill(rs, protocol, url) == "}{";
  }

  /** A placeholder index of 2 or more is out of range, also with more digits or
      other text after it; a lone brace and a placeholder cut short by the end of
      the template are format errors. */
  lemma FormatErrors(protocol: string, url: string)
    ensures Format("{2}", protocol, url) == Err(IndexOutOfRange)
    ensures Format("{12}", protocol, url) == Err(IndexOutOfRange)
    ensures Format("{2x", protocol, url) == Err(IndexOutOfRange)
    ensures Format("{2", protocol, url) == Err(InvalidFormat)
    ensures Format("{", protocol, url) == Err(InvalidFormat)
    ensures Format("a}b", protocol, url) == Err(InvalidFormat)
    ensures Format("{0", protocol, url) == Err(InvalidFormat)
    ensures Format("{0x}", protocol, url) == Err(InvalidFormat)
  {
    assert Parse("}b") == Err(InvalidFormat);
    assert "a}b"[1..] == "}b";
  }
}
