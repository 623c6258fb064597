/** The URL splitter (`split`): it matches the URL against UrlPattern,
    `^(\w+)://(.+?)(?:/(.*))?$`, and returns group 1 as the protocol and group 2
    as the address; the path in group 3 is dropped. Here the regular expression is
    written out twice: as the predicate PatternMatch, which says when the pattern
    matches with given groups, and as the function Split, which computes the
    groups; the lemmas prove that Split returns the match a lazy `.+?` picks. */
module UrlSplit {
  import opened Errors

  /** The parts of a URL: `url` is the address, between `://` and the first `/` after it. */
  datatype UrlParts = UrlParts(protocol: string, url: string)

  /** A character of the class `\w` (restricted to ASCII here). */
  predicate IsWordChar(c: char) {
    ('a' <= c <= 'z') || ('A' <= c <= 'Z') || ('0' <= c <= '9') || c == '_'
  }

  predicate IsWord(s: string) {
    forall i :: 0 <= i < |s| ==> IsWordChar(s[i])
  }

  /** Text that `.` matches character by character: no newline. */
  predicate IsLine(s: string) {
    forall i :: 0 <= i < |s| ==> s[i] != '\n'
  }

  /** Text that `.*$` matches: a line, then the end or a final newline. */
  predicate IsLineThenEnd(t: string) {
    IsLine(t) || (|t| > 0 && t[|t| - 1] == '\n' && IsLine(t[..|t| - 1]))
  }

  /** Text that `(?:/(.*))?$` matches: nothing but `$`, or a `/` and a line. */
  predicate TailMatches(t: string) {
    t == [] || t == ['\n'] || (|t| > 0 && t[0] == '/' && IsLineThenEnd(t[1..]))
  }

  /** UrlPattern matches `s` with `p` as group 1 and `a` as group 2. */
  predicate PatternMatch(s: string, p: string, a: string) {
    var n := |p| + 3 + |a|;
    |p| > 0 && IsWord(p) && |a| > 0 && IsLine(a) &&
    n <= |s| && s[..n] == p + "://" + a && TailMatches(s[n..])
  }

  /** The length of the longest run of word characters at the start of `s`. */
  function WordPrefixLength(s: string): (k: nat)
    ensures k <= |s| && IsWord(s[..k])
    ensures k == |s| || !IsWordChar(s[k])
  {
    if s == [] || !IsWordChar(s[0]) then 0
    else
      var k := 1 + WordPrefixLength(s[1..]);
      assert s[..k] == [s[0]] + s[1..][..k - 1];
      k
  }

  /** The longest run of word characters ends where a word character is followed
      by a non-word character or the end. */
  lemma {:induction false} WordPrefixLengthIs(s: string, k: nat)
    requires k <= |s| && IsWord(s[..k]) && (k == |s| || !IsWordChar(s[k]))
    ensures WordPrefixLength(s) == k
  {
    if k > 0 {
      assert s[..k][0] == s[0];
      assert s[1..][..k - 1] == s[..k][1..];
      WordPrefixLengthIs(s[1..], k - 1);
    }
  }

  /** `r` without one final newline, if it has one. */
  function DropFinalNewline(r: string): (b: string)
    ensures b == r || (r == b + ['\n'])
  {
    if |r| > 0 && r[|r| - 1] == '\n' then r[..|r| - 1] else r
  }

  /** The length of the lazily matched address: the first position after the first
      character that is the end or a `/`. */
  function AddressLength(r: string): (n: nat)
    requires |r| > 0
    ensures 1 <= n <= |r| && (n == |r| || r[n] == '/')
    ensures forall m :: 1 <= m < n ==> r[m] != '/'
  {
    if |r| == 1 || r[1] == '/' then 1
    else 1 + AddressLength(r[1..])
  }

  /** The lazy address ends at the first `/` after its first character, or at the end. */
  lemma {:induction false} AddressLengthIs(r: string, n: nat)
    requires 1 <= n <= |r| && (n == |r| || r[n] == '/')
    requires forall m :: 1 <= m < n ==> r[m] != '/'
    ensures AddressLength(r) == n
  {
    if n > 1 {
      assert r[1] != '/';
      assert forall m :: 1 <= m < n - 1 ==> r[1..][m] == r[m + 1];
      AddressLengthIs(r[1..], n - 1);
    }
  }

  /** `split`: no URL gives empty parts; a URL that UrlPattern does not match is refused. */
  function Split(input: Option<string>): (r: Result<UrlParts>)
    ensures input.None? ==> r == Ok(UrlParts("", ""))
    ensures r.Err? ==> r.error == UrlMismatch
  {
    match input
    case None => Ok(UrlParts("", ""))
    case Some(s) =>
      var k := WordPrefixLength(s);
      if k == 0 || |s| < k + 3 || s[k..k + 3] != "://" then Err(UrlMismatch)
      else
        var body := DropFinalNewline(s[k + 3..]);
        if body == [] || !IsLine(body) then Err(UrlMismatch)
        else
          Ok(UrlParts(s[..k], body[..AddressLength(body)]))
  }

  /** Whatever Split returns is a match of UrlPattern. */
  lemma SplitSound(s: string)
    requires Split(Some(s)).Ok?
    ensures PatternMatch(s, Split(Some(s)).value.protocol, Split(Some(s)).value.url)
  {
    var k := WordPrefixLength(s);
    assert k > 0 && k + 3 <= |s| && s[k..k + 3] == "://";
    var body := DropFinalNewline(s[k + 3..]);
    assert body != [] && IsLine(body);
    SplitOfScheme(s, k, body);
    MatchOfScheme(s, k, body);
  }

  /** A word, `://` and a line after it make a match whose address is the lazy one. */
  lemma MatchOfScheme(s: string, k: nat, body: string)
    requires k > 0 && k + 3 <= |s| && IsWord(s[..k]) && s[k..k + 3] == "://"
    requires body == DropFinalNewline(s[k + 3..]) && body != [] && IsLine(body)
    ensures PatternMatch(s, s[..k], body[..AddressLength(body)])
  {
    var r := s[k + 3..];
    var n := AddressLength(body);
    TailAfterAddress(r, n);
    assert r[n..] == s[k + 3 + n..];
    assert body[..n] == s[k + 3..k + 3 + n] by {
      assert body == r || body == r[..|r| - 1];
    }
    MatchAt(s, k, n);
  }

  /** A word, `://`, a non-empty line and a tail that `(?:/(.*))?$` matches, read
      at their positions in `s`, make a match. */
  lemma MatchAt(s: string, k: nat, n: nat)
    requires k > 0 && n > 0 && k + 3 + n <= |s| && IsWord(s[..k]) && s[k..k + 3] == "://"
    requires IsLine(s[k + 3..k + 3 + n]) && TailMatches(s[k + 3 + n..])
    ensures PatternMatch(s, s[..k], s[k + 3..k + 3 + n])
  {
    assert s[..k + 3 + n] == s[..k] + s[k..k + 3] + s[k + 3..k + 3 + n];
  }

  /** A protocol, `://`, an address and a tail that `(?:/(.*))?$` matches make a match. */
  lemma MatchOf(p: string, a: string, tail: string)
    requires |p| > 0 && IsWord(p) && |a| > 0 && IsLine(a) && TailMatches(tail)
    ensures PatternMatch(p + "://" + a + tail, p, a)
  {
    var s := p + "://" + a + tail;
    var n := |p| + 3 + |a|;
    assert s[..n] == p + "://" + a;
    assert s[n..] == tail;
  }

  /** After the lazily matched address, the rest of the text is what `(?:/(.*))?$` matches. */
  lemma TailAfterAddress(r: string, n: nat)
    requires DropFinalNewline(r) != [] && IsLine(DropFinalNewline(r))
    requires n == AddressLength(DropFinalNewline(r))
    ensures TailMatches(r[n..])
  {
    var body := DropFinalNewline(r);
    var nl := r[|body|..];
    assert nl == [] || nl == ['\n'];
    assert r == body + nl;
    if n == |body| {
      assert r[n..] == nl;
    } else {
      var line := body[n + 1..];
      assert body[n..] == ['/'] + line;
      assert r[n..] == ['/'] + line + nl;
      SlashTail(line, nl);
    }
  }

  /** A `/`, a line and the end or a final newline: what `(?:/(.*))?$` matches. */
  lemma SlashTail(line: string, nl: string)
    requires IsLine(line) && (nl == [] || nl == ['\n'])
    ensures TailMatches(['/'] + line + nl)
  {
    var t := ['/'] + line + nl;
    assert t[1..] == line + nl;
    if nl != [] {
      assert (line + nl)[..|line|] == line;
    }
  }

  /** Any match of UrlPattern has the protocol Split returns, and an address of
      which Split's is a prefix: Split finds a match exactly when there is one,
      and its address is the shortest one, as the lazy `.+?` takes it. */
  lemma SplitLeast(s: string, p: string, a: string)
    requires PatternMatch(s, p, a)
    ensures Split(Some(s)).Ok?
    ensures Split(Some(s)).value.protocol == p
    ensures |Split(Some(s)).value.url| <= |a| && a[..|Split(Some(s)).value.url|] == Split(Some(s)).value.url
  {
    var body := BodyAfterScheme(s, p, a);
    var m := AddressLength(body);
    assert m <= |a|;
    SplitOfScheme(s, |p|, body);
  }

  /** In a match, the text after the protocol and `://`, less a final newline,
      starts with group 2 and goes on with nothing or with `/`. */
  lemma BodyAfterScheme(s: string, p: string, a: string) returns (body: string)
    requires PatternMatch(s, p, a)
    ensures WordPrefixLength(s) == |p| && s[..|p|] == p && s[|p|..|p| + 3] == "://"
    ensures |p| + 3 <= |s| && body == DropFinalNewline(s[|p| + 3..])
    ensures |body| >= |a| && body[..|a|] == a && IsLine(body) && (|body| == |a| || body[|a|] == '/')
  {
    SchemeOfMatch(s, p, a);
    var k := |p|;
    var n := k + 3 + |a|;
    var r := s[k + 3..];
    assert (p + "://" + a)[k + 3..] == a;
    assert s[..n][k + 3..] == a;
    assert r[..|a|] == s[..n][k + 3..];
    assert r[|a|..] == s[n..];
    BodyOfMatch(r, a);
    body := DropFinalNewline(r);
  }

  /** What Split returns once the protocol and `://` are found and the rest is a line. */
  lemma SplitOfScheme(s: string, k: nat, body: string)
    requires k > 0 && k + 3 <= |s| && WordPrefixLength(s) == k && s[k..k + 3] == "://"
    requires body == DropFinalNewline(s[k + 3..]) && body != [] && IsLine(body)
    ensures Split(Some(s)) == Ok(UrlParts(s[..k], body[..AddressLength(body)]))
  {
  }

  /** In a match, group 1 is the longest run of word characters, and `://` follows it. */
  lemma SchemeOfMatch(s: string, p: string, a: string)
    requires PatternMatch(s, p, a)
    ensures WordPrefixLength(s) == |p| && s[..|p|] == p && s[|p|..|p| + 3] == "://"
  {
    var n := |p| + 3 + |a|;
    assert s[..n][..|p|] == p && s[..n][|p|..|p| + 3] == "://";
    assert s[..|p|] == p && s[|p|..|p| + 3] == "://";
    assert IsWord(s[..|p|]) && !IsWordChar(s[|p|]);
    WordPrefixLengthIs(s, |p|);
  }

  /** In a match, the text after `://` less a final newline is a line that starts
      with group 2 and goes on with nothing or with `/`. */
  lemma BodyOfMatch(r: string, a: string)
    requires |a| > 0 && IsLine(a) && |a| <= |r| && r[..|a|] == a && TailMatches(r[|a|..])
    ensures var body := DropFinalNewline(r);
      |body| >= |a| && body[..|a|] == a && IsLine(body) && (|body| == |a| || body[|a|] == '/')
  {
    var t := r[|a|..];
    assert r == a + t;
    if t == [] || t == ['\n'] {
      assert DropFinalNewline(r) == a;
    } else {
      var x := t[1..];
      assert t == ['/'] + x;
      if IsLine(x) {
        assert r[|r| - 1] != '\n' by {
          if |x| == 0 { assert r[|r| - 1] == '/'; } else { assert r[|r| - 1] == x[|x| - 1]; }
        }
        LineAfterSlash(a, x);
      } else {
        var line := x[..|x| - 1];
        assert r == (a + ['/'] + line) + ['\n'];
        assert DropFinalNewline(r) == a + ['/'] + line;
        LineAfterSlash(a, line);
      }
    }
  }

  lemma LineAfterSlash(a: string, line: string)
    requires IsLine(a) && IsLine(line)
    ensures var b := a + ['/'] + line; IsLine(b) && b[..|a|] == a && b[|a|] == '/'
  {
    var b := a + ['/'] + line;
    forall i | 0 <= i < |b| ensures b[i] != '\n' {
      if i < |a| { assert b[i] == a[i]; }
      else if i > |a| { assert b[i] == line[i - |a| - 1]; }
    }
  }

  /** Split refuses a URL exactly when UrlPattern does not match it. */
  lemma SplitFailsExactlyWithoutMatch(s: string)
    ensures Split(Some(s)).Err? <==> forall p, a :: !PatternMatch(s, p, a)
  {
    if Split(Some(s)).Ok? {
      SplitSound(s);
    } else {
      forall p, a ensures !PatternMatch(s, p, a) {
        if PatternMatch(s, p, a) {
          SplitLeast(s, p, a);
        }
      }
    }
  }

  /** Round trip: an address without `/` comes back as it was, with or without a path after it. */
  lemma SplitRoundTrip(p: string, a: string, path: string)
    requires |p| > 0 && IsWord(p) && |a| > 0 && IsLine(a) && IsLine(path)
    requires forall i :: 0 <= i < |a| ==> a[i] != '/'
    ensures Split(Some(p + "://" + a)) == Ok(UrlParts(p, a))
    ensures Split(Some(p + "://" + a + "/" + path)) == Ok(UrlParts(p, a))
  {
    MatchOf(p, a, []);
    assert (['/'] + path)[1..] == path;
    MatchOf(p, a, ['/'] + path);
    assert p + "://" + a + [] == p + "://" + a;
    assert p + "://" + a + (['/'] + path) == p + "://" + a + "/" + path;
    ShortestIsWhole(p + "://" + a, p, a);
    ShortestIsWhole(p + "://" + a + "/" + path, p, a);
  }

  /** Helper for the round trip: when the address has no `/`, no shorter prefix of it matches. */
  lemma ShortestIsWhole(s: string, p: string, a: string)
    requires PatternMatch(s, p, a)
    requires forall i :: 0 <= i < |a| ==> a[i] != '/'
    ensures Split(Some(s)) == Ok(UrlParts(p, a))
  {
    var body := BodyAfterScheme(s, p, a);
    var m := AddressLength(body);
    forall i | 1 <= i < |a| ensures body[i] != '/' {
      assert body[i] == a[i];
    }
    AddressLengthIs(body, |a|);
    SplitOfScheme(s, |p|, body);
  }

  /** The example of the program's help text, and a URL with no path. */
  lemma SplitHelpExample()
    ensures Split(Some("rdp://10.0.0.1")) == Ok(UrlParts("rdp", "10.0.0.1"))
  {
    var s := "rdp://10.0.0.1";
    assert s == "rdp" + "://" + "10.0.0.1";
    assert IsWord("rdp");
    ShortestIsWhole(s, "rdp", "10.0.0.1");
  }

  /** A path of several segments is dropped at the first `/`. */
  lemma SplitDropsPath()
    ensures Split(Some("scheme://host/a/b")) == Ok(UrlParts("scheme", "host"))
  {
    var s := "scheme://host/a/b";
    assert IsWord("scheme");
    assert s[..13] == "scheme" + "://" + "host";
    assert s[13..] == "/a/b" && IsLine("a/b");
    ShortestIsWhole(s, "scheme", "host");
  }

  /** Text without `://`, and the empty text, are refused (null is not: it gives empty parts). */
  lemma SplitRefuses()
    ensures Split(Some("notaurl")) == Err(UrlMismatch)
    ensures Split(Some("")) == Err(UrlMismatch)
  {
    assert WordPrefixLength("") == 0;
    WordPrefixLengthIs("notaurl", 7);
  }

  /** The address may itself start with `/`: only a `/` after its first character ends it. */
  lemma SplitSlashFirst()
    ensures Split(Some("a:///x")) == Ok(UrlParts("a", "/x"))
  {
    var s := "a:///x";
    WordPrefixLengthIs(s, 1);
    assert s[1..4] == "://" && s[..1] == "a";
    assert s[4..] == "/x";
    assert DropFinalNewline("/x") == "/x";
    assert IsLine("/x");
    assert AddressLength("/x") == 2;
    assert "/x"[..2] == "/x";
  }
}
