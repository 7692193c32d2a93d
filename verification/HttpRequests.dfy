/** Reading requests: what the reader recovers of any request line, any header lines and any body. */
module HttpRequests {
  import opened Common
  import opened Text
  import opened Http
  import opened HttpRoundTrip

  // ----- Words of the request line -----

  /** Exactly the seven names are methods, and anything else is the unknown one. */
  lemma MethodNames(s: string)
    ensures MethodFrom(s) == GET <==> s == "GET"
    ensures MethodFrom(s) == POST <==> s == "POST"
    ensures MethodFrom(s) == PUT <==> s == "PUT"
    ensures MethodFrom(s) == DELETE <==> s == "DELETE"
    ensures MethodFrom(s) == HEAD <==> s == "HEAD"
    ensures MethodFrom(s) == OPTIONS <==> s == "OPTIONS"
    ensures MethodFrom(s) == PATCH <==> s == "PATCH"
  {
  }

  lemma MethodTexts(m: Method)
    ensures MethodFrom(MethodText(m)) == m && (m.UNKNOWN? ==> MethodText(m) == "UNKNOWN")
    ensures Word(MethodText(m)) && |MethodText(m)| <= 15
  {
  }

  /** Exactly three texts are versions; any other word leaves the version as it was. */
  lemma VersionNames(s: string, before: Version)
    ensures s == "HTTP/1.0" ==> VersionFrom(s, before) == Http10
    ensures s == "HTTP/1.1" ==> VersionFrom(s, before) == Http11
    ensures s == "HTTP/2.0" ==> VersionFrom(s, before) == Http20
    ensures s != "HTTP/1.0" && s != "HTTP/1.1" && s != "HTTP/2.0" ==> VersionFrom(s, before) == before
  {
  }

  predicate Word(s: string) {
    s != [] && '\0' !in s && forall i :: 0 <= i < |s| ==> !IsSpace(s[i])
  }

  function StartText(verb: string, uri: string, version: string): string {
    verb + " " + uri + " " + version + CRLF
  }

  lemma ScanStart(verb: string, uri: string, version: string, rest: string)
    requires Word(verb) && Word(uri) && Word(version) && |verb| <= 15 && |uri| <= 2047 && |version| <= 15
    ensures ScanRequestLine(StartText(verb, uri, version) + rest) == Some((verb, uri, version))
  {
    hide ScanWord;
    var third := " " + (version + (CRLF + rest));
    var second := " " + (uri + third);
    assert StartText(verb, uri, version) + rest == verb + second;
    ScanWordOf(verb, second, 15);
    ScanWordOf(uri, third, 2047);
    ScanWordOf(version, CRLF + rest, 15);
  }

  lemma {:induction false} LongRun(word: string, rest: string, limit: nat)
    requires limit <= |word| && forall i :: 0 <= i < |word| ==> !IsSpace(word[i])
    ensures WordRun(word + rest, limit) == limit
  {
    if limit > 0 {
      LongRun(word[1..], rest, limit - 1);
      assert (word + rest)[1..] == word[1..] + rest;
    }
  }

  /** A word longer than the limit is cut, and what is left of it is the next word. */
  lemma ScanLongWord(word: string, rest: string, limit: nat)
    requires Word(word) && 1 <= limit <= |word|
    ensures ScanWord(" " + (word + rest), limit) == Some((word[..limit], word[limit..] + rest))
    ensures ScanWord(word + rest, limit) == Some((word[..limit], word[limit..] + rest))
  {
    var s := word + rest;
    assert s[0] == word[0] && (" " + s)[1..] == s;
    assert SkipSpace(s) == s && SkipSpace(" " + s) == s;
    LongRun(word, rest, limit);
    assert s[..limit] == word[..limit] && s[limit..] == word[limit..] + rest;
  }

  /** A target longer than 2047 characters is cut there, and its next 15 characters are taken for the version. */
  lemma LongTarget(verb: string, uri: string, version: string, rest: string)
    requires Word(verb) && |verb| <= 15 && Word(uri) && |uri| > 2047
    ensures ScanRequestLine(StartText(verb, uri, version) + rest) ==
      Some((verb, uri[..2047], uri[2047..if |uri| < 2062 then |uri| else 2062]))
  {
    hide ScanWord;
    var third := " " + (version + (CRLF + rest));
    var second, tail := " " + (uri + third), uri[2047..];
    assert StartText(verb, uri, version) + rest == verb + second;
    ScanWordOf(verb, second, 15);
    ScanLongWord(uri, third, 2047);
    assert Word(tail);
    if |tail| <= 15 {
      ScanWordOf(tail, third, 15);
      assert tail == uri[2047..|uri|];
    } else {
      ScanLongWord(tail, third, 15);
      assert tail[..15] == uri[2047..2062];
    }
  }

  // ----- The target -----

  /** The target is cut at the first question mark and nothing of it is lost. */
  lemma TargetSplits(req: Request, uri: string)
    requires req.query == None
    ensures var q := WithTarget(req, uri);
      && q.verb == req.verb && q.version == req.version && q.headers == req.headers && q.body == req.body
      && q.uri == uri == (if q.query.Some? then q.path + "?" + q.query.value else q.path) && '?' !in q.path
  {
    var c := IndexOf(uri, "?", 0);
    if c.Some? {
      assert uri[c.value..c.value + 1] == "?";
      assert uri == uri[..c.value] + "?" + uri[c.value + 1..];
      forall i | 0 <= i < c.value ensures uri[i] != '?' {
        assert !MatchAt(uri, "?", i) && uri[i..i + 1] == [uri[i]];
      }
    } else {
      forall i | 0 <= i < |uri| ensures uri[i] != '?' {
        assert !MatchAt(uri, "?", i) && uri[i..i + 1] == [uri[i]];
      }
    }
  }

  // ----- Whole requests -----

  lemma StartIsClean(verb: string, uri: string, version: string)
    requires Word(verb) && Word(uri) && Word(version)
    ensures '\0' !in StartText(verb, uri, version) && '\r' !in verb + " " + uri + " " + version
  {
  }

  /** The request line is found whatever follows it. */
  lemma FindsStart(verb: string, uri: string, version: string, rest: string)
    requires Word(verb) && Word(uri) && Word(version) && |verb| <= 15 && |uri| <= 2047 && |version| <= 15
    ensures var start := StartText(verb, uri, version);
      && Visible(start + rest) == start + Visible(rest)
      && StartLine(start + rest) == Some(Line(verb, uri, version, |start| - 2))
  {
    hide IndexOf, ScanRequestLine, Visible, Word;
    var start, line, more := StartText(verb, uri, version), verb + " " + uri + " " + version, Visible(rest);
    StartIsClean(verb, uri, version);
    VisibleOf(start, rest);
    ScanStart(verb, uri, version, more);
    assert (start + more)[0..|line + CRLF|] == line + CRLF;
    LineEndsAt(start + more, 0, line);
  }

  /** A request line yields its method, its version and its target, whatever follows it. */
  lemma ReadsRequestLine(verb: string, uri: string, version: string, rest: string)
    requires Word(verb) && Word(uri) && Word(version) && |verb| <= 15 && |uri| <= 2047 && |version| <= 15
    ensures var (status, q) := Read(StartText(verb, uri, version) + rest);
      && status == Success && q.verb == MethodFrom(verb) && q.version == VersionFrom(version, VersionUnknown)
      && q.uri == uri == (if q.query.Some? then q.path + "?" + q.query.value else q.path) && '?' !in q.path
  {
    var start := StartText(verb, uri, version);
    assert start + rest != [];
    hide *;
    FindsStart(verb, uri, version, rest);
    var line := Line(verb, uri, version, |start| - 2);
    ReadIs(start + rest);
    LineGives(line);
    BlockKeepsLine(WithLine(NewRequest(), line), start + rest, |start|);
  }

  lemma BlockKeepsLine(req: Request, raw: string, start: nat)
    requires start <= |Visible(raw)| && BodyInside(raw, start, |raw|)
    ensures var q := WithHeaderBlock(req, raw, start, |raw|);
      q.verb == req.verb && q.version == req.version && q.uri == req.uri && q.path == req.path && q.query == req.query
  {
    hide IndexOf, HeaderArray, Visible, BodyInside;
  }

  function RequestText(verb: string, uri: string, version: string, lines: seq<string>, body: string): string {
    StartText(verb, uri, version) + (Block(lines) + CRLF + body)
  }

  lemma {:induction false} LinesNoNul(lines: seq<string>)
    requires forall i :: 0 <= i < |lines| ==> '\0' !in lines[i]
    ensures '\0' !in Block(lines)
  {
    if lines != [] {
      assert forall i :: 0 <= i < |lines[1..]| ==> lines[1..][i] == lines[i + 1];
      LinesNoNul(lines[1..]);
    }
  }

  function Padded(hs: seq<Header>, n: nat): seq<Header>
    requires |hs| <= n
  {
    hs + seq(n - |hs|, _ => Unfilled)
  }

  lemma {:induction false} FewerHeaders(lines: seq<string>)
    ensures |HeadersOf(lines)| <= |lines|
  {
    hide ReadLine;
    if lines != [] { FewerHeaders(lines[1..]); }
  }

  /** Where the reader finds the headers and the body of a request. */
  lemma BlockFound(start: string, lines: seq<string>, body: string)
    requires lines != [] && Proper(lines) && '\0' !in start && forall i :: 0 <= i < |lines| ==> '\0' !in lines[i]
    ensures var raw, end := start + (Block(lines) + CRLF + body), |start| + |Block(lines)| - 2;
      var t := Visible(raw);
      && |start| <= |t| && 0 <= end <= |t| && end + 4 <= |raw| && raw[end + 4..] == body
      && IndexOf(t, BLANK_LINE, |start|) == Some(end)
      && LineHeaders(t, |start|, end) == HeadersOf(lines) && CountLines(t, |start|, end) == |lines|
  {
    hide IndexOf, Visible, LineHeaders, CountLines, HeadersOf, Proper;
    var block := Block(lines);
    hide Block;
    var head := start + block + CRLF;
    LinesNoNul(lines);
    assert start + (block + CRLF + body) == head + body;
    VisibleOf(head, body);
    var t := head + Visible(body);
    assert t[|start|..|start| + |block + CRLF|] == block + CRLF;
    BlockIn(t, |start|, lines);
  }

  lemma BlockGives(req: Request, raw: string, start: nat, end: nat, hs: seq<Header>, n: nat, body: string)
    requires start <= |Visible(raw)| && IndexOf(Visible(raw), BLANK_LINE, start) == Some(end)
    requires end <= |Visible(raw)| && end + 4 <= |raw| && raw[end + 4..] == body && BodyInside(raw, start, |raw|)
    requires LineHeaders(Visible(raw), start, end) == hs && CountLines(Visible(raw), start, end) == n && |hs| <= n
    requires req.headers == [] && req.body == []
    ensures var q := WithHeaderBlock(req, raw, start, |raw|); q == req.(headers := Padded(hs, n), body := body)
  {
    hide IndexOf, Visible, LineHeaders, CountLines, BodyInside;
  }

  /**
   For any method, target and version words and any header lines, with or without a colon: the reader
   recovers method, version and target, the headers of the lines that have a colon in order, one slot per
   line, and the body whole.
   */
  lemma ReadsRequest(verb: string, uri: string, version: string, lines: seq<string>, body: string)
    requires Word(verb) && Word(uri) && Word(version) && |verb| <= 15 && |uri| <= 2047 && |version| <= 15
    requires lines != [] && Proper(lines) && forall i :: 0 <= i < |lines| ==> '\0' !in lines[i]
    ensures |HeadersOf(lines)| <= |lines|
    ensures var (status, q) := Read(RequestText(verb, uri, version, lines, body));
      && status == Success && q.verb == MethodFrom(verb) && q.version == VersionFrom(version, VersionUnknown)
      && q.uri == uri == (if q.query.Some? then q.path + "?" + q.query.value else q.path) && '?' !in q.path
      && q.headers == Padded(HeadersOf(lines), |lines|) && q.body == body
  {
    hide *;
    var start := StartText(verb, uri, version);
    var raw := RequestText(verb, uri, version, lines, body);
    RequestTextIs(verb, uri, version, lines, body);
    FewerHeaders(lines);
    StartIsClean(verb, uri, version);
    FindsStart(verb, uri, version, Block(lines) + CRLF + body);
    var line := Line(verb, uri, version, |start| - 2);
    ReadIs(raw);
    BlockFound(start, lines, body);
    LineGives(line);
    BlockGives(WithLine(NewRequest(), line), raw, |start|, |start| + |Block(lines)| - 2, HeadersOf(lines), |lines|, body);
  }

  lemma RequestTextIs(verb: string, uri: string, version: string, lines: seq<string>, body: string)
    ensures var raw := RequestText(verb, uri, version, lines, body);
      raw != [] && raw == StartText(verb, uri, version) + (Block(lines) + CRLF + body)
    ensures |StartText(verb, uri, version)| >= 2
  {
    hide Block;
  }

  lemma LineGives(line: Line)
    ensures var q := WithLine(NewRequest(), line);
      && q.verb == MethodFrom(line.verb) && q.version == VersionFrom(line.version, VersionUnknown)
      && q.headers == [] && q.body == []
      && q.uri == line.target == (if q.query.Some? then q.path + "?" + q.query.value else q.path) && '?' !in q.path
  {
    hide WithTarget, MethodFrom, VersionFrom;
    TargetSplits(NewRequest().(verb := MethodFrom(line.verb), version := VersionFrom(line.version, VersionUnknown)), line.target);
  }

  // ----- Reading into a used object -----

  /** What a request object holds after a message that a fresh object reads as `news`. */
  function Overlaid(req: Request, news: Request): Request {
    news.(version := if news.version == VersionUnknown then req.version else news.version,
           query := if news.query.None? then req.query else news.query,
           headers := if news.headers == [] then req.headers else news.headers,
           body := if news.body == [] then req.body else news.body)
  }

  /**
   A used object takes on the message except for what the message lacks: a query, headers, a body or a known
   version stay as they were.  A rejected message leaves it untouched.
   */
  lemma ReadIntoUsed(req: Request, raw: string, length: nat)
    requires LengthFits(raw, length)
    ensures var used, news := ParseInto(req, raw, length), ParseInto(NewRequest(), raw, length);
      used.0 == news.0 && used.1 == if used.0 == Success then Overlaid(req, news.1) else req
  {
    hide Visible, HeaderArray, IndexOf, ScanRequestLine;
  }
}
