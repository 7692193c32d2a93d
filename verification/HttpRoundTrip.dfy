/** Reading back what the writer wrote, per the common message grammar (sections 2.1 and 5 of RFC 9112). */
module HttpRoundTrip {
  import opened Common
  import opened Text
  import opened Http

  /** Text that cannot be taken for a line end or a string end. */
  predicate Clean(s: string) {
    '\r' !in s && '\n' !in s && '\0' !in s
  }

  predicate CleanFields(fs: seq<Field>) {
    forall i :: 0 <= i < |fs| ==> Clean(fs[i].name) && Clean(fs[i].value)
  }

  predicate CleanResponse(r: Response) {
    Clean(r.message) && CleanFields(r.fields)
  }

  /** `t` continues with `s` at position `p`. */
  predicate Continues(t: string, p: nat, s: string) {
    p + |s| <= |t| && t[p..p + |s|] == s
  }

  lemma ContinuesSplit(t: string, p: nat, a: string, b: string)
    requires Continues(t, p, a + b)
    ensures Continues(t, p, a) && Continues(t, p + |a|, b)
  {
    assert t[p..p + |a + b|][..|a|] == a && t[p..p + |a + b|][|a|..] == b;
  }

  lemma FirstIs(t: string, pat: string, from: nat, at: nat)
    requires from <= at && MatchAt(t, pat, at) && forall i :: from <= i < at ==> !MatchAt(t, pat, i)
    ensures from <= |t| && IndexOf(t, pat, from) == Some(at)
  {
  }

  /** A line without CR ends at the first CRLF after its start. */
  lemma LineEndsAt(t: string, p: nat, line: string)
    requires Continues(t, p, line + CRLF) && '\r' !in line
    ensures p <= |t| && IndexOf(t, CRLF, p) == Some(p + |line|)
  {
    ContinuesSplit(t, p, line, CRLF);
    forall i | p <= i < p + |line| ensures !MatchAt(t, CRLF, i) {
      assert t[i] == line[i - p];
      assert i + 2 <= |t| ==> t[i..i + 2][0] == t[i];
    }
    FirstIs(t, CRLF, p, p + |line|);
  }

  function LineOf(f: Field): string {
    f.name + ": " + f.value
  }

  // ----- One header line -----

  /** What the reader makes of a line: name up to the first colon, value without the space in front of it. */
  function ReadLine(line: string): Option<Header> {
    if ':' !in line then None else Some(Filled(line[..ColonAt(line)], SkipSpace(line[ColonAt(line) + 1..])))
  }

  /** What the reader makes of a written field. */
  function ReadBack(f: Field): Header {
    HasColon(f);
    ReadLine(LineOf(f)).value
  }

  lemma MatchColon(s: string, i: nat)
    ensures MatchAt(s, ":", i) <==> i < |s| && s[i] == ':'
  {
    if i < |s| { assert s[i..i + 1] == [s[i]]; }
  }

  lemma FirstColon(s: string, from: nat, at: nat)
    requires from <= at < |s| && s[at] == ':' && forall i :: from <= i < at ==> s[i] != ':'
    ensures IndexOf(s, ":", from) == Some(at)
  {
    hide MatchAt, IndexOf;
    MatchColon(s, at);
    forall i | from <= i < at ensures !MatchAt(s, ":", i) { MatchColon(s, i); }
    FirstIs(s, ":", from, at);
  }

  /** Position of the first colon. */
  function ColonAt(s: string): (c: nat)
    requires ':' in s
    ensures c < |s| && s[c] == ':' && forall i :: 0 <= i < c ==> s[i] != ':'
  {
    if s[0] == ':' then 0 else 1 + ColonAt(s[1..])
  }

  lemma ContinuesParts(t: string, p: nat, line: string, c: nat)
    requires Continues(t, p, line) && c <= |line|
    ensures p + |line| <= |t| && t[p..p + c] == line[..c] && t[p + c..p + |line|] == line[c..]
  {
    assert t[p..p + |line|][..c] == t[p..p + c];
    assert t[p..p + |line|][c..] == t[p + c..p + |line|];
  }

  lemma ColonIn(t: string, p: nat, line: string, c: nat)
    requires Continues(t, p, line) && c < |line| && line[c] == ':' && forall i :: 0 <= i < c ==> line[i] != ':'
    ensures p <= |t| && IndexOf(t, ":", p) == Some(p + c)
  {
    hide IndexOf;
    forall i | p <= i < p + |line| ensures t[i] == line[i - p] {
      assert t[p..p + |line|][i - p] == t[i];
    }
    FirstColon(t, p, p + c);
  }

  lemma HasColon(f: Field)
    ensures ':' in LineOf(f)
  {
    assert LineOf(f)[|f.name|] == ':';
  }

  lemma LineHeaderAt(t: string, p: nat, next: nat, colon: nat)
    requires p <= colon < next <= |t| && IndexOf(t, ":", p) == Some(colon)
    ensures LineHeader(t, p, next) == Some(Filled(t[p..colon], SkipSpace(t[colon + 1..next])))
  {
    hide SkipSpace, MatchAt;
  }

  lemma NoLineHeader(t: string, p: nat, line: string)
    requires Continues(t, p, line) && ':' !in line
    ensures p + |line| <= |t| && LineHeader(t, p, p + |line|) == None
  {
    hide MatchAt, IndexOf;
    forall i | p <= i < p + |line| ensures !MatchAt(t, ":", i) {
      MatchColon(t, i);
      assert t[p..p + |line|][i - p] == t[i];
    }
  }

  lemma ReadLineAt(line: string)
    ensures ReadLine(line) ==
      if ':' !in line then None else Some(Filled(line[..ColonAt(line)], SkipSpace(line[ColonAt(line) + 1..])))
  {
  }

  lemma LineHeaderIs(t: string, p: nat, line: string)
    requires Continues(t, p, line)
    ensures p + |line| <= |t| && LineHeader(t, p, p + |line|) == ReadLine(line)
  {
    hide *;
    ReadLineAt(line);
    if ':' !in line {
      NoLineHeader(t, p, line);
    } else {
      var c := ColonAt(line);
      FirstColon(line, 0, c);
      ColonIn(t, p, line, c);
      ContinuesParts(t, p, line, c);
      ContinuesParts(t, p, line, c + 1);
      LineHeaderAt(t, p, p + |line|, p + c);
    }
  }

  lemma ColonIs(s: string, c: nat)
    requires c < |s| && s[c] == ':' && forall i :: 0 <= i < c ==> s[i] != ':'
    ensures ':' in s && ColonAt(s) == c
  {
    hide ColonAt;
    assert ColonAt(s) <= c;
  }

  lemma ReadBackPlain(f: Field)
    requires ':' !in f.name
    ensures ReadBack(f) == Filled(f.name, SkipSpace(f.value))
  {
    var line := LineOf(f);
    ColonIs(line, |f.name|);
    assert line[|f.name| + 1..] == " " + f.value && line[..|f.name|] == f.name;
    assert (" " + f.value)[1..] == f.value;
  }

  lemma ReadBackColon(f: Field)
    requires ':' in f.name
    ensures ReadBack(f).Filled? && |ReadBack(f).name| < |f.name|
  {
    hide SkipSpace;
    ColonIs(LineOf(f), ColonAt(f.name));
  }

  /** A field comes back unchanged exactly when its name has no colon and its value does not start with space. */
  lemma ReadBackIff(f: Field)
    ensures ReadBack(f) == Filled(f.name, f.value) <==> ':' !in f.name && (f.value != [] ==> !IsSpace(f.value[0]))
  {
    hide ReadBack;
    if ':' !in f.name {
      ReadBackPlain(f);
      SkipSpaceKeeps(f.value);
    } else {
      ReadBackColon(f);
    }
  }

  lemma SkipSpaceKeeps(s: string)
    ensures SkipSpace(s) == s <==> (s != [] ==> !IsSpace(s[0]))
  {
  }

  // ----- The header block -----

  /** Lines as they stand between the request line and the blank line. */
  function Block(lines: seq<string>): string {
    if lines == [] then "" else lines[0] + CRLF + Block(lines[1..])
  }

  /** No line is empty or holds a line end. */
  predicate Proper(lines: seq<string>) {
    forall i :: 0 <= i < |lines| ==> lines[i] != [] && '\r' !in lines[i]
  }

  /** The headers of the lines that have a colon, in order. */
  function HeadersOf(lines: seq<string>): seq<Header> {
    if lines == [] then []
    else
      var h := ReadLine(lines[0]);
      (if h.Some? then [h.value] else []) + HeadersOf(lines[1..])
  }

  function LinesOf(fs: seq<Field>): (r: seq<string>)
    ensures |r| == |fs| && forall i :: 0 <= i < |fs| ==> r[i] == LineOf(fs[i])
  {
    seq(|fs|, i requires 0 <= i < |fs| => LineOf(fs[i]))
  }

  lemma {:induction false} FieldLines(fs: seq<Field>)
    requires CleanFields(fs)
    ensures FieldBlock(fs) == Block(LinesOf(fs)) && Proper(LinesOf(fs)) && HeadersOf(LinesOf(fs)) == ReadBackAll(fs)
  {
    hide LineOf, ReadLine, Clean;
    if fs != [] {
      assert CleanFields(fs[1..]);
      FieldLines(fs[1..]);
      assert LinesOf(fs)[1..] == LinesOf(fs[1..]);
      FieldLineIs(fs[0]);
      CleanLine(fs[0]);
      ReadBackFirst(fs);
      hide ReadBackAll, Proper;
      assert ReadLine(LinesOf(fs)[0]) == Some(ReadBack(fs[0])) by { ReadBackIs(fs[0]); }
      forall i | 0 <= i < |fs| ensures LinesOf(fs)[i] != [] && '\r' !in LinesOf(fs)[i] { CleanLine(fs[i]); }
      ProperIs(LinesOf(fs));
    }
  }

  lemma ProperIs(lines: seq<string>)
    requires forall i :: 0 <= i < |lines| ==> lines[i] != [] && '\r' !in lines[i]
    ensures Proper(lines)
  {
  }

  lemma FieldLineIs(f: Field)
    ensures FieldLine(f) == LineOf(f) + CRLF
  {
  }

  lemma ReadBackIs(f: Field)
    ensures ReadLine(LineOf(f)) == Some(ReadBack(f))
  {
    HasColon(f);
  }

  lemma CleanLine(f: Field)
    requires Clean(f.name) && Clean(f.value)
    ensures Clean(LineOf(f)) && LineOf(f) != [] && '\r' !in LineOf(f)
  {
    assert LineOf(f)[|f.name|] == ':';
  }

  lemma BlankAt(t: string, e: nat)
    requires Continues(t, e, CRLF)
    ensures MatchAt(t, BLANK_LINE, e) <==> Continues(t, e + 2, CRLF)
    ensures !MatchAt(t, BLANK_LINE, e + 1)
  {
    assert t[e + 1] == t[e..e + 2][1];
    if e + 4 <= |t| { assert t[e..e + 4] == t[e..e + 2] + t[e + 2..e + 4]; }
    if e + 5 <= |t| { assert t[e + 1..e + 5][0] == '\n'; }
  }

  lemma BlockStarts(lines: seq<string>, rest: string)
    requires lines != []
    ensures Block(lines) + rest == lines[0] + CRLF + (Block(lines[1..]) + rest)
  {
  }

  /** The first line of a block, its end, and what follows. */
  lemma FirstLineOf(t: string, p: nat, lines: seq<string>, rest: string)
    requires lines != [] && Proper(lines) && Continues(t, p, Block(lines) + rest)
    ensures var line := lines[0];
      var e := p + |line|;
      && Continues(t, p, line) && Continues(t, e, CRLF) && Continues(t, p, line + CRLF)
      && Continues(t, e + 2, Block(lines[1..]) + rest)
      && '\r' !in line && line != [] && Proper(lines[1..])
      && |Block(lines)| == |line| + 2 + |Block(lines[1..])| && e + 2 <= |t|
  {
    hide Continues;
    var line := lines[0];
    BlockStarts(lines, rest);
    ContinuesSplit(t, p, line + CRLF, Block(lines[1..]) + rest);
    ContinuesSplit(t, p, line, CRLF);
    ContinuesInside(t, p, line + CRLF);
  }

  lemma ContinuesInside(t: string, p: nat, s: string)
    requires Continues(t, p, s)
    ensures p + |s| <= |t|
  {
  }

  /** The first blank line after a non-empty block of lines is the one written after it. */
  lemma {:induction false} BlankLineAt(t: string, p: nat, lines: seq<string>)
    requires lines != [] && Proper(lines) && Continues(t, p, Block(lines) + CRLF)
    ensures p <= |t| && |Block(lines)| >= 2 && IndexOf(t, BLANK_LINE, p) == Some(p + |Block(lines)| - 2)
    decreases |lines|
  {
    hide IndexOf, MatchAt, Proper, Continues;
    FirstLineOf(t, p, lines, CRLF);
    var e := p + |lines[0]|;
    NoBlankBefore(t, p, lines[0]);
    BlankAt(t, e);
    if |lines| == 1 {
      assert lines[1..] == [] && Block([]) + CRLF == CRLF;
      FirstIs(t, BLANK_LINE, p, e);
    } else {
      hide Block;
      BlankLineAt(t, e + 2, lines[1..]);
      NextLineStarts(t, e + 2, lines[1..]);
      FirstIs(t, BLANK_LINE, p, e + |Block(lines[1..])|);
    }
  }

  /** A line does not start with a line end. */
  lemma NextLineStarts(t: string, p: nat, lines: seq<string>)
    requires lines != [] && Proper(lines) && Continues(t, p, Block(lines) + CRLF)
    ensures !Continues(t, p, CRLF)
  {
    hide Block;
    FirstLineOf(t, p, lines, CRLF);
    var line := lines[0];
    assert t[p..p + |line|][0] == line[0];
    if p + 2 <= |t| { assert t[p..p + 2][0] == t[p]; }
  }

  lemma NoBlankBefore(t: string, p: nat, line: string)
    requires Continues(t, p, line) && '\r' !in line
    ensures forall i :: p <= i < p + |line| ==> !MatchAt(t, BLANK_LINE, i)
  {
    forall i | p <= i < p + |line| ensures !MatchAt(t, BLANK_LINE, i) {
      assert t[i] == line[i - p];
      assert i + 4 <= |t| ==> t[i..i + 4][0] == t[i];
    }
  }

  function ReadBackAll(fs: seq<Field>): (r: seq<Header>)
    ensures |r| == |fs| && forall i :: 0 <= i < |fs| ==> r[i] == ReadBack(fs[i])
  {
    seq(|fs|, i requires 0 <= i < |fs| => ReadBack(fs[i]))
  }

  /** The reader's loops over a block of lines find each header once, in order. */
  lemma {:induction false} BlockReads(t: string, p: nat, lines: seq<string>, end: nat)
    requires Proper(lines) && Continues(t, p, Block(lines)) && end == p + |Block(lines)| - 2 && end <= |t| && p <= |t|
    ensures LineHeaders(t, p, end) == HeadersOf(lines) && CountLines(t, p, end) == |lines|
    decreases |lines|
  {
    hide *;
    LineStep(t, p, end);
    if lines == [] {
      assert Block(lines) == "" && HeadersOf(lines) == [] by { EmptyBlock(); }
    } else {
      assert Block(lines) + "" == Block(lines) && Block(lines[1..]) + "" == Block(lines[1..]);
      FirstLineOf(t, p, lines, "");
      var line := lines[0];
      LineEndsAt(t, p, line);
      LineHeaderIs(t, p, line);
      BlockReads(t, p + |line| + 2, lines[1..], end);
      HeadersFirst(lines);
    }
  }

  lemma EmptyBlock()
    ensures Block([]) == "" && HeadersOf([]) == []
  {
  }

  lemma HeadersFirst(lines: seq<string>)
    requires lines != []
    ensures var h := ReadLine(lines[0]); HeadersOf(lines) == (if h.Some? then [h.value] else []) + HeadersOf(lines[1..])
  {
    hide ReadLine;
  }

  lemma ReadBackFirst(fs: seq<Field>)
    requires fs != []
    ensures ReadBackAll(fs) == [ReadBack(fs[0])] + ReadBackAll(fs[1..])
  {
    hide ReadBack;
  }

  // ----- The status line, scanned as a request line -----

  predicate HasWord(s: string) {
    exists i :: 0 <= i < |s| && !IsSpace(s[i])
  }

  lemma {:induction false} SkipSpaceEmpty(s: string)
    ensures SkipSpace(s) == [] <==> !HasWord(s)
    ensures SkipSpace(s) != [] ==> !IsSpace(SkipSpace(s)[0])
  {
    if s != [] && IsSpace(s[0]) {
      SkipSpaceEmpty(s[1..]);
      assert HasWord(s) ==> HasWord(s[1..]) by {
        if HasWord(s) {
          var i :| 0 <= i < |s| && !IsSpace(s[i]);
          assert s[1..][i - 1] == s[i];
        }
      }
      assert HasWord(s[1..]) ==> HasWord(s) by {
        if HasWord(s[1..]) {
          var i :| 0 <= i < |s[1..]| && !IsSpace(s[1..][i]);
          assert s[i + 1] == s[1..][i];
        }
      }
    }
  }

  lemma ScanWordSome(s: string, limit: nat)
    requires limit >= 1
    ensures ScanWord(s, limit).Some? <==> HasWord(s)
  {
    SkipSpaceEmpty(s);
  }

  lemma {:induction false} WordRunOf(word: string, rest: string, limit: nat)
    requires |word| <= limit && (forall i :: 0 <= i < |word| ==> !IsSpace(word[i])) && rest != [] && IsSpace(rest[0])
    ensures WordRun(word + rest, limit) == |word|
  {
    if word == [] {
      assert word + rest == rest;
    } else {
      WordRunOf(word[1..], rest, limit - 1);
      assert (word + rest)[1..] == word[1..] + rest;
    }
  }

  lemma ScanWordOf(word: string, rest: string, limit: nat)
    requires word != [] && |word| <= limit && (forall i :: 0 <= i < |word| ==> !IsSpace(word[i]))
    requires rest != [] && IsSpace(rest[0])
    ensures ScanWord(word + rest, limit) == Some((word, rest)) && ScanWord(" " + (word + rest), limit) == Some((word, rest))
  {
    var s := word + rest;
    assert s[0] == word[0];
    WordRunOf(word, rest, limit);
    assert s[..|word|] == word && s[|word|..] == rest;
    assert (" " + s)[1..] == s;
  }

  lemma StatusCodeLength(n: CInt)
    ensures |SignedDecimal(n)| <= 11
  {
    assert PowerOfTen(10) == 10_000_000_000;
    var m: int := n;
    DecimalLength(if m < 0 then -m else m, 10);
  }

  /** A status line scans as a request line exactly when something follows the status code. */
  lemma ScanStatusLine(n: CInt, rest: string)
    ensures ScanRequestLine("HTTP/1.1 " + SignedDecimal(n) + " " + rest).Some? <==> HasWord(rest)
  {
    hide ScanWord, SignedDecimal;
    var code := SignedDecimal(n);
    var second := " " + (code + (" " + rest));
    assert "HTTP/1.1 " + code + " " + rest == "HTTP/1.1" + second;
    ScanWordOf("HTTP/1.1", second, 15);
    StatusCodeLength(n);
    ScanWordOf(code, " " + rest, 2047);
    ScanWordSome(" " + rest, 15);
    assert HasWord(" " + rest) <==> HasWord(rest) by { WordAfterSpace(rest); }
  }

  lemma WordAfterSpace(s: string)
    ensures HasWord(" " + s) <==> HasWord(s)
  {
    var t := " " + s;
    if HasWord(t) {
      var i :| 0 <= i < |t| && !IsSpace(t[i]);
      assert s[i - 1] == t[i];
    }
    if HasWord(s) {
      var i :| 0 <= i < |s| && !IsSpace(s[i]);
      assert t[i + 1] == s[i];
    }
  }

  // ----- What the reader sees of a written message -----

  /** The visible part is the only start of the buffer that ends at its first NUL. */
  lemma VisibleUnique(raw: string, t: string)
    requires t <= raw && '\0' !in t && (|t| < |raw| ==> raw[|t|] == '\0')
    ensures Visible(raw) == t
  {
  }

  lemma VisibleOf(head: string, body: string)
    requires '\0' !in head
    ensures Visible(head + body) == head + Visible(body)
  {
    hide Visible;
    VisibleUnique(head + body, head + Visible(body));
  }

  lemma {:induction false} BlockNoNul(fs: seq<Field>)
    requires CleanFields(fs)
    ensures '\0' !in FieldBlock(fs)
  {
    if fs != [] {
      assert CleanFields(fs[1..]);
      BlockNoNul(fs[1..]);
    }
  }

  /** The part of a message before the body. */
  function Head(r: Response): string {
    StatusLine(r) + FieldBlock(r.fields) + CRLF
  }

  lemma VisibleMessage(r: Response)
    requires CleanResponse(r)
    ensures Visible(MessageText(r)) == Head(r) + Visible(r.body)
  {
    BlockNoNul(r.fields);
    assert '\0' !in Head(r);
    VisibleOf(Head(r), r.body);
  }

  lemma FirstLine(r: Response, rest: string)
    requires CleanResponse(r)
    ensures IndexOf(StatusLine(r) + rest, CRLF, 0) == Some(|StatusLine(r)| - 2)
  {
    hide IndexOf, MatchAt, SignedDecimal;
    var line := "HTTP/1.1 " + SignedDecimal(r.status) + " " + r.message;
    assert StatusLine(r) == line + CRLF;
    assert '\r' !in line;
    assert (StatusLine(r) + rest)[0..|line + CRLF|] == line + CRLF;
    LineEndsAt(StatusLine(r) + rest, 0, line);
  }

  function AsHeaders(fs: seq<Field>): (r: seq<Header>)
    ensures |r| == |fs| && forall i :: 0 <= i < |fs| ==> r[i] == Filled(fs[i].name, fs[i].value)
  {
    seq(|fs|, i requires 0 <= i < |fs| => Filled(fs[i].name, fs[i].value))
  }

  lemma StatusScans(r: Response, after: string)
    ensures ScanRequestLine(StatusLine(r) + after).Some? <==> HasWord(r.message + CRLF + after)
  {
    var rest := r.message + CRLF + after;
    assert StatusLine(r) + after == "HTTP/1.1 " + SignedDecimal(r.status) + " " + rest;
    ScanStatusLine(r.status, rest);
  }

  lemma FieldsAreWords(r: Response, more: string)
    requires r.fields != []
    ensures HasWord(r.message + CRLF + (FieldBlock(r.fields) + more))
  {
    var f := r.fields[0];
    var s := r.message + CRLF + (FieldBlock(r.fields) + more);
    assert FieldBlock(r.fields)[|f.name|] == ':';
    assert s[|r.message| + 2 + |f.name|] == ':';
  }

  /** Reading a buffer, given its true length, into a new request. */
  function Read(raw: string): (Status, Request) {
    ParseInto(NewRequest(), raw, |raw|)
  }

  lemma WholeInside(raw: string, start: nat)
    requires start <= |Visible(raw)|
    ensures BodyInside(raw, start, |raw|)
  {
    hide IndexOf, Visible;
  }

  lemma LineKeepsRest(req: Request, line: Line)
    ensures WithLine(req, line).headers == req.headers && WithLine(req, line).body == req.body
  {
    hide IndexOf;
  }

  lemma BlockSets(req: Request, base: Request, raw: string, start: nat)
    requires start <= |Visible(raw)| && BodyInside(raw, start, |raw|)
    requires req.headers == base.headers && req.body == base.body
    ensures var q, b := WithHeaderBlock(req, raw, start, |raw|), WithHeaderBlock(base, raw, start, |raw|);
      q.headers == b.headers && q.body == b.body
  {
    hide IndexOf, HeaderArray, Visible, MatchAt;
  }

  lemma ReadIs(raw: string)
    requires raw != [] && StartLine(raw).Some?
    ensures var line := StartLine(raw).value;
      && BodyInside(raw, line.end + 2, |raw|)
      && Read(raw) == (Success, WithHeaderBlock(WithLine(NewRequest(), line), raw, line.end + 2, |raw|))
  {
    hide StartLine, WithLine, WithHeaderBlock, BodyInside, NewRequest, Visible;
    WholeInside(raw, StartLine(raw).value.end + 2);
  }

  lemma LineFound(raw: string, lineEnd: nat)
    requires IndexOf(Visible(raw), CRLF, 0) == Some(lineEnd)
    ensures lineEnd + 2 <= |Visible(raw)| && (StartLine(raw).Some? <==> ScanRequestLine(Visible(raw)).Some?)
    ensures StartLine(raw).Some? ==> StartLine(raw).value.end == lineEnd
  {
    hide ScanRequestLine, Visible;
  }

  /** Reading into a new request: the outcome, the headers and the body depend on these facts only. */
  lemma ParseShape(raw: string, lineEnd: nat)
    requires raw != [] && lineEnd + 2 <= |Visible(raw)|
    requires StartLine(raw).Some? ==> StartLine(raw).value.end == lineEnd
    ensures StartLine(raw).Some? ==>
      && Read(raw).0 == Success
      && BodyInside(raw, lineEnd + 2, |raw|)
      && var b := WithHeaderBlock(NewRequest(), raw, lineEnd + 2, |raw|);
      Read(raw).1.headers == b.headers && Read(raw).1.body == b.body
    ensures StartLine(raw).None? ==> Read(raw) == (InvalidParam, NewRequest())
  {
    hide StartLine, Visible, WithLine, WithHeaderBlock, BodyInside;
    var line := StartLine(raw);
    if line.Some? {
      hide Read;
      ReadIs(raw);
      LineKeepsRest(NewRequest(), line.value);
      BlockSets(WithLine(NewRequest(), line.value), NewRequest(), raw, lineEnd + 2);
    }
  }

  lemma StartOfMessage(r: Response)
    requires CleanResponse(r)
    ensures var t, after := Visible(MessageText(r)), FieldBlock(r.fields) + (CRLF + Visible(r.body));
      && t == StatusLine(r) + after && |StatusLine(r)| >= 2
      && IndexOf(t, CRLF, 0) == Some(|StatusLine(r)| - 2)
      && (ScanRequestLine(t).Some? <==> HasWord(r.message + CRLF + after))
  {
    hide IndexOf, StatusLine, ScanRequestLine, Visible, HasWord;
    VisibleMessage(r);
    var after := FieldBlock(r.fields) + (CRLF + Visible(r.body));
    assert Head(r) + Visible(r.body) == StatusLine(r) + after;
    FirstLine(r, after);
    StatusScans(r, after);
  }

  lemma BodyOf(r: Response)
    ensures var n := |StatusLine(r)| + |FieldBlock(r.fields)| + 2; n <= |MessageText(r)| && MessageText(r)[n..] == r.body
  {
    hide StatusLine;
  }

  lemma BlockIn(t: string, start: nat, lines: seq<string>)
    requires lines != [] && Proper(lines) && Continues(t, start, Block(lines) + CRLF)
    ensures var end := start + |Block(lines)| - 2;
      && start <= |t| && 0 <= end <= |t| && IndexOf(t, BLANK_LINE, start) == Some(end)
      && LineHeaders(t, start, end) == HeadersOf(lines) && CountLines(t, start, end) == |lines|
  {
    hide IndexOf, LineHeaders, HeadersOf, CountLines, Block, Proper;
    BlankLineAt(t, start, lines);
    ContinuesSplit(t, start, Block(lines), CRLF);
    BlockReads(t, start, lines, start + |Block(lines)| - 2);
  }

  lemma BlockOfMessage(r: Response)
    requires CleanResponse(r) && r.fields != []
    ensures var t, start := Visible(MessageText(r)), |StatusLine(r)|;
      var end := start + |FieldBlock(r.fields)| - 2;
      && start <= |t| && 0 <= end <= |t| && IndexOf(t, BLANK_LINE, start) == Some(end)
      && LineHeaders(t, start, end) == ReadBackAll(r.fields) && CountLines(t, start, end) == |r.fields|
  {
    hide IndexOf, StatusLine, ScanRequestLine, Visible, HasWord, FieldBlock, Block, Proper, HeadersOf, LineHeaders, CountLines,
         ReadBackAll, MessageText, CleanFields;
    var t, start, fs := Visible(MessageText(r)), |StatusLine(r)|, r.fields;
    StartOfMessage(r);
    FieldLines(fs);
    assert t[start..start + |FieldBlock(fs) + CRLF|] == FieldBlock(fs) + CRLF;
    BlockIn(t, start, LinesOf(fs));
  }

  /** What the reader recovers of a message with fields: each field as one line reads back, and the body. */
  lemma ReadsFields(r: Response)
    requires CleanResponse(r) && r.fields != []
    ensures var (status, q) := Read(MessageText(r));
      status == Success && q.headers == ReadBackAll(r.fields) && q.body == r.body
  {
    hide IndexOf, StatusLine, ScanRequestLine, Visible, CleanFields, ReadBack, HasWord, Read, FieldBlock, MessageText,
         LineHeaders, CountLines;
    StartOfMessage(r);
    FieldsAreWords(r, CRLF + Visible(r.body));
    LineFound(MessageText(r), |StatusLine(r)| - 2);
    ParseShape(MessageText(r), |StatusLine(r)| - 2);
    BlockOfMessage(r);
    BodyOf(r);
  }

  /** Without fields the first blank line is not found in front of the body. */
  lemma ReadsNoFields(r: Response)
    requires CleanResponse(r) && r.fields == []
    ensures var (status, q) := Read(MessageText(r));
      && (r.body == [] ==> q.headers == [] && q.body == [] && (status == Success <==> HasWord(r.message)))
      && (r.body != [] ==> q.body != r.body)
  {
    hide IndexOf, ScanRequestLine, HeaderArray, Read, HasWord;
    StartOfMessage(r);
    var raw, t, start := MessageText(r), Visible(MessageText(r)), |StatusLine(r)|;
    LineFound(raw, start - 2);
    ParseShape(raw, start - 2);
    assert |raw| == start + 2 + |r.body| && |t| <= |raw|;
    var end := IndexOf(t, BLANK_LINE, start);
    assert end.Some? ==> MatchAt(t, BLANK_LINE, end.value) && |raw[end.value + 4..]| < |r.body|;
    if r.body == [] { WordBeforeLineEnds(r.message); }
  }

  lemma WordBeforeLineEnds(s: string)
    ensures HasWord(s + CRLF + ([] + (CRLF + []))) <==> HasWord(s)
  {
    var t := s + CRLF + ([] + (CRLF + []));
    if HasWord(t) {
      var i :| 0 <= i < |t| && !IsSpace(t[i]);
      assert i < |s| && t[i] == s[i];
    }
    if HasWord(s) {
      var i :| 0 <= i < |s| && !IsSpace(s[i]);
      assert t[i] == s[i];
    }
  }

  /** Fields that survive the trip, and messages whose blank line and status line the reader can find. */
  predicate Readable(r: Response) {
    if r.fields == [] then r.body == [] && HasWord(r.message)
    else forall i :: 0 <= i < |r.fields| ==>
      ':' !in r.fields[i].name && (r.fields[i].value != [] ==> !IsSpace(r.fields[i].value[0]))
  }

  lemma SameHeadersIff(fs: seq<Field>)
    ensures ReadBackAll(fs) == AsHeaders(fs) <==> forall i :: 0 <= i < |fs| ==>
      ':' !in fs[i].name && (fs[i].value != [] ==> !IsSpace(fs[i].value[0]))
  {
    hide ReadBack;
    forall i | 0 <= i < |fs| { ReadBackIff(fs[i]); }
    if ReadBackAll(fs) == AsHeaders(fs) {
      forall i | 0 <= i < |fs| ensures ReadBack(fs[i]) == Filled(fs[i].name, fs[i].value) {
        assert ReadBackAll(fs)[i] == AsHeaders(fs)[i];
      }
    }
  }

  /**
   For every response without CR, LF or NUL in its text: the reader recovers its fields in order and
   its body from the written message exactly when the response is readable.
   */
  lemma RoundTripIff(r: Response)
    requires CleanResponse(r)
    ensures var (status, q) := Read(MessageText(r));
      (status == Success && q.headers == AsHeaders(r.fields) && q.body == r.body) <==> Readable(r)
  {
    hide Read, MessageText, CleanFields, ReadBack;
    SameHeadersIff(r.fields);
    if r.fields == [] {
      ReadsNoFields(r);
      assert AsHeaders([]) == [];
    } else {
      ReadsFields(r);
    }
  }

  // ----- The written text against the grammar -----

  /** The number that a signed decimal stands for. */
  function SignedValue(s: string): Option<int> {
    var negative := s != [] && s[0] == '-';
    var digits := if negative then s[1..] else s;
    if digits == [] || exists i :: 0 <= i < |digits| && !IsDigit(digits[i]) then None
    else
      var n: int := Value(digits);
      Some(if negative then -n else n)
  }

  lemma SignedRoundTrip(n: int)
    ensures SignedValue(SignedDecimal(n)) == Some(n) && ' ' !in SignedDecimal(n)
  {
    if n < 0 {
      ValueOfDecimal(-n);
      assert SignedDecimal(n)[1..] == Decimal(-n);
    } else {
      ValueOfDecimal(n);
    }
  }

  /**
   The status line of a written reply, read off its first two spaces and its line end: the protocol, the
   number of the status, and the message.
   */
  lemma StatusLineReads(r: Response) returns (first: nat, second: nat, end: nat)
    requires CleanResponse(r)
    ensures var t := MessageText(r);
      && first < second < end < |t| && IndexOf(t, CRLF, 0) == Some(end)
      && t[first] == t[second] == ' ' && ' ' !in t[..first] && ' ' !in t[first + 1..second]
      && t[..first] == "HTTP/1.1" && SignedValue(t[first + 1..second]) == Some(r.status as int)
      && t[second + 1..end] == r.message
  {
    hide FieldBlock, SignedDecimal, SignedValue, IndexOf, StatusLine;
    var line, rest := StatusLine(r), FieldBlock(r.fields) + CRLF + r.body;
    assert MessageText(r) == line + rest;
    first, second, end := StatusLineParts(r);
    FirstLine(r, rest);
    SignedRoundTrip(r.status);
    var t := line + rest;
    assert t[..end + 2] == line;
    assert t[..first] == line[..first] && t[first + 1..second] == line[first + 1..second];
    assert t[second + 1..end] == line[second + 1..end];
  }

  lemma StatusLineParts(r: Response) returns (first: nat, second: nat, end: nat)
    ensures var line := StatusLine(r);
      && first < second < end && |line| == end + 2 && line[first] == line[second] == ' '
      && line[..first] == "HTTP/1.1" && line[first + 1..second] == SignedDecimal(r.status)
      && line[second + 1..end] == r.message
  {
    hide SignedDecimal;
    first, second := 8, 9 + |SignedDecimal(r.status)|;
    end := second + 1 + |r.message|;
    assert "HTTP/1.1 " == "HTTP/1.1" + " ";
  }

  /** Each field stands on its own line, in order, as name, colon, space, value; then a blank line and the body. */
  lemma FieldsAt(r: Response, k: nat)
    requires k < |r.fields|
    ensures var t, f := MessageText(r), r.fields[k];
      var p := |StatusLine(r)| + |FieldBlock(r.fields[..k])|;
      && |FieldBlock(r.fields[..k + 1])| == |FieldBlock(r.fields[..k])| + |f.name| + |f.value| + 4
      && Continues(t, p, f.name + [':', ' '] + f.value + ['\r', '\n'])
  {
    hide *;
    var f, block := r.fields[k], FieldBlock(r.fields[..k]);
    var tail := BlockAround(r.fields, k);
    var line := f.name + [':', ' '] + f.value + ['\r', '\n'];
    MessageIs(r);
    var a, c := StatusLine(r) + block, tail + ['\r', '\n'] + r.body;
    assert MessageText(r) == a + line + c;
    InMiddle(a, line, c);
  }

  lemma MessageIs(r: Response)
    ensures MessageText(r) == StatusLine(r) + FieldBlock(r.fields) + ['\r', '\n'] + r.body
  {
    hide StatusLine, FieldBlock;
  }

  lemma BlockAround(fs: seq<Field>, k: nat) returns (tail: string)
    requires k < |fs|
    ensures var line := fs[k].name + [':', ' '] + fs[k].value + ['\r', '\n'];
      && FieldBlock(fs[..k + 1]) == FieldBlock(fs[..k]) + line
      && FieldBlock(fs) == FieldBlock(fs[..k]) + line + tail
  {
    hide FieldBlock;
    BlockPrefix(fs, k);
    BlockPrefix(fs, k + 1);
    var f := fs[k];
    assert FieldLine(f) == f.name + [':', ' '] + f.value + ['\r', '\n'];
    tail := FieldBlock(fs)[|FieldBlock(fs[..k + 1])|..];
  }

  lemma InMiddle(a: string, b: string, c: string)
    ensures Continues(a + b + c, |a|, b)
  {
  }

  lemma MessageEnds(r: Response)
    ensures var t, n := MessageText(r), |StatusLine(r)| + |FieldBlock(r.fields)|;
      n <= |t| && t[n..] == ['\r', '\n'] + r.body && (r.fields == [] ==> FieldBlock(r.fields) == [])
  {
    hide StatusLine;
  }
}
