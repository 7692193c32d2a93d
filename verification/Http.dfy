/**
 The HTTP message reader and writer.  The reader works with C string functions, so it sees the
 buffer only up to the first NUL; only the body is taken by length.
 */
module Http {
  import opened Common
  import opened Text

  const CRLF: string := "\r\n"
  const BLANK_LINE: string := "\r\n\r\n"

  datatype Method = GET | POST | PUT | DELETE | HEAD | OPTIONS | PATCH | UNKNOWN
  datatype Version = Http10 | Http11 | Http20 | VersionUnknown

  /** A slot of the header array; slots that were counted but not filled stay NULL. */
  datatype Header = Filled(name: string, value: string) | Unfilled

  datatype Request = Request(verb: Method, version: Version, uri: string, path: string, query: Option<string>,
                             headers: seq<Header>, body: string)

  function NewRequest(): Request {
    Request(UNKNOWN, VersionUnknown, "", "", None, [], "")
  }

  function MethodFrom(s: string): Method {
    if s == "GET" then GET else if s == "POST" then POST else if s == "PUT" then PUT
    else if s == "DELETE" then DELETE else if s == "HEAD" then HEAD else if s == "OPTIONS" then OPTIONS
    else if s == "PATCH" then PATCH else UNKNOWN
  }

  function MethodText(m: Method): string {
    match m
    case GET => "GET"
    case POST => "POST"
    case PUT => "PUT"
    case DELETE => "DELETE"
    case HEAD => "HEAD"
    case OPTIONS => "OPTIONS"
    case PATCH => "PATCH"
    case UNKNOWN => "UNKNOWN"
  }

  /** The version is only overwritten by a known one. */
  function VersionFrom(s: string, before: Version): Version {
    if s == "HTTP/1.0" then Http10 else if s == "HTTP/1.1" then Http11 else if s == "HTTP/2.0" then Http20 else before
  }

  // ----- C string functions -----

  /** What the string functions see of a buffer. */
  function Visible(raw: string): (t: string)
    ensures t <= raw && '\0' !in t && (|t| < |raw| ==> raw[|t|] == '\0')
  {
    if raw == [] || raw[0] == '\0' then []
    else
      var t := Visible(raw[1..]);
      assert raw == [raw[0]] + raw[1..];
      [raw[0]] + t
  }

  predicate MatchAt(s: string, pat: string, i: nat) {
    i + |pat| <= |s| && s[i..i + |pat|] == pat
  }

  /** First occurrence of `pat` at or after `from`. */
  function IndexOf(s: string, pat: string, from: nat): (r: Option<nat>)
    requires from <= |s|
    ensures r.Some? ==> from <= r.value && MatchAt(s, pat, r.value) && forall i :: from <= i < r.value ==> !MatchAt(s, pat, i)
    ensures r.None? ==> forall i :: from <= i <= |s| ==> !MatchAt(s, pat, i)
    decreases |s| - from
  {
    if MatchAt(s, pat, from) then Some(from) else if from == |s| then None else IndexOf(s, pat, from + 1)
  }

  method StrStr(s: string, pat: string, from: nat) returns (r: Option<nat>)
    requires from <= |s|
    ensures r == IndexOf(s, pat, from)
  {
    var i := from;
    while i < |s| && !MatchAt(s, pat, i)
      invariant from <= i <= |s| && IndexOf(s, pat, from) == IndexOf(s, pat, i)
    {
      i := i + 1;
    }
    r := if MatchAt(s, pat, i) then Some(i) else None;
  }

  /** Length of the run of non-space characters at the start, at most `limit`. */
  function WordRun(s: string, limit: nat): (n: nat)
    ensures n <= limit && n <= |s|
  {
    if limit > 0 && s != [] && !IsSpace(s[0]) then 1 + WordRun(s[1..], limit - 1) else 0
  }

  /** "%Ns": skips space, then takes a word of at most `limit` characters. */
  function ScanWord(s: string, limit: nat): Option<(string, string)> {
    var t := SkipSpace(s);
    var n := WordRun(t, limit);
    if n == 0 then None else Some((t[..n], t[n..]))
  }

  /** "%15s %2047s %15s". */
  function ScanRequestLine(s: string): Option<(string, string, string)> {
    var a := ScanWord(s, 15);
    if a.None? then None
    else
      var b := ScanWord(a.value.1, 2047);
      if b.None? then None
      else
        var c := ScanWord(b.value.1, 15);
        if c.None? then None else Some((a.value.0, b.value.0, c.value.0))
  }

  // ----- Headers -----

  /** The end of the line that starts at `current`, if it is inside the header block ending at `end`. */
  function LineEnd(t: string, current: nat, end: nat): (r: Option<nat>)
    requires end <= |t|
    ensures r.Some? ==> current <= r.value <= end && r.value + 2 <= |t|
  {
    if current < end then
      var n := IndexOf(t, CRLF, current);
      if n.Some? && n.value <= end then n else None
    else None
  }

  function CountLines(t: string, current: nat, end: nat): nat
    requires end <= |t|
    decreases |t| - current
  {
    var n := LineEnd(t, current, end);
    if n.None? then 0 else 1 + CountLines(t, n.value + 2, end)
  }

  /** The header on the line from `current` to `next`: split at the first colon, leading space of the value dropped. */
  function LineHeader(t: string, current: nat, next: nat): (r: Option<Header>)
    requires current <= next <= |t|
  {
    var colon := IndexOf(t, ":", current);
    if colon.Some? && colon.value < next
    then Some(Filled(t[current..colon.value], SkipSpace(t[colon.value + 1..next])))
    else None
  }

  /** Headers of the lines that have a colon, in order. */
  function LineHeaders(t: string, current: nat, end: nat): seq<Header>
    requires end <= |t|
    decreases |t| - current
  {
    var n := LineEnd(t, current, end);
    if n.None? then []
    else
      var h := LineHeader(t, current, n.value);
      (if h.Some? then [h.value] else []) + LineHeaders(t, n.value + 2, end)
  }

  lemma {:induction false} FewerHeadersThanLines(t: string, current: nat, end: nat)
    requires end <= |t|
    ensures |LineHeaders(t, current, end)| <= CountLines(t, current, end)
    decreases |t| - current
  {
    var n := LineEnd(t, current, end);
    if n.Some? { FewerHeadersThanLines(t, n.value + 2, end); }
  }

  /** One round of the loops over header lines. */
  lemma LineStep(t: string, current: nat, end: nat)
    requires current <= |t| && end <= |t|
    ensures var next := IndexOf(t, CRLF, current);
      if current < end && next.Some? && next.value <= end then
        var h := LineHeader(t, current, next.value);
        && CountLines(t, current, end) == 1 + CountLines(t, next.value + 2, end)
        && LineHeaders(t, current, end) == (if h.Some? then [h.value] else []) + LineHeaders(t, next.value + 2, end)
      else CountLines(t, current, end) == 0 && LineHeaders(t, current, end) == []
  {
    hide IndexOf, LineHeader;
  }

  /** The header array: one slot per line, the headers found first, the rest unfilled. */
  function HeaderArray(t: string, start: nat, end: nat): (r: seq<Header>)
    requires end <= |t|
    ensures |r| == CountLines(t, start, end)
  {
    FewerHeadersThanLines(t, start, end);
    var hs := LineHeaders(t, start, end);
    hs + seq(CountLines(t, start, end) - |hs|, _ => Unfilled)
  }

  // ----- The reader -----

  function WithTarget(req: Request, uri: string): Request {
    var q := IndexOf(uri, "?", 0);
    var r := req.(uri := uri);
    if q.Some? then r.(path := uri[..q.value], query := Some(uri[q.value + 1..])) else r.(path := uri)
  }

  /** The body lies between the blank line, if there is one, and the given length. */
  predicate BodyInside(raw: string, start: nat, length: nat)
    requires start <= |Visible(raw)|
  {
    var end := IndexOf(Visible(raw), BLANK_LINE, start);
    length <= |raw| && (end.Some? ==> end.value + 4 <= length)
  }

  function WithHeaderBlock(req: Request, raw: string, start: nat, length: nat): Request
    requires start <= |Visible(raw)| && BodyInside(raw, start, length)
  {
    var t := Visible(raw);
    var end := IndexOf(t, BLANK_LINE, start);
    if end.None? then req
    else
      var hs := HeaderArray(t, start, end.value);
      var body := raw[end.value + 4..length];
      req.(headers := if hs == [] then req.headers else hs, body := if body == [] then req.body else body)
  }

  /** The words of a request line, and where it ends. */
  datatype Line = Line(verb: string, target: string, version: string, end: nat)

  function StartLine(raw: string): (r: Option<Line>)
    ensures r.Some? ==> r.value.end + 2 <= |Visible(raw)|
  {
    var end := IndexOf(Visible(raw), CRLF, 0);
    var words := ScanRequestLine(Visible(raw));
    if end.Some? && words.Some? then Some(Line(words.value.0, words.value.1, words.value.2, end.value)) else None
  }

  /** The length the caller gives covers the head of the message and stays inside the buffer. */
  predicate LengthFits(raw: string, length: nat) {
    var line := StartLine(raw);
    length != 0 && line.Some? ==> BodyInside(raw, line.value.end + 2, length)
  }

  function WithLine(req: Request, line: Line): Request {
    WithTarget(req.(verb := MethodFrom(line.verb), version := VersionFrom(line.version, req.version)), line.target)
  }

  /**
   Reading the first `length` characters of the buffer `raw` into a request object; what the message does
   not set keeps its value.  Only the body minds the length: the head is read up to the first NUL.
   */
  function ParseInto(req: Request, raw: string, length: nat): (r: (Status, Request))
    requires LengthFits(raw, length)
  {
    var line := StartLine(raw);
    if length == 0 || line.None? then (InvalidParam, req)
    else (Success, WithHeaderBlock(WithLine(req, line.value), raw, line.value.end + 2, length))
  }

  class HttpRequest {
    var verb: Method
    var version: Version
    var uri: string
    var path: string
    var query: Option<string>
    var headers: seq<Header>
    var body: string

    ghost function Model(): Request
      reads this
    {
      Request(verb, version, uri, path, query, headers, body)
    }

    constructor ()
      ensures Model() == NewRequest()
    {
      verb, version, uri, path, query, headers, body := UNKNOWN, VersionUnknown, "", "", None, [], "";
    }

    method ParseTarget(target: string)
      modifies this`uri, this`path, this`query
      ensures Model() == WithTarget(old(Model()), target)
    {
      uri := target;
      var q := StrStr(target, "?", 0);
      if q.Some? {
        path := target[..q.value];
        query := Some(target[q.value + 1..]);
      } else {
        path := target;
      }
    }

    method CountHeaderLines(t: string, start: nat, end: nat) returns (count: nat)
      requires start <= |t| && end <= |t|
      ensures count == CountLines(t, start, end)
    {
      var current := start;
      count := 0;
      while current < end
        invariant current <= |t| && count + CountLines(t, current, end) == CountLines(t, start, end)
        decreases |t| - current
      {
        var next := StrStr(t, CRLF, current);
        if next.None? || next.value > end {
          break;
        }
        count := count + 1;
        current := next.value + 2;
      }
    }

    /** Splits the line at its first colon and skips the space after it. */
    method ParseLine(t: string, current: nat, next: nat) returns (h: Option<Header>)
      requires current <= next <= |t|
      ensures h == LineHeader(t, current, next)
    {
      var colon := StrStr(t, ":", current);
      if colon.None? || colon.value >= next {
        return None;
      }
      var valueStart := colon.value + 1;
      while valueStart < next && IsSpace(t[valueStart])
        invariant colon.value < valueStart <= next
        invariant SkipSpace(t[colon.value + 1..next]) == SkipSpace(t[valueStart..next])
      {
        assert t[valueStart..next][1..] == t[valueStart + 1..next];
        valueStart := valueStart + 1;
      }
      h := Some(Filled(t[current..colon.value], t[valueStart..next]));
    }

    method FillHeaders(t: string, start: nat, end: nat, count: nat) returns (r: seq<Header>)
      requires start <= |t| && end <= |t| && count == CountLines(t, start, end)
      ensures r == HeaderArray(t, start, end)
    {
      hide LineHeader, LineHeaders, CountLines, IndexOf;
      FewerHeadersThanLines(t, start, end);
      var slots := new Header[count](_ => Unfilled);
      var current, idx := start, 0;
      ghost var found := [];
      while current < end && idx < count
        invariant current <= |t| && idx == |found| && idx + CountLines(t, current, end) <= count
        invariant slots[..] == found + seq(count - idx, _ => Unfilled)
        invariant found + LineHeaders(t, current, end) == LineHeaders(t, start, end)
        decreases |t| - current
      {
        var next := StrStr(t, CRLF, current);
        LineStep(t, current, end);
        if next.None? || next.value > end {
          break;
        }
        var h := ParseLine(t, current, next.value);
        if h.Some? {
          slots[idx] := h.value;
          found := found + [h.value];
          idx := idx + 1;
        }
        current := next.value + 2;
      }
      FewerHeadersThanLines(t, current, end);
      LineStep(t, current, end);
      assert found == LineHeaders(t, start, end);
      r := slots[..];
    }

    method ParseHeaderBlock(raw: string, start: nat, length: nat)
      requires start <= |Visible(raw)| && BodyInside(raw, start, length)
      modifies this`headers, this`body
      ensures Model() == WithHeaderBlock(old(Model()), raw, start, length)
    {
      hide CountLines, LineHeaders;
      var t := Visible(raw);
      var end := StrStr(t, BLANK_LINE, start);
      if end.None? {
        return;
      }
      var count := CountHeaderLines(t, start, end.value);
      if count > 0 {
        headers := FillHeaders(t, start, end.value, count);
      }
      var remaining := length - (end.value + 4);
      if remaining > 0 {
        body := raw[end.value + 4..end.value + 4 + remaining];
      }
    }

    method Parse(raw: Option<string>, length: nat) returns (status: Status)
      requires raw.Some? ==> LengthFits(raw.value, length)
      modifies this
      ensures if raw.None? then status == InvalidParam && Model() == old(Model())
        else (status, Model()) == ParseInto(old(Model()), raw.value, length)
    {
      hide WithTarget, WithHeaderBlock, ScanRequestLine;
      if raw.None? || length == 0 {
        return InvalidParam;
      }
      var t := Visible(raw.value);
      var lineEnd := StrStr(t, CRLF, 0);
      if lineEnd.None? {
        return InvalidParam;
      }
      var line := ScanRequestLine(t);
      if line.None? {
        return InvalidParam;
      }
      verb := MethodFrom(line.value.0);
      version := VersionFrom(line.value.2, version);
      ParseTarget(line.value.1);
      ParseHeaderBlock(raw.value, lineEnd.value + 2, length);
      return Success;
    }
  }

  // ----- The writer -----

  datatype Field = Field(name: string, value: string)

  /** The range of a C int. */
  type CInt = n: int | -0x8000_0000 <= n < 0x8000_0000

  datatype Response = Response(status: CInt, message: string, fields: seq<Field>, body: string)

  function SignedDecimal(n: int): (s: string)
    ensures s != [] && forall i :: 0 <= i < |s| ==> IsDigit(s[i]) || s[i] == '-'
  {
    if n < 0 then "-" + Decimal(-n) else Decimal(n)
  }

  function StatusLine(r: Response): string {
    "HTTP/1.1 " + SignedDecimal(r.status) + " " + r.message + CRLF
  }

  function FieldLine(f: Field): string {
    f.name + ": " + f.value + CRLF
  }

  function FieldBlock(fs: seq<Field>): string {
    if fs == [] then "" else FieldLine(fs[0]) + FieldBlock(fs[1..])
  }

  function MessageText(r: Response): string {
    StatusLine(r) + FieldBlock(r.fields) + CRLF + r.body
  }

  /** The size the writer computes before it writes: 256 bytes are set aside for the status line. */
  function BufferSize(r: Response): nat {
    256 + |FieldBlock(r.fields)| + |r.body| + 4
  }

  /**
   No write starts behind the end of the buffer.  A formatted write truncates to the room left, but
   that room is an unsigned difference, so it must not be negative; the body is copied whole.
   */
  ghost predicate InBounds(r: Response) {
    var s, size := |StatusLine(r)|, BufferSize(r);
    && (forall k :: 0 <= k <= |r.fields| ==> s + |FieldBlock(r.fields[..k])| <= size)
    && (r.body != [] ==> s + |FieldBlock(r.fields)| + |CRLF| + |r.body| <= size)
  }

  /** Every formatted piece fits together with its terminator, and the body fits behind them. */
  ghost predicate Untruncated(r: Response) {
    var s, size := |StatusLine(r)|, BufferSize(r);
    && (forall k :: 0 <= k <= |r.fields| ==> s + |FieldBlock(r.fields[..k])| < size)
    && s + |FieldBlock(r.fields)| + |CRLF| < size
    && s + |FieldBlock(r.fields)| + |CRLF| + |r.body| <= size
  }

  lemma {:induction false} BlockPrefix(fs: seq<Field>, k: nat)
    requires k <= |fs|
    ensures FieldBlock(fs[..k]) <= FieldBlock(fs)
    ensures k < |fs| ==> FieldBlock(fs[..k + 1]) == FieldBlock(fs[..k]) + FieldLine(fs[k])
  {
    hide FieldLine;
    if k > 0 {
      BlockPrefix(fs[1..], k - 1);
      assert fs[..k][1..] == fs[1..][..k - 1];
      if k < |fs| {
        assert fs[..k + 1][1..] == fs[1..][..k];
      }
    } else if k < |fs| {
      assert fs[..1][1..] == [];
    }
  }

  lemma BlocksGrow(fs: seq<Field>)
    ensures fs[..|fs|] == fs && forall k :: 0 <= k <= |fs| ==> |FieldBlock(fs[..k])| <= |FieldBlock(fs)|
  {
    forall k | 0 <= k <= |fs| ensures |FieldBlock(fs[..k])| <= |FieldBlock(fs)| {
      BlockPrefix(fs, k);
    }
  }

  /** The writes stay inside the buffer exactly for status lines of up to 258 bytes, or 260 when there is no body. */
  lemma InBoundsIff(r: Response)
    ensures InBounds(r) <==> |StatusLine(r)| <= 258 || (|StatusLine(r)| <= 260 && r.body == [])
  {
    hide StatusLine, FieldBlock;
    BlocksGrow(r.fields);
  }

  /** The whole message is written exactly for status lines of up to 257 bytes, or 258 when there is a body. */
  lemma UntruncatedIff(r: Response)
    ensures Untruncated(r) <==> |StatusLine(r)| <= 257 || (|StatusLine(r)| == 258 && r.body != [])
  {
    hide StatusLine, FieldBlock;
    BlocksGrow(r.fields);
  }

  function LongReply(n: nat): Response {
    Response(200, seq(n, _ => 'x'), [], "")
  }

  /** Replies cut short: the length reported for them is not smaller than the whole buffer. */
  lemma CutReply(n: nat)
    requires 243 <= n <= 245
    ensures InBounds(LongReply(n)) && !Untruncated(LongReply(n)) && |MessageText(LongReply(n))| >= BufferSize(LongReply(n))
  {
    LongReplyLine(n);
    InBoundsIff(LongReply(n));
    UntruncatedIff(LongReply(n));
  }

  lemma LongReplyLine(n: nat)
    ensures |StatusLine(LongReply(n))| == n + 15
  {
    assert Decimal(20) == Decimal(2) + [Digit(0)];
    assert |Decimal(200)| == 3;
  }

  /** What a buffer holds after formatted writes of `text`: all of it, or all that fits before a terminator. */
  ghost predicate Holds(buffer: seq<char>, text: string) {
    if |text| < |buffer| then buffer[..|text|] == text
    else buffer != [] && buffer[..|buffer| - 1] == text[..|buffer| - 1] && buffer[|buffer| - 1] == '\0'
  }

  /** A formatted write at `offset`: truncated to the room left, but counted whole. */
  method Format(buffer: array<char>, offset: nat, text: string, ghost before: string) returns (after: nat)
    requires offset == |before| <= buffer.Length && Holds(buffer[..], before)
    modifies buffer
    ensures after == offset + |text| && Holds(buffer[..], before + text)
  {
    after := offset + |text|;
    var room := buffer.Length - offset;
    if room == 0 {
      assert (before + text)[..buffer.Length - 1] == before[..buffer.Length - 1];
      return;
    }
    var count := if |text| < room then |text| else room - 1;
    for i := 0 to count
      invariant buffer[..offset + i] == before + text[..i]
    {
      buffer[offset + i] := text[i];
      assert buffer[..offset + i + 1] == buffer[..offset + i] + [text[i]];
    }
    buffer[offset + count] := '\0';
    assert (before + text)[..offset + count] == before + text[..count];
  }

  class HttpResponse {
    var status: CInt
    var message: string
    var fields: seq<Field>
    var body: string

    ghost function Model(): Response
      reads this
    {
      Response(status, message, fields, body)
    }

    constructor (status: CInt, message: Option<string>)
      ensures Model() == Response(status, if message.Some? then message.value else "OK", [], "")
    {
      this.status := status;
      this.message := if message.Some? then message.value else "OK";
      fields, body := [], "";
    }

    method AddHeader(name: Option<string>, value: Option<string>) returns (result: Status)
      modifies this`fields
      ensures if name.None? || value.None? then result == InvalidParam && Model() == old(Model())
        else result == Success && Model() == old(Model()).(fields := old(fields) + [Field(name.value, value.value)])
    {
      if name.None? || value.None? {
        return InvalidParam;
      }
      fields := fields + [Field(name.value, value.value)];
      return Success;
    }

    method SetBody(text: Option<string>) returns (result: Status)
      modifies this`body
      ensures result == Success && Model() == old(Model()).(body := if text.Some? then text.value else "")
    {
      body := if text.Some? then text.value else "";
      return Success;
    }

    method ComputeSize() returns (size: nat)
      ensures size == BufferSize(Model())
    {
      size := 256;
      for i := 0 to |fields|
        invariant size == 256 + |FieldBlock(fields[..i])|
      {
        BlockPrefix(fields, i);
        size := size + |fields[i].name| + |fields[i].value| + 4;
      }
      assert fields[..|fields|] == fields;
      size := size + |body| + 4;
    }

    /** No length means that a write would have started behind the end of the buffer. */
    method Serialize() returns (buffer: array<char>, length: Option<nat>)
      ensures buffer.Length == BufferSize(Model())
      ensures length.Some? <==> InBounds(Model())
      ensures length.Some? ==> length.value == |MessageText(Model())|
      ensures length.Some? && Untruncated(Model()) ==>
        length.value <= buffer.Length && buffer[..length.value] == MessageText(Model())
      ensures length.Some? && !Untruncated(Model()) ==>
        buffer.Length <= length.value && Holds(buffer[..], MessageText(Model()))
    {
      hide StatusLine, FieldLine, FieldBlock, Holds;
      ghost var r := Model();
      InBoundsIff(r);
      UntruncatedIff(r);
      var size := ComputeSize();
      buffer := new char[size];
      var offset := FormatHead(buffer);
      if offset.None? {
        return buffer, None;
      }
      BlocksGrow(fields);
      var end := Format(buffer, offset.value, CRLF, StatusLine(r) + FieldBlock(fields));
      if body != [] {
        if end + |body| > size {
          return buffer, None;
        }
        end := CopyBody(buffer, end, StatusLine(r) + FieldBlock(fields) + CRLF);
      } else {
        assert MessageText(r) == StatusLine(r) + FieldBlock(fields) + CRLF;
        WholeWhenShort(buffer[..], MessageText(r));
      }
      length := Some(end);
    }

    /** Writes the status line and the fields; none when a piece would start behind the end. */
    method FormatHead(buffer: array<char>) returns (offset: Option<nat>)
      requires buffer.Length == BufferSize(Model())
      modifies buffer
      ensures offset.Some? <==> |StatusLine(Model())| + |FieldBlock(fields)| <= buffer.Length
      ensures offset.Some? ==> offset.value == |StatusLine(Model())| + |FieldBlock(fields)|
      ensures offset.Some? ==> Holds(buffer[..], StatusLine(Model()) + FieldBlock(fields))
    {
      hide StatusLine, FieldLine, Holds;
      ghost var line := StatusLine(Model());
      NothingHeld(buffer[..]);
      var at := Format(buffer, 0, StatusLine(Response(status, message, fields, body)), "");
      assert "" + line == line + FieldBlock(fields[..0]);
      BlocksGrow(fields);
      for i := 0 to |fields|
        invariant at == |line| + |FieldBlock(fields[..i])| && Holds(buffer[..], line + FieldBlock(fields[..i]))
      {
        if at > buffer.Length {
          return None;
        }
        BlockPrefix(fields, i);
        ghost var before := line + FieldBlock(fields[..i]);
        at := Format(buffer, at, FieldLine(fields[i]), before);
        assert before + FieldLine(fields[i]) == line + FieldBlock(fields[..i + 1]);
      }
      if at > buffer.Length {
        return None;
      }
      return Some(at);
    }

    /** Copies the body by length; it needs no terminator. */
    method CopyBody(buffer: array<char>, offset: nat, ghost before: string) returns (after: nat)
      requires offset == |before| && body != [] && offset + |body| <= buffer.Length && Holds(buffer[..], before)
      modifies buffer
      ensures after == offset + |body| && buffer[..after] == before + body
    {
      for i := 0 to |body|
        invariant buffer[..offset + i] == before + body[..i]
      {
        buffer[offset + i] := body[i];
        assert buffer[..offset + i + 1] == buffer[..offset + i] + [body[i]];
      }
      after := offset + |body|;
      assert body[..|body|] == body;
    }
  }

  lemma NothingHeld(buffer: seq<char>)
    requires buffer != []
    ensures Holds(buffer, "")
  {
  }

  lemma WholeWhenShort(buffer: seq<char>, text: string)
    requires Holds(buffer, text)
    ensures |text| < |buffer| ==> buffer[..|text|] == text
  {
  }
}
