/** The text form of an authentication token: printed with "%s:%lu:%lu", read back with "%127[^:]:%lu:%lu". */
module Token {
  import opened Common
  import opened Text

  /** The contents of a C string. */
  type CText = s: string | '\0' !in s

  type U64 = n: nat | n < TWO_64

  datatype Token = Token(userId: CText, createdAt: U64, ttlSeconds: U64)

  const BUFFER_SIZE: nat := 256
  const USER_ID_LIMIT: nat := 127

  lemma U64Length(n: U64)
    ensures |Decimal(n)| <= 20
  {
    assert PowerOfTen(10) == 10_000_000_000;
    assert PowerOfTen(20) == 100_000_000_000_000_000_000;
    DecimalLength(n, 20);
  }

  // ----- Scanning -----

  /** Length of the longest run of digits at the start. */
  function DigitRun(s: string): (n: nat)
    ensures n <= |s| && forall i :: 0 <= i < n ==> IsDigit(s[i])
  {
    if s != [] && IsDigit(s[0]) then 1 + DigitRun(s[1..]) else 0
  }

  /** "%lu": optional space and sign, then digits; too large a number saturates, a minus sign negates modulo 2^64. */
  function ScanNumber(s: string): Option<(U64, string)> {
    var t := SkipSpace(s);
    var negative := t != [] && t[0] == '-';
    var u := if negative || (t != [] && t[0] == '+') then t[1..] else t;
    var n := DigitRun(u);
    if n == 0 then None
    else
      var v := Value(u[..n]);
      var w: U64 := if v >= TWO_64 then TWO_64 - 1 else if negative && v > 0 then TWO_64 - v else v;
      Some((w, u[n..]))
  }

  /** Length of the longest start without a colon, at most `limit`. */
  function ColonFree(s: string, limit: nat): (n: nat)
    ensures n <= limit && n <= |s| && ':' !in s[..n]
    ensures n < limit && n < |s| ==> s[n] == ':'
  {
    if limit > 0 && s != [] && s[0] != ':' then
      var n := ColonFree(s[1..], limit - 1);
      assert s[..n + 1] == [s[0]] + s[1..][..n];
      1 + n
    else 0
  }

  /** A literal colon in the format. */
  function ScanColon(s: string): Option<string> {
    if s != [] && s[0] == ':' then Some(s[1..]) else None
  }

  // ----- The two conversions -----

  function FullText(t: Token): string {
    t.userId + ":" + Decimal(t.createdAt) + ":" + Decimal(t.ttlSeconds)
  }

  /** What the 256-byte buffer holds before its terminator. */
  function Serialize(t: Token): (s: string)
    ensures s <= FullText(t) && |s| == if |FullText(t)| < 256 then |FullText(t)| else 255
  {
    if |FullText(t)| < BUFFER_SIZE then FullText(t) else FullText(t)[..BUFFER_SIZE - 1]
  }

  function Deserialize(s: CText): Option<Token> {
    if |s| > BUFFER_SIZE then None
    else
      var n := ColonFree(s, USER_ID_LIMIT);
      var a := ScanColon(s[n..]);
      if n == 0 || a.None? then None
      else
        var x := ScanNumber(a.value);
        var b := if x.Some? then ScanColon(x.value.1) else None;
        if b.None? then None
        else
          var y := ScanNumber(b.value);
          if y.None? then None else Some(Token(s[..n], x.value.0, y.value.0))
  }

  lemma {:induction false} DigitRunOf(digits: string, rest: string)
    requires forall i :: 0 <= i < |digits| ==> IsDigit(digits[i])
    requires rest == [] || !IsDigit(rest[0])
    ensures DigitRun(digits + rest) == |digits|
  {
    if digits == [] {
      assert digits + rest == rest;
    } else {
      DigitRunOf(digits[1..], rest);
      assert (digits + rest)[1..] == digits[1..] + rest;
    }
  }

  predicate AllDigits(s: string) {
    s != [] && forall i :: 0 <= i < |s| ==> IsDigit(s[i])
  }

  predicate AllSpace(s: string) {
    forall i :: 0 <= i < |s| ==> IsSpace(s[i])
  }

  datatype Sign = NoSign | Plus | Minus

  /** A number as "%lu" accepts it: space, at most one sign, digits. */
  datatype Numeral = Numeral(space: string, sign: Sign, digits: string) {
    predicate Valid() {
      AllSpace(space) && AllDigits(digits)
    }

    function Text(): string {
      space + (SignText(sign) + digits)
    }

    /** Saturated when too large, and negated in 64 bits. */
    function Number(): U64
      requires Valid()
    {
      var v := Value(digits);
      if v >= TWO_64 then TWO_64 - 1 else if sign.Minus? then (TWO_64 - v) % TWO_64 else v
    }
  }

  function SignText(sign: Sign): string {
    match sign
    case NoSign => ""
    case Plus => "+"
    case Minus => "-"
  }

  predicate NoDigitAhead(rest: string) {
    rest == [] || !IsDigit(rest[0])
  }

  lemma ScansNumber(n: Numeral, rest: string)
    requires n.Valid() && NoDigitAhead(rest)
    ensures ScanNumber(n.Text() + rest) == Some((n.Number(), rest))
  {
    hide SkipSpace, DigitRun, Value;
    var u := n.digits + rest;
    var t := SignText(n.sign) + u;
    assert n.Text() + rest == n.space + t;
    assert IsDigit(n.digits[0]) && t[0] == if n.sign.NoSign? then n.digits[0] else SignText(n.sign)[0];
    SkipSpaceOf(n.space, t);
    assert t[|SignText(n.sign)|..] == u;
    assert n.sign.NoSign? ==> t == u;
    DigitRunOf(n.digits, rest);
    assert u[..|n.digits|] == n.digits && u[|n.digits|..] == rest;
  }

  /** Whatever it accepts has that form. */
  lemma ScannedForm(s: string) returns (n: Numeral, rest: string)
    requires ScanNumber(s).Some?
    ensures n.Valid() && NoDigitAhead(rest) && s == n.Text() + rest
  {
    hide Unsigned, SkipSpace, DigitRun, ScanNumber, AllSpace, AllDigits, NoDigitAhead, SignText;
    var k := SpaceSplits(s);
    var t := s[k..];
    var u := Unsigned(t);
    HasDigits(s);
    DigitsSplit(u);
    var sign := SignSplits(t);
    n, rest := Numeral(s[..k], sign, u[..DigitRun(u)]), u[DigitRun(u)..];
    assert s == n.space + t && t == SignText(sign) + u && u == n.digits + rest;
    assert n.space + (SignText(sign) + (n.digits + rest)) == n.Text() + rest;
  }

  lemma SpaceSplits(s: string) returns (n: nat)
    ensures n <= |s| && s[n..] == SkipSpace(s) && AllSpace(s[..n])
  {
    hide SkipSpace;
    n := SkipSpaceSplits(s);
  }

  lemma HasDigits(s: string)
    requires ScanNumber(s).Some?
    ensures DigitRun(Unsigned(SkipSpace(s))) > 0
  {
    hide SkipSpace, DigitRun;
  }

  lemma DigitsSplit(u: string)
    requires DigitRun(u) > 0
    ensures var k := DigitRun(u); AllDigits(u[..k]) && NoDigitAhead(u[k..])
  {
    DigitRunStops(u);
  }

  function Unsigned(t: string): string {
    if t != [] && (t[0] == '-' || t[0] == '+') then t[1..] else t
  }

  lemma SignSplits(t: string) returns (sign: Sign)
    ensures t == SignText(sign) + Unsigned(t)
  {
    sign := if t == [] then NoSign else if t[0] == '-' then Minus else if t[0] == '+' then Plus else NoSign;
  }

  lemma {:induction false} DigitRunStops(s: string)
    ensures DigitRun(s) == |s| || !IsDigit(s[DigitRun(s)])
  {
    if s != [] && IsDigit(s[0]) { DigitRunStops(s[1..]); }
  }

  lemma {:induction false} ColonFreeOf(name: string, rest: string, limit: nat)
    requires ':' !in name && |name| <= limit && rest != [] && rest[0] == ':'
    ensures ColonFree(name + rest, limit) == |name|
  {
    if name == [] {
      assert name + rest == rest;
    } else {
      assert name[0] != ':';
      ColonFreeOf(name[1..], rest, limit - 1);
      assert (name + rest)[1..] == name[1..] + rest;
    }
  }

  /** A token whose user id fits is printed without truncation. */
  lemma TextFits(t: Token)
    requires |t.userId| <= USER_ID_LIMIT
    ensures Serialize(t) == FullText(t) && |Serialize(t)| <= 169
  {
    U64Length(t.createdAt);
    U64Length(t.ttlSeconds);
  }

  lemma NoNul(t: Token)
    ensures '\0' !in FullText(t) && '\0' !in Serialize(t)
  {
  }

  /** What the text says, read off its two colons: user id, time of creation, time to live, in this order. */
  lemma TextReads(t: Token) returns (first: nat, second: nat)
    requires |t.userId| <= USER_ID_LIMIT && ':' !in t.userId
    ensures var s := Serialize(t);
      && first < second < |s| && s[first] == s[second] == ':'
      && ':' !in s[..first] && ':' !in s[first + 1..second] && ':' !in s[second + 1..]
      && s[..first] == t.userId
      && AllDigits(s[first + 1..second]) && Value(s[first + 1..second]) == t.createdAt
      && AllDigits(s[second + 1..]) && Value(s[second + 1..]) == t.ttlSeconds
  {
    TextFits(t);
    var x, y := Decimal(t.createdAt), Decimal(t.ttlSeconds);
    var s := t.userId + ":" + x + ":" + y;
    first, second := |t.userId|, |t.userId| + 1 + |x|;
    assert s[first + 1..second] == x && s[second + 1..] == y && s[..first] == t.userId;
    ValueOfDecimal(t.createdAt);
    ValueOfDecimal(t.ttlSeconds);
  }

  /** A text of the right form, and the token it stands for. */
  datatype Form = Form(id: CText, created: Numeral, ttl: Numeral, rest: string) {
    predicate Valid() {
      && 1 <= |id| <= USER_ID_LIMIT && ':' !in id && created.Valid() && ttl.Valid() && NoDigitAhead(rest)
      && |Text()| <= BUFFER_SIZE && '\0' !in Text()
    }

    function Text(): string {
      id + (":" + (created.Text() + (":" + (ttl.Text() + rest))))
    }
  }

  /** What the reader makes of any text of the right form, whoever wrote it. */
  lemma DeserializeReads(f: Form)
    requires f.Valid()
    ensures Deserialize(f.Text()) == Some(Token(f.id, f.created.Number(), f.ttl.Number()))
  {
    hide ScanNumber, ColonFree, Numeral.Valid, Numeral.Text, Numeral.Number;
    var second := ":" + (f.ttl.Text() + f.rest);
    var first := ":" + (f.created.Text() + second);
    ColonFreeOf(f.id, first, USER_ID_LIMIT);
    assert f.Text()[|f.id|..] == first && f.Text()[..|f.id|] == f.id;
    assert first[1..] == f.created.Text() + second && second[1..] == f.ttl.Text() + f.rest;
    ScansNumber(f.created, second);
    ScansNumber(f.ttl, f.rest);
  }

  lemma ColonSplits(s: string)
    requires ScanColon(s).Some?
    ensures s == ":" + ScanColon(s).value
  {
  }

  /** The reader accepts no other text. */
  lemma AcceptedForm(s: CText) returns (f: Form)
    requires Deserialize(s).Some?
    ensures f.Valid() && f.Text() == s
  {
    hide ScanNumber, ColonFree, ScanColon, Numeral.Valid, Numeral.Text, NoDigitAhead;
    var n := ColonFree(s, USER_ID_LIMIT);
    var a := ScanColon(s[n..]).value;
    ColonSplits(s[n..]);
    var created, more := ScannedForm(a);
    ScansNumber(created, more);
    ColonSplits(more);
    var ttl, rest := ScannedForm(ScanColon(more).value);
    f := Form(s[..n], created, ttl, rest);
    assert s == s[..n] + s[n..];
  }

  /** The text of a token with a proper user id is of that form. */
  lemma WrittenForm(t: Token) returns (f: Form)
    requires 1 <= |t.userId| <= USER_ID_LIMIT && ':' !in t.userId
    ensures f.Valid() && f.Text() == Serialize(t) && Token(f.id, f.created.Number(), f.ttl.Number()) == t
  {
    hide Decimal, Value;
    TextFits(t);
    NoNul(t);
    ValueOfDecimal(t.createdAt);
    ValueOfDecimal(t.ttlSeconds);
    f := Form(t.userId, Numeral("", NoSign, Decimal(t.createdAt)), Numeral("", NoSign, Decimal(t.ttlSeconds)), "");
    assert f.Text() == FullText(t);
  }

  lemma ReadId(s: CText)
    requires Deserialize(s).Some?
    ensures var id := Deserialize(s).value.userId; 1 <= |id| <= USER_ID_LIMIT && ':' !in id
  {
    hide ScanNumber, ScanColon;
  }

  /** A token survives its text form exactly when its user id is 1 to 127 characters long and has no colon. */
  lemma RoundTripIff(t: Token)
    ensures '\0' !in Serialize(t)
    ensures Deserialize(Serialize(t)) == Some(t) <==> 1 <= |t.userId| <= USER_ID_LIMIT && ':' !in t.userId
  {
    hide Deserialize, Serialize, Form.Valid, Form.Text, Numeral.Number, Numeral.Valid;
    NoNul(t);
    if 1 <= |t.userId| <= USER_ID_LIMIT && ':' !in t.userId {
      var f := WrittenForm(t);
      DeserializeReads(f);
    } else if Deserialize(Serialize(t)) == Some(t) {
      ReadId(Serialize(t));
    }
  }
}
