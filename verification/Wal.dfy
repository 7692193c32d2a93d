/**
 The write-ahead log: the byte layout of its records, and recovery as a fold over the bytes.
 A record is a 24-byte header (magic, type, transaction id, key size, value size; little endian)
 followed by the key with its terminator and by the value.
 */
module Wal {
  import opened Common

  type Table = map<Key, Bytes>

  /** A write outside transactions; only these are logged. */
  datatype Write = PutWrite(key: Key, value: Bytes) | DeleteWrite(key: Key)

  const MAGIC: nat := 0x57414C00
  const KIND_PUT: nat := 0
  const KIND_DELETE: nat := 1
  const HEADER_SIZE: nat := 24

  // ----- Effect of writes on a table -----

  function Lookup(m: Table, key: Key): Option<Bytes> {
    if key in m then Some(m[key]) else None
  }

  function Apply(m: Table, w: Write): Table {
    match w
    case PutWrite(key, value) => m[key := value]
    case DeleteWrite(key) => m - {key}
  }

  function ApplyAll(m: Table, ws: seq<Write>): Table {
    if ws == [] then m else Apply(ApplyAll(m, ws[..|ws| - 1]), ws[|ws| - 1])
  }

  predicate Writes(ws: seq<Write>, key: Key) {
    exists i :: 0 <= i < |ws| && ws[i].key == key
  }

  /** What the last write of `key` left behind. */
  function LastWrite(ws: seq<Write>, key: Key): Option<Bytes> {
    if ws == [] then None
    else
      var w := ws[|ws| - 1];
      if w.key != key then LastWrite(ws[..|ws| - 1], key) else if w.PutWrite? then Some(w.value) else None
  }

  /** Only the last write of a key matters, and a key never written keeps its value. */
  lemma {:induction false} ApplyAllAt(m: Table, ws: seq<Write>, key: Key)
    ensures Lookup(ApplyAll(m, ws), key) == if Writes(ws, key) then LastWrite(ws, key) else Lookup(m, key)
  {
    if ws != [] {
      var n := |ws| - 1;
      ApplyAllAt(m, ws[..n], key);
      assert Writes(ws[..n], key) ==> Writes(ws, key);
      assert Writes(ws, key) && ws[n].key != key ==> Writes(ws[..n], key) by {
        if Writes(ws, key) && ws[n].key != key {
          var i :| 0 <= i < |ws| && ws[i].key == key;
          assert ws[..n][i].key == key;
        }
      }
    }
  }

  lemma SameLookups(a: Table, b: Table)
    requires forall key :: Lookup(a, key) == Lookup(b, key)
    ensures a == b
  {
    assert forall key: Key :: key in a <==> Lookup(a, key).Some?;
    assert forall key: Key :: key in b <==> Lookup(b, key).Some?;
    forall key: Key | key in a ensures key in b && a[key] == b[key] {
      assert Lookup(a, key) == Lookup(b, key);
    }
  }

  lemma ApplyAllTwice(m: Table, ws: seq<Write>)
    ensures ApplyAll(ApplyAll(m, ws), ws) == ApplyAll(m, ws)
  {
    forall key ensures Lookup(ApplyAll(ApplyAll(m, ws), ws), key) == Lookup(ApplyAll(m, ws), key) {
      ApplyAllAt(m, ws, key);
      ApplyAllAt(ApplyAll(m, ws), ws, key);
    }
    SameLookups(ApplyAll(ApplyAll(m, ws), ws), ApplyAll(m, ws));
  }

  // ----- Bytes -----

  /** A 32-bit field, little endian; larger numbers are truncated. */
  function U32(n: nat): (r: Bytes)
    ensures |r| == 4
  {
    [(n % 256) as byte, (n / 256 % 256) as byte, (n / 256 / 256 % 256) as byte, (n / 256 / 256 / 256 % 256) as byte]
  }

  function FromU32(s: Bytes): nat
    requires |s| == 4
  {
    s[0] as nat + 256 * s[1] as nat + 65536 * s[2] as nat + 16777216 * s[3] as nat
  }

  lemma RemainderIs(n: nat, q: nat, r: nat)
    requires n == TWO_32 * q + r && r < TWO_32
    ensures n % TWO_32 == r
  {
  }

  lemma U32RoundTrip(n: nat)
    ensures FromU32(U32(n)) == n % TWO_32
  {
    var a := n / 256;
    var b := a / 256;
    var c := b / 256;
    RemainderIs(n, c / 256, n % 256 + 256 * (a % 256) + 65536 * (b % 256) + 16777216 * (c % 256));
  }

  function Header(kind: nat, keySize: nat, valueSize: nat): (r: Bytes)
    ensures |r| == HEADER_SIZE
  {
    U32(MAGIC) + U32(kind) + [0, 0, 0, 0, 0, 0, 0, 0] + U32(keySize) + U32(valueSize)
  }

  function Field(s: Bytes, at: nat): nat
    requires at + 4 <= |s|
  {
    FromU32(s[at..at + 4])
  }

  lemma HeaderFields(kind: nat, keySize: nat, valueSize: nat, rest: Bytes)
    ensures var s := Header(kind, keySize, valueSize) + rest;
      && Field(s, 0) == MAGIC && Field(s, 4) == kind % TWO_32
      && Field(s, 16) == keySize % TWO_32 && Field(s, 20) == valueSize % TWO_32
  {
    var s := Header(kind, keySize, valueSize) + rest;
    assert s[0..4] == U32(MAGIC) && s[4..8] == U32(kind);
    assert s[16..20] == U32(keySize) && s[20..24] == U32(valueSize);
    U32RoundTrip(MAGIC);
    U32RoundTrip(kind);
    U32RoundTrip(keySize);
    U32RoundTrip(valueSize);
  }

  /** The C string at the start of a buffer. */
  function CString(data: Bytes): (k: Key)
    requires 0 in data
    ensures k + [0] <= data
  {
    if data[0] == 0 then [] else [data[0]] + CString(data[1..])
  }

  lemma {:induction false} CStringOf(key: Key, rest: Bytes)
    ensures CString(key + [0] + rest) == key
  {
    var s := key + [0] + rest;
    assert s[|key|] == 0;
    if key != [] {
      var tail: Key := key[1..];
      CStringOf(tail, rest);
      assert s[1..] == tail + [0] + rest;
    }
  }

  /** What a write appends to the log. */
  function Record(w: Write): (r: Bytes)
    ensures |r| >= HEADER_SIZE
  {
    match w
    case PutWrite(key, value) => Header(KIND_PUT, |key| + 1, |value|) + key + [0] + value
    case DeleteWrite(key) => Header(KIND_DELETE, |key| + 1, 0) + key + [0]
  }

  function Encode(ws: seq<Write>): Bytes {
    if ws == [] then [] else Record(ws[0]) + Encode(ws[1..])
  }

  /** Sizes that the 32-bit header fields and their 32-bit sum can hold. */
  predicate Fits(w: Write) {
    |w.key| + 1 + (if w.PutWrite? then |w.value| else 0) < TWO_32
  }

  predicate AllFit(ws: seq<Write>) {
    forall w :: w in ws ==> Fits(w)
  }

  // ----- Recovery -----

  predicate HasRecord(log: Bytes) {
    |log| >= HEADER_SIZE && Field(log, 0) == MAGIC
  }

  function PayloadSize(log: Bytes): nat
    requires HasRecord(log)
  {
    Field(log, 16) + Field(log, 20)
  }

  /** Every record that starts in the log has its whole payload there, with a terminated key. */
  predicate Complete(log: Bytes) {
    HasRecord(log) ==>
      && PayloadSize(log) < TWO_32
      && HEADER_SIZE + PayloadSize(log) <= |log|
      && (Field(log, 4) == KIND_PUT || Field(log, 4) == KIND_DELETE ==>
            0 in log[HEADER_SIZE..HEADER_SIZE + PayloadSize(log)])
      && Complete(log[HEADER_SIZE + PayloadSize(log)..])
  }

  /** The write that the record at the start of the log stands for; other record types do nothing. */
  function FirstWrite(log: Bytes): Option<Write>
    requires HasRecord(log) && Complete(log)
  {
    var data := log[HEADER_SIZE..HEADER_SIZE + PayloadSize(log)];
    if Field(log, 4) == KIND_PUT then Some(PutWrite(CString(data), data[Field(log, 16)..]))
    else if Field(log, 4) == KIND_DELETE then Some(DeleteWrite(CString(data)))
    else None
  }

  /** The writes recovery performs: it stops at a short header or a wrong magic number. */
  function Decode(log: Bytes): seq<Write>
    requires Complete(log)
  {
    if !HasRecord(log) then []
    else
      var w := FirstWrite(log);
      (if w.Some? then [w.value] else []) + Decode(log[HEADER_SIZE + PayloadSize(log)..])
  }

  function Replay(log: Bytes, m: Table): Table
    requires Complete(log)
  {
    ApplyAll(m, Decode(log))
  }

  function Payload(w: Write): Bytes {
    w.key + [0] + if w.PutWrite? then w.value else []
  }

  /** What the header of a logged write says, and what follows it. */
  lemma RecordShape(w: Write, rest: Bytes)
    requires Fits(w)
    ensures var log, n := Record(w) + rest, |Payload(w)|;
      && HasRecord(log) && PayloadSize(log) == n < TWO_32 && HEADER_SIZE + n <= |log|
      && Field(log, 4) == (if w.PutWrite? then KIND_PUT else KIND_DELETE) && Field(log, 16) == |w.key| + 1
      && log[HEADER_SIZE..HEADER_SIZE + n] == Payload(w) && log[HEADER_SIZE + n..] == rest
  {
    hide Field, Header;
    var value := if w.PutWrite? then w.value else [];
    var kind := if w.PutWrite? then KIND_PUT else KIND_DELETE;
    var log := Header(kind, |w.key| + 1, |value|) + (Payload(w) + rest);
    assert Record(w) + rest == log;
    HeaderFields(kind, |w.key| + 1, |value|, Payload(w) + rest);
  }

  /** The number that bytes stand for, least significant first. */
  function LittleEndian(s: Bytes): nat {
    if s == [] then 0 else s[0] as nat + 256 * LittleEndian(s[1..])
  }

  lemma FieldBytes(s: Bytes, at: nat)
    requires at + 4 <= |s|
    ensures Field(s, at) == LittleEndian(s[at..at + 4])
  {
    var f := s[at..at + 4];
    assert f[1..][1..][1..][1..] == [];
    assert LittleEndian(f[1..][1..]) == f[2] as nat + 256 * LittleEndian(f[1..][1..][1..]);
  }

  /** The header of a record, position by position. */
  lemma HeaderLayout(w: Write)
    requires Fits(w)
    ensures var r := Record(w);
      && r[..4] == [0x00, 0x4C, 0x41, 0x57] && r[4..8] == [if w.PutWrite? then 0 else 1, 0, 0, 0]
      && r[8..16] == [0, 0, 0, 0, 0, 0, 0, 0]
      && LittleEndian(r[16..20]) == |w.key| + 1 && LittleEndian(r[20..24]) == if w.PutWrite? then |w.value| else 0
  {
    hide Record, Field, LittleEndian, Header;
    var r, value := Record(w), if w.PutWrite? then w.value else [];
    var kind := if w.PutWrite? then KIND_PUT else KIND_DELETE;
    var head := Header(kind, |w.key| + 1, |value|);
    RecordParts(w);
    HeaderStarts(kind, |w.key| + 1, |value|);
    RecordShape(w, []);
    assert r + [] == r;
    FieldBytes(r, 16);
    FieldBytes(r, 20);
    assert r[..4] == head[..4] && r[4..8] == head[4..8] && r[8..16] == head[8..16];
  }

  lemma RecordParts(w: Write)
    ensures var value := if w.PutWrite? then w.value else [];
      Record(w) == Header(if w.PutWrite? then KIND_PUT else KIND_DELETE, |w.key| + 1, |value|) + Payload(w)
  {
    hide Header;
  }

  /** What follows the header: the key, its terminator, the value, and nothing else. */
  lemma PayloadLayout(w: Write)
    ensures var r, n := Record(w), |w.key|;
      && 24 + n < |r| && r[24..24 + n] == w.key && r[24 + n] == 0
      && r[25 + n..] == if w.PutWrite? then w.value else []
  {
    hide Record, Header;
    RecordParts(w);
    var r, n := Record(w), |w.key|;
    assert r[24..] == Payload(w);
    assert r[24..24 + n] == Payload(w)[..n] && r[25 + n..] == Payload(w)[n + 1..];
  }

  lemma HeaderStarts(kind: nat, keySize: nat, valueSize: nat)
    requires kind < 256
    ensures var head := Header(kind, keySize, valueSize);
      head[..4] == [0x00, 0x4C, 0x41, 0x57] && head[4..8] == [kind as byte, 0, 0, 0] && head[8..16] == [0, 0, 0, 0, 0, 0, 0, 0]
  {
    assert U32(MAGIC) == [0x00, 0x4C, 0x41, 0x57];
    assert U32(kind) == [kind as byte, 0, 0, 0];
  }

  /** Recovery looks for a record where at least a header is left that starts with the magic number. */
  lemma HasRecordIff(log: Bytes)
    ensures HasRecord(log) <==> |log| >= 24 && log[..4] == [0x00, 0x4C, 0x41, 0x57]
  {
    if |log| >= 24 {
      var f := log[0..4];
      assert f == [log[0], log[1], log[2], log[3]] == log[..4];
      assert MAGIC == 0x4C * 256 + 0x41 * 65536 + 0x57 * 16777216;
    }
  }

  /** Recovery goes on behind the payload that the header announces. */
  lemma DecodeSteps(log: Bytes)
    requires HasRecord(log) && Complete(log)
    ensures var n, w := 24 + LittleEndian(log[16..20]) + LittleEndian(log[20..24]), FirstWrite(log);
      && n <= |log| && Complete(log[n..])
      && Decode(log) == (if w.Some? then [w.value] else []) + Decode(log[n..])
  {
    hide Field, LittleEndian, FirstWrite;
    FieldBytes(log, 16);
    FieldBytes(log, 20);
  }

  /**
   What recovery takes a record for, read off its bytes: type 0 is a put and type 1 a delete, the key is the C
   string behind the header, the value is found by the announced key size, and any other type does nothing.
   */
  lemma ReadsRecord(log: Bytes)
    requires HasRecord(log) && Complete(log)
    ensures var w, kind := FirstWrite(log), LittleEndian(log[4..8]);
      var k, n := LittleEndian(log[16..20]), LittleEndian(log[20..24]);
      && 24 + k + n <= |log| && (w.Some? <==> kind <= 1)
      && (w.Some? ==> (w.value.PutWrite? <==> kind == 0) && w.value.key + [0] <= log[24..])
      && (kind == 0 ==> w.value.value == log[24 + k..24 + k + n])
  {
    hide Field, LittleEndian, CString;
    FieldBytes(log, 4);
    FieldBytes(log, 16);
    FieldBytes(log, 20);
    var k, n := LittleEndian(log[16..20]), LittleEndian(log[20..24]);
    var data := log[24..24 + k + n];
    assert data <= log[24..];
    assert data[k..] == log[24 + k..24 + k + n];
  }

  lemma PayloadParts(w: Write)
    ensures 0 in Payload(w) && CString(Payload(w)) == w.key
    ensures w.PutWrite? ==> Payload(w)[|w.key| + 1..] == w.value
  {
    assert Payload(w)[|w.key|] == 0;
    CStringOf(w.key, if w.PutWrite? then w.value else []);
  }

  lemma DecodeRecord(w: Write, rest: Bytes)
    requires Fits(w)
    ensures Complete(Record(w) + rest) <==> Complete(rest)
    ensures Complete(rest) ==> Decode(Record(w) + rest) == [w] + Decode(rest)
  {
    hide Field, Record, HasRecord, PayloadSize, Payload, CString;
    RecordShape(w, rest);
    PayloadParts(w);
  }

  /** Recovery reads back exactly the logged writes, whatever unusable bytes follow them. */
  lemma {:induction false} DecodeEncode(ws: seq<Write>, tail: Bytes)
    requires AllFit(ws)
    requires !HasRecord(tail)
    ensures Complete(Encode(ws) + tail) && Decode(Encode(ws) + tail) == ws
  {
    hide Record, HasRecord, PayloadSize, FirstWrite, Field;
    if ws != [] {
      DecodeEncode(ws[1..], tail);
      DecodeRecord(ws[0], Encode(ws[1..]) + tail);
      assert Encode(ws) + tail == Record(ws[0]) + (Encode(ws[1..]) + tail);
    } else {
      assert Encode(ws) + tail == tail;
    }
  }

  lemma {:induction false} EncodeAppend(ws: seq<Write>, w: Write)
    ensures Encode(ws + [w]) == Encode(ws) + Record(w)
  {
    hide Record;
    if ws != [] {
      EncodeAppend(ws[1..], w);
      assert (ws + [w])[1..] == ws[1..] + [w];
    } else {
      assert Encode([w]) == Record(w) + Encode([]);
    }
  }

  /** Replaying a log onto the table it already produced changes nothing, for any log. */
  lemma ReplayIdempotent(log: Bytes, m: Table)
    requires Complete(log)
    ensures Replay(log, Replay(log, m)) == Replay(log, m)
  {
    ApplyAllTwice(m, Decode(log));
  }

  lemma {:induction false} EncodePrefix(ws: seq<Write>, k: nat)
    requires k <= |ws|
    ensures Encode(ws[..k]) <= Encode(ws)
  {
    hide Record;
    if k > 0 {
      EncodePrefix(ws[1..], k - 1);
      assert ws[..k][1..] == ws[1..][..k - 1];
    }
  }

  /** A log cut at a record boundary or inside a record header recovers its complete records. */
  lemma CutLog(ws: seq<Write>, k: nat, cut: nat)
    requires AllFit(ws)
    requires k <= |ws| && |Encode(ws[..k])| <= cut <= |Encode(ws)| && cut < |Encode(ws[..k])| + HEADER_SIZE
    ensures var log := Encode(ws)[..cut]; Complete(log) && Decode(log) == ws[..k]
  {
    hide Encode, Record, Complete, Decode, Field;
    EncodePrefix(ws, k);
    var log, head := Encode(ws)[..cut], Encode(ws[..k]);
    assert log == head + log[|head|..];
    DecodeEncode(ws[..k], log[|head|..]);
  }

  /**
   A log cut inside the magic number of a header stays readable up to the cut, but recovery never gets
   past it: whatever a later process appends behind the torn bytes is lost.
   */
  lemma AppendedBehindTornMagic(ws: seq<Write>, torn: Bytes, more: Bytes)
    requires AllFit(ws)
    requires 1 <= |torn| <= 3 && torn == U32(MAGIC)[..|torn|] && U32(MAGIC) <= more
    ensures Complete(Encode(ws) + torn + more) && Decode(Encode(ws) + torn + more) == ws
  {
    var tail := torn + more;
    assert U32(MAGIC) == [0, 0x4C, 0x41, 0x57];
    assert more[0] == 0 && more[1] == 0x4C && more[2] == 0x41 && more[3] == 0x57;
    assert !HasRecord(tail);
    DecodeEncode(ws, tail);
    assert Encode(ws) + torn + more == Encode(ws) + tail;
  }

  lemma {:induction false} CompleteAfter(ws: seq<Write>, rest: Bytes)
    requires AllFit(ws)
    ensures Complete(Encode(ws) + rest) <==> Complete(rest)
  {
    hide Record, Complete;
    if ws != [] {
      CompleteAfter(ws[1..], rest);
      DecodeRecord(ws[0], Encode(ws[1..]) + rest);
      assert Encode(ws) + rest == Record(ws[0]) + (Encode(ws[1..]) + rest);
    } else {
      assert Encode(ws) + rest == rest;
    }
  }

  /** A log cut inside a payload makes recovery read bytes that are not there. */
  lemma CutInsidePayload(ws: seq<Write>, k: nat, cut: nat)
    requires AllFit(ws)
    requires k < |ws| && |Encode(ws[..k])| + HEADER_SIZE <= cut < |Encode(ws[..k + 1])|
    ensures cut <= |Encode(ws)| && !Complete(Encode(ws)[..cut])
  {
    hide Record, Fits, Field, HasRecord, PayloadSize, Payload;
    EncodePrefix(ws, k);
    EncodePrefix(ws, k + 1);
    assert ws[..k + 1] == ws[..k] + [ws[k]];
    EncodeAppend(ws[..k], ws[k]);
    var head, record := Encode(ws[..k]), Record(ws[k]);
    var torn := record[..cut - |head|];
    assert Encode(ws)[..cut] == head + torn;
    CompleteAfter(ws[..k], torn);
    assert ws[k] in ws;
    TornRecord(ws[k], |torn|);
  }

  lemma TornRecord(w: Write, n: nat)
    requires Fits(w) && HEADER_SIZE <= n < |Record(w)|
    ensures !Complete(Record(w)[..n])
  {
    hide Record, Complete;
    RecordShape(w, []);
    assert Record(w) + [] == Record(w);
    SameFields(Record(w), n);
    TooShort(Record(w)[..n]);
  }

  lemma SameFields(s: Bytes, n: nat)
    requires HEADER_SIZE <= n <= |s|
    ensures Field(s[..n], 0) == Field(s, 0) && Field(s[..n], 16) == Field(s, 16) && Field(s[..n], 20) == Field(s, 20)
  {
    assert s[..n][0..4] == s[0..4] && s[..n][16..20] == s[16..20] && s[..n][20..24] == s[20..24];
  }

  lemma TooShort(log: Bytes)
    requires HasRecord(log) && |log| < HEADER_SIZE + PayloadSize(log)
    ensures !Complete(log)
  {
  }

  // ----- A header torn by a crash, and a later process that appends behind it -----

  /** The log after a crash that left `n` bytes of the header of `w`, and the writes of the next process. */
  function TornLog(ws: seq<Write>, w: Write, n: nat, vs: seq<Write>): Bytes
    requires n < HEADER_SIZE
  {
    Encode(ws) + (Record(w)[..n] + Encode(vs))
  }

  ghost predicate Yields(log: Bytes, ws: seq<Write>) {
    Complete(log) && Decode(log) == ws
  }

  /** Whatever was being written, recovery finds all that was written before and after the crash. */
  ghost predicate SurvivesTear(n: nat)
    requires n < HEADER_SIZE
  {
    forall ws: seq<Write>, w: Write, vs: seq<Write> :: AllFit(ws) && Fits(w) && AllFit(vs) ==>
      Yields(TornLog(ws, w, n, vs), ws + vs)
  }

  lemma {:induction false} EncodeConcat(ws: seq<Write>, vs: seq<Write>)
    ensures Encode(ws + vs) == Encode(ws) + Encode(vs)
  {
    hide Record;
    if ws == [] {
      assert ws + vs == vs;
    } else {
      EncodeConcat(ws[1..], vs);
      assert (ws + vs)[1..] == ws[1..] + vs;
    }
  }

  lemma FieldIs(log: Bytes, at: nat)
    requires at + 4 <= |log|
    ensures Field(log, at) == log[at] as nat + 256 * log[at + 1] as nat + 65536 * log[at + 2] as nat + 16777216 * log[at + 3] as nat
  {
  }

  lemma HeaderBytes(kind: byte, keySize: byte, valueSize: byte)
    ensures var h := Header(kind as nat, keySize as nat, valueSize as nat);
      && h[0] == 0 && h[1] == 0x4C && h[2] == 0x41 && h[3] == 0x57 && h[4] == kind && h[16] == keySize && h[20] == valueSize
      && forall i :: 5 <= i < HEADER_SIZE && i != 16 && i != 20 ==> h[i] == 0
  {
    U32Small(kind);
    U32Small(keySize);
    U32Small(valueSize);
    assert U32(MAGIC) == [0, 0x4C, 0x41, 0x57];
    hide U32;
  }

  lemma U32Small(b: byte)
    ensures U32(b as nat) == [b, 0, 0, 0]
  {
  }

  /** Bytes of the header of a put of one byte under the empty key. */
  function PutByte(i: nat): byte {
    if i == 1 then 0x4C else if i == 2 then 0x41 else if i == 3 then 0x57 else if i == 16 || i == 20 then 1 else 0
  }

  /** Bytes of the record of a delete of the empty key. */
  function DeleteByte(i: nat): byte {
    if i == 1 then 0x4C else if i == 2 then 0x41 else if i == 3 then 0x57 else if i == 4 || i == 16 then 1 else 0
  }

  /** One torn header in front of one record. */
  predicate IsSample(log: Bytes, n: nat) {
    |log| == n + 25 && forall i :: 0 <= i < |log| ==> log[i] == if i < n then PutByte(i) else DeleteByte(i - n)
  }

  lemma SampleRecords()
    ensures |Record(PutWrite([], [1]))| >= HEADER_SIZE && |Record(DeleteWrite([]))| == 25
    ensures forall i :: 0 <= i < HEADER_SIZE ==> Record(PutWrite([], [1]))[i] == PutByte(i)
    ensures forall i :: 0 <= i < 25 ==> Record(DeleteWrite([]))[i] == DeleteByte(i)
  {
    HeaderBytes(0, 1, 1);
    HeaderBytes(1, 1, 0);
    hide Header;
    var put, delete := Header(0, 1, 1), Header(1, 1, 0);
    assert Record(PutWrite([], [1])) == put + [0, 1];
    assert Record(DeleteWrite([])) == delete + [0];
  }

  lemma TornSample(n: nat)
    requires n < HEADER_SIZE
    ensures IsSample(TornLog([], PutWrite([], [1]), n, [DeleteWrite([])]), n) && [] + [DeleteWrite([])] == [DeleteWrite([])]
  {
    hide Record, PutByte, DeleteByte;
    SampleRecords();
    var put, delete := Record(PutWrite([], [1])), Record(DeleteWrite([]));
    assert Encode([DeleteWrite([])]) == delete;
    assert TornLog([], PutWrite([], [1]), n, [DeleteWrite([])]) == put[..n] + delete;
  }

  /** The sizes are assembled from both headers: a byte out of place makes the payload longer than the log. */
  lemma SampleTooLong(log: Bytes, n: nat)
    requires IsSample(log, n) && (5 <= n <= 7 || 13 <= n <= 22)
    ensures !Complete(log)
  {
    hide Field, Complete;
    FieldIs(log, 0);
    FieldIs(log, 16);
    FieldIs(log, 20);
    assert log[17] != 0 || log[18] != 0 || log[19] != 0 || log[21] != 0 || log[22] != 0 || log[23] != 0;
    assert log[0] == 0 && log[1] == 0x4C && log[2] == 0x41 && log[3] == 0x57;
    hide IsSample;
    assert PayloadSize(log) >= 256;
    TooShort(log);
  }

  lemma SampleFields(log: Bytes, n: nat)
    requires IsSample(log, n) && (n == 4 || 8 <= n <= 12 || n == 23)
    ensures HasRecord(log) && Field(log, 4) == (if n == 4 then MAGIC else KIND_PUT)
    ensures PayloadSize(log) == if n == 4 || n == 12 then 1 else if n == 23 then 2 else 0
  {
    hide Field;
    FieldIs(log, 0);
    FieldIs(log, 4);
    FieldIs(log, 16);
    FieldIs(log, 20);
    assert log[0] == 0 && log[1] == 0x4C && log[2] == 0x41 && log[3] == 0x57;
    assert log[17] == log[18] == log[19] == log[21] == log[22] == log[23] == 0;
  }

  /** The first record is read without a key, or as one that is not the delete. */
  lemma SampleMisread(log: Bytes, n: nat)
    requires IsSample(log, n) && (n == 4 || 8 <= n <= 12 || n == 23)
    ensures !Yields(log, [DeleteWrite([])])
  {
    hide Field, HasRecord, PayloadSize;
    SampleFields(log, n);
    if n == 4 {
      NothingAfter(log[25..]);
    } else if n == 23 {
      assert log[24] == 0x4C && log[25] == 0x41 && 0 !in log[24..26];
    } else if n == 12 {
      assert Complete(log) ==> Decode(log)[0] == FirstWrite(log).value;
    }
  }

  lemma NothingAfter(rest: Bytes)
    requires |rest| < HEADER_SIZE
    ensures Decode(rest) == []
  {
  }

  lemma SampleNoMagic(log: Bytes, n: nat)
    requires IsSample(log, n) && 1 <= n <= 3
    ensures !Yields(log, [DeleteWrite([])])
  {
    FieldIs(log, 0);
    assert log[1] != 0x4C || log[2] != 0x41 || log[3] != 0x57;
  }

  /** What a later process appends is recovered, in every case, exactly when the crash left no part of a header. */
  lemma TearIff(n: nat)
    requires n < HEADER_SIZE
    ensures SurvivesTear(n) <==> n == 0
  {
    hide Record, Encode, Complete, Decode;
    if n == 0 {
      forall ws: seq<Write>, w: Write, vs: seq<Write> | AllFit(ws) && Fits(w) && AllFit(vs)
        ensures Yields(TornLog(ws, w, n, vs), ws + vs)
      {
        EncodeConcat(ws, vs);
        DecodeEncode(ws + vs, []);
        assert TornLog(ws, w, 0, vs) == Encode(ws + vs) + [];
      }
    } else {
      TornSample(n);
      var log := TornLog([], PutWrite([], [1]), n, [DeleteWrite([])]);
      if n <= 3 {
        SampleNoMagic(log, n);
      } else if 5 <= n <= 7 || 13 <= n <= 22 {
        SampleTooLong(log, n);
      } else {
        SampleMisread(log, n);
      }
      assert AllFit([]) && Fits(PutWrite([], [1])) && AllFit([DeleteWrite([])]);
    }
  }
}
