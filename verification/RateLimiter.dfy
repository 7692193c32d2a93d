/**
 The per-client rate limiter: a fixed window that starts with a client's first request and is
 replaced by the first request after it has run out.
 */
module RateLimiter {
  import opened Common

  datatype Config = Config(maxRequests: int, windowMs: nat)

  datatype Window = Window(start: nat, count: int)

  type Clients = map<Key, Window>

  datatype Call = Allow(client: Key, now: nat) | Reset(client: Key, now: nat)

  /** Largest number of requests one window admits. */
  function Quota(cfg: Config): nat {
    if cfg.maxRequests < 0 then 0 else cfg.maxRequests
  }

  /** The window in force for a request at `now`. */
  function Current(cfg: Config, m: Clients, client: Key, now: nat): Window {
    if client in m && now - m[client].start <= cfg.windowMs then m[client] else Window(now, 0)
  }

  function Decide(cfg: Config, m: Clients, call: Call): (r: (Clients, bool)) {
    match call
    case Allow(client, now) =>
      var w := Current(cfg, m, client, now);
      if w.count >= cfg.maxRequests then (m[client := w], false)
      else (m[client := w.(count := w.count + 1)], true)
    case Reset(client, _) => (m - {client}, false)
  }

  predicate Ordered(calls: seq<Call>) {
    forall i, j :: 0 <= i < j < |calls| ==> calls[i].now <= calls[j].now
  }

  predicate NoReset(calls: seq<Call>, client: Key) {
    forall i :: 0 <= i < |calls| ==> calls[i] != Reset(client, calls[i].now)
  }

  /** The answers a client gets to its own requests during a run. */
  function Answers(cfg: Config, m: Clients, calls: seq<Call>, client: Key): seq<bool>
    decreases |calls|
  {
    if calls == [] then []
    else
      var r := Decide(cfg, m, calls[0]);
      (if calls[0] == Allow(client, calls[0].now) then [r.1] else []) + Answers(cfg, r.0, calls[1..], client)
  }

  /** How many requests of a client are admitted at times from `a` to `b`. */
  function Admitted(cfg: Config, m: Clients, calls: seq<Call>, client: Key, a: int, b: int): nat
    decreases |calls|
  {
    if calls == [] then 0
    else
      var r := Decide(cfg, m, calls[0]);
      (if calls[0].client == client && r.1 && a <= calls[0].now <= b then 1 else 0)
      + Admitted(cfg, r.0, calls[1..], client, a, b)
  }

  // ----- The limiter object -----

  datatype Entry = Entry(client: Key, window: Window)

  class Node {
    const client: Key
    var start: nat
    var count: int
    var next: Node?

    constructor (client: Key, start: nat, next: Node?)
      ensures View() == Entry(client, Window(start, 0)) && this.next == next
    {
      this.client, this.start, this.count, this.next := client, start, 0, next;
    }

    ghost function View(): Entry
      reads this`start, this`count
    {
      Entry(client, Window(start, count))
    }
  }

  ghost function At(nodes: seq<Node>, i: int): Node? {
    if 0 <= i < |nodes| then nodes[i] else null
  }

  ghost predicate Linked(nodes: seq<Node>, head: Node?)
    reads nodes`next
  {
    && head == At(nodes, 0)
    && forall i {:trigger nodes[i].next} :: 0 <= i < |nodes| ==> nodes[i].next == At(nodes, i + 1)
  }

  /** `entries` is what the nodes hold. */
  ghost predicate Shows(nodes: seq<Node>, entries: seq<Entry>)
    reads nodes`start, nodes`count
  {
    |entries| == |nodes| && forall i :: 0 <= i < |nodes| ==> entries[i] == nodes[i].View()
  }

  ghost predicate Lists(entries: seq<Entry>, m: Clients) {
    && (forall i, j :: 0 <= i < j < |entries| ==> entries[i].client != entries[j].client)
    && (forall i :: 0 <= i < |entries| ==> entries[i].client in m && m[entries[i].client] == entries[i].window)
    && (forall client :: client in m ==> Listed(entries, client))
  }

  ghost predicate Listed(entries: seq<Entry>, client: Key) {
    exists i :: 0 <= i < |entries| && entries[i].client == client
  }

  class Limiter {
    const cfg: Config
    var head: Node?

    ghost var nodes: seq<Node>
    ghost var repr: set<Node>
    ghost var entries: seq<Entry>
    ghost var clients: Clients

    ghost predicate Valid()
      reads this, repr
    {
      && (forall i :: 0 <= i < |nodes| ==> nodes[i] in repr)
      && Linked(nodes, head) && Shows(nodes, entries) && Lists(entries, clients)
    }

    constructor (maxRequests: int, windowMs: nat)
      ensures Valid() && clients == map[] && cfg == Config(maxRequests, windowMs) && fresh(repr)
    {
      cfg, head := Config(maxRequests, windowMs), null;
      nodes, repr, entries, clients := [], {}, [], map[];
    }

    /** Walks the list up to the entry of the client; `prev` is the entry before it. */
    method FindEntry(client: Key) returns (prev: Node?, entry: Node?, ghost i: nat)
      requires Valid()
      ensures i <= |nodes| && entry == At(nodes, i) && prev == At(nodes, i - 1)
      ensures entry == null <==> client !in clients
      ensures entry != null ==> entry.client == client && entry.View() == Entry(client, clients[client])
    {
      prev, entry, i := null, head, 0;
      while entry != null && entry.client != client
        invariant 0 <= i <= |nodes| && entry == At(nodes, i) && prev == At(nodes, i - 1)
        invariant forall k :: 0 <= k < i ==> entries[k].client != client
        decreases |nodes| - i
      {
        prev := entry;
        entry := entry.next;
        i := i + 1;
      }
      assert entry != null ==> entries[i] == entry.View();
    }

    /** Puts a new entry in front of the list. */
    method PushFront(client: Key, now: nat) returns (entry: Node)
      requires Valid() && client !in clients
      modifies this`head, this`nodes, this`repr, this`entries, this`clients
      ensures Valid() && clients == old(clients)[client := Window(now, 0)] && fresh(repr - old(repr))
      ensures nodes == [entry] + old(nodes) && fresh(entry) && entry.View() == Entry(client, Window(now, 0))
    {
      hide Lists;
      entry := new Node(client, now, head);
      InsertLists(entries, clients, client, Window(now, 0));
      head := entry;
      nodes, repr, entries := [entry] + nodes, repr + {entry}, [entry.View()] + entries;
      clients := clients[client := Window(now, 0)];
    }

    method Write(entry: Node, ghost i: nat, start: nat, count: int)
      requires Shows(nodes, entries) && i < |nodes| && nodes[i] == entry
      requires forall j, k :: 0 <= j < k < |nodes| ==> nodes[j] != nodes[k]
      modifies this`entries, entry`start, entry`count
      ensures Shows(nodes, entries) && entries == old(entries)[i := Entry(entry.client, Window(start, count))]
      ensures entry.View() == Entry(entry.client, Window(start, count))
    {
      entry.start, entry.count := start, count;
      entries := entries[i := entry.View()];
    }

    /** Writes the window of the entry at position `i`. */
    method SetWindow(entry: Node, ghost i: nat, start: nat, count: int)
      requires Valid() && i < |nodes| && nodes[i] == entry
      modifies this`entries, this`clients, entry`start, entry`count
      ensures Valid() && clients == old(clients)[entry.client := Window(start, count)]
      ensures entry.View() == Entry(entry.client, Window(start, count))
    {
      hide Lists, Linked, Shows;
      NamesDiffer(nodes, entries, clients);
      ShownAt(nodes, entries, i);
      UpdateLists(entries, clients, i, Window(start, count));
      Write(entry, i, start, count);
      clients := clients[entry.client := Window(start, count)];
    }

    /** The clock must not have gone back since the client's window started. */
    method Allow(client: Option<Key>, now: nat) returns (allowed: bool)
      requires Valid() && (client.Some? && client.value in clients ==> clients[client.value].start <= now)
      modifies this, repr
      ensures Valid() && fresh(repr - old(repr))
      ensures if client.None? then !allowed && clients == old(clients)
        else
          var r := Decide(cfg, old(clients), Call.Allow(client.value, now));
          clients == r.0 && allowed == r.1
      ensures client.Some? ==>
        var running := client.value in old(clients) && now <= old(clients)[client.value].start + cfg.windowMs;
        var w := if running then old(clients)[client.value] else Window(now, 0);
        && (allowed <==> w.count < cfg.maxRequests)
        && clients == old(clients)[client.value := Window(w.start, if allowed then w.count + 1 else w.count)]
    {
      hide Lists, Linked, Shows;
      if client.None? {
        return false;
      }
      var _, entry, i := FindEntry(client.value);
      if entry == null {
        entry := PushFront(client.value, now);
        i := 0;
      }
      if now - entry.start > cfg.windowMs {
        SetWindow(entry, i, now, 0);
      }
      if entry.count >= cfg.maxRequests {
        return false;
      }
      SetWindow(entry, i, entry.start, entry.count + 1);
      return true;
    }

    /** Bypasses the entry at position `i`. */
    method Unlink(prev: Node?, entry: Node, ghost i: nat)
      requires Valid() && i < |nodes| && nodes[i] == entry && prev == At(nodes, i - 1)
      modifies this`head, this`nodes, repr`next
      ensures nodes == RemoveAt(old(nodes), i) && Linked(nodes, head)
    {
      hide Lists, Shows;
      NamesDiffer(nodes, entries, clients);
      if prev != null {
        prev.next := entry.next;
      } else {
        head := entry.next;
      }
      BypassKeepsLinks(nodes, i, head);
      nodes := RemoveAt(nodes, i);
    }

    method Reset(client: Option<Key>) returns (status: Status)
      requires Valid()
      modifies this, repr
      ensures Valid() && repr == old(repr)
      ensures if client.None? then status == InvalidParam && clients == old(clients)
        else
          && clients == old(clients) - {client.value}
          && status == if client.value in old(clients) then Success else NotFound
    {
      hide Lists, Linked;
      if client.None? {
        return InvalidParam;
      }
      var prev, entry, i := FindEntry(client.value);
      if entry == null {
        assert clients - {client.value} == clients;
        return NotFound;
      }
      RemoveLists(entries, clients, i);
      Unlink(prev, entry, i);
      entries := RemoveAt(entries, i);
      clients := clients - {client.value};
      return Success;
    }
  }

  lemma NamesDiffer(nodes: seq<Node>, entries: seq<Entry>, m: Clients)
    requires Shows(nodes, entries) && Lists(entries, m)
    ensures forall i, j :: 0 <= i < j < |nodes| ==> nodes[i] != nodes[j]
  {
    forall i, j | 0 <= i < j < |nodes| ensures nodes[i] != nodes[j] {
      assert entries[i].client != entries[j].client;
    }
  }

  lemma ShownAt(nodes: seq<Node>, entries: seq<Entry>, i: nat)
    requires Shows(nodes, entries) && i < |nodes|
    ensures |entries| == |nodes| && entries[i].client == nodes[i].client
  {
  }

  lemma BypassKeepsLinks(nodes: seq<Node>, i: nat, head: Node?)
    requires i < |nodes| && head == if i == 0 then At(nodes, 1) else nodes[0]
    requires forall k {:trigger nodes[k].next} :: 0 <= k < |nodes| ==>
      nodes[k].next == if k == i - 1 then At(nodes, i + 1) else At(nodes, k + 1)
    ensures Linked(RemoveAt(nodes, i), head)
  {
  }

  lemma InsertLists(entries: seq<Entry>, m: Clients, client: Key, w: Window)
    requires Lists(entries, m) && client !in m
    ensures Lists([Entry(client, w)] + entries, m[client := w])
  {
    var r := [Entry(client, w)] + entries;
    assert r[0].client == client;
    forall c | c in m ensures Listed(r, c) {
      assert Listed(entries, c);
      var k :| 0 <= k < |entries| && entries[k].client == c;
      assert r[k + 1] == entries[k];
    }
  }

  lemma UpdateLists(entries: seq<Entry>, m: Clients, i: nat, w: Window)
    requires Lists(entries, m) && i < |entries|
    ensures Lists(entries[i := entries[i].(window := w)], m[entries[i].client := w])
  {
    var r := entries[i := entries[i].(window := w)];
    assert r[i].client == entries[i].client;
    forall c | c in m ensures Listed(r, c) {
      assert Listed(entries, c);
      var k :| 0 <= k < |entries| && entries[k].client == c;
      assert r[k].client == c;
    }
  }

  lemma StillListed(entries: seq<Entry>, i: nat, client: Key)
    requires i < |entries| && Listed(entries, client) && client != entries[i].client
    ensures Listed(RemoveAt(entries, i), client)
  {
    var k :| 0 <= k < |entries| && entries[k].client == client;
    assert RemoveAt(entries, i)[if k < i then k else k - 1] == entries[k];
  }

  lemma RemoveLists(entries: seq<Entry>, m: Clients, i: nat)
    requires Lists(entries, m) && i < |entries|
    ensures Lists(RemoveAt(entries, i), m - {entries[i].client})
  {
    hide Listed;
    var r, gone := RemoveAt(entries, i), entries[i].client;
    RemoveDistinct(entries, i);
    forall k | 0 <= k < |r| ensures r[k].client in m && m[r[k].client] == r[k].window {
      assert r[k] == entries[if k < i then k else k + 1];
    }
    forall c | c in m && c != gone ensures Listed(r, c) {
      StillListed(entries, i, c);
    }
  }

  lemma RemoveDistinct(entries: seq<Entry>, i: nat)
    requires i < |entries| && forall j, k :: 0 <= j < k < |entries| ==> entries[j].client != entries[k].client
    ensures var r := RemoveAt(entries, i);
      && (forall j, k :: 0 <= j < k < |r| ==> r[j].client != r[k].client)
      && (forall k :: 0 <= k < |r| ==> r[k].client != entries[i].client)
  {
  }

  // ----- Clients do not influence each other -----

  function Only(calls: seq<Call>, client: Key): seq<Call> {
    if calls == [] then []
    else (if calls[0].client == client then [calls[0]] else []) + Only(calls[1..], client)
  }

  ghost predicate SameFor(m: Clients, m': Clients, client: Key) {
    (client in m <==> client in m') && (client in m ==> m[client] == m'[client])
  }

  lemma {:induction false} ClientIndependence(cfg: Config, m: Clients, m': Clients, calls: seq<Call>, client: Key)
    requires SameFor(m, m', client)
    ensures Answers(cfg, m, calls, client) == Answers(cfg, m', Only(calls, client), client)
    decreases |calls|
  {
    if calls != [] {
      var r := Decide(cfg, m, calls[0]);
      if calls[0].client == client {
        var r' := Decide(cfg, m', calls[0]);
        ClientIndependence(cfg, r.0, r'.0, calls[1..], client);
        assert Only(calls, client)[0] == calls[0] && Only(calls, client)[1..] == Only(calls[1..], client);
      } else {
        ClientIndependence(cfg, r.0, m', calls[1..], client);
        assert Only(calls, client) == Only(calls[1..], client);
      }
    }
  }

  /** After a reset a client is treated as if it had never called. */
  lemma ResetForgets(cfg: Config, m: Clients, calls: seq<Call>, client: Key, now: nat)
    ensures Answers(cfg, Decide(cfg, m, Reset(client, now)).0, calls, client) == Answers(cfg, map[], calls, client)
  {
    ClientIndependence(cfg, Decide(cfg, m, Reset(client, now)).0, map[], calls, client);
    ClientIndependence(cfg, map[], map[], calls, client);
  }

  // ----- How many requests a span of time can admit -----

  /** A window in force has been used at least once: the request that opened it. */
  ghost predicate Sane(cfg: Config, m: Clients, client: Key, calls: seq<Call>) {
    client in m ==>
      && 0 <= m[client].count <= Quota(cfg) && (1 <= Quota(cfg) ==> 1 <= m[client].count)
      && forall i :: 0 <= i < |calls| ==> m[client].start <= calls[i].now
  }

  lemma DecideSane(cfg: Config, m: Clients, client: Key, calls: seq<Call>)
    requires calls != [] && Ordered(calls) && Sane(cfg, m, client, calls)
    ensures Sane(cfg, Decide(cfg, m, calls[0]).0, client, calls[1..])
  {
  }

  lemma {:induction false} NothingAfter(cfg: Config, m: Clients, calls: seq<Call>, client: Key, a: int, b: int)
    requires forall i :: 0 <= i < |calls| ==> b < calls[i].now
    ensures Admitted(cfg, m, calls, client, a, b) == 0
    decreases |calls|
  {
    if calls != [] { NothingAfter(cfg, Decide(cfg, m, calls[0]).0, calls[1..], client, a, b); }
  }

  /** `quota` for every time a window of `d` milliseconds fits into `x`. */
  function Budget(quota: nat, x: int, d: nat): nat
    requires d >= 1
    decreases x
  {
    if x < d then 0 else quota + Budget(quota, x - d, d)
  }

  lemma {:induction false} BudgetMonotone(quota: nat, x: int, y: int, d: nat)
    requires d >= 1 && x <= y
    ensures Budget(quota, x, d) <= Budget(quota, y, d)
    decreases x
  {
    if x >= d { BudgetMonotone(quota, x - d, y - d, d); }
  }

  lemma SmallMultiple(k: int, d: int, e: int)
    requires k * d == e && -d < e < d
    ensures k == 0
  {
  }

  lemma QuotientUnique(x: nat, d: nat, q: nat, r: nat)
    requires d >= 1 && x == q * d + r && r < d
    ensures x / d == q
  {
    assert x == (x / d) * d + x % d;
    SmallMultiple(x / d - q, d, r - x % d);
  }

  /**
   The most requests of one client that a span of `x` milliseconds can admit, when a window lasts `d`:
   what is left of a window that opened before the span, then as many full windows as fit.
   */
  function Peak(quota: nat, x: nat, d: nat): nat
    requires d >= 1
  {
    if quota == 0 then 0
    else if x == 0 then quota
    else if x < d then 2 * quota - 1
    else quota + Peak(quota, x - d, d)
  }

  lemma OneDivisorLess(x: nat, d: nat)
    requires 1 <= d <= x
    ensures x / d == (x - d) / d + 1 && x % d == (x - d) % d
  {
    assert x - d == ((x - d) / d) * d + (x - d) % d;
    QuotientUnique(x, d, (x - d) / d + 1, (x - d) % d);
  }

  lemma OneFactorMore(a: nat, b: nat)
    ensures a * (b + 1) == a * b + a
  {
  }

  /** The peak in closed form, `full` windows and a remainder or none. */
  lemma {:induction false} PeakIs(quota: nat, x: nat, d: nat)
    requires d >= 1 && quota >= 1
    ensures var full := x / d; Peak(quota, x, d) == quota * full + if x % d == 0 then quota else 2 * quota - 1
  {
    if x >= d {
      PeakIs(quota, x - d, d);
      OneDivisorLess(x, d);
      OneFactorMore(quota, (x - d) / d);
    } else {
      QuotientUnique(x, d, 0, x);
    }
  }

  lemma {:induction false} PeakCovers(quota: nat, x: nat, d: nat)
    requires d >= 1 && quota >= 1
    ensures quota + Budget(quota, x, d) <= Peak(quota, x, d)
    ensures quota - 1 + Budget(quota, x + d - 1, d) <= Peak(quota, x, d)
  {
    if x >= d { PeakCovers(quota, x - d, d); }
  }

  /** From a window on, admissions up to `b` are what is left in it plus full windows that fit. */
  lemma {:induction false} FromWindow(cfg: Config, m: Clients, calls: seq<Call>, client: Key, a: int, b: nat)
    requires Ordered(calls) && NoReset(calls, client) && client in m && Sane(cfg, m, client, calls)
    requires m[client].start <= b
    ensures Admitted(cfg, m, calls, client, a, b) <=
      Quota(cfg) - m[client].count + Budget(Quota(cfg), b - m[client].start, cfg.windowMs + 1)
    decreases |calls|
  {
    var q, d, w := Quota(cfg), cfg.windowMs + 1, m[client];
    if calls == [] {
    } else if calls[0].now > b {
      NothingAfter(cfg, m, calls, client, a, b);
    } else {
      var m' := Decide(cfg, m, calls[0]).0;
      DecideSane(cfg, m, client, calls);
      assert client in m';
      FromWindow(cfg, m', calls[1..], client, a, b);
      if calls[0].client == client && calls[0].now - w.start > cfg.windowMs {
        BudgetMonotone(q, b - calls[0].now, b - w.start - d, d);
      }
    }
  }

  /** A span whose first request of the client is the next call. */
  lemma SpanStartsHere(cfg: Config, m: Clients, calls: seq<Call>, client: Key, a: nat, b: nat)
    requires Quota(cfg) >= 1 && Ordered(calls) && NoReset(calls, client) && Sane(cfg, m, client, calls)
    requires calls != [] && calls[0].client == client && a <= calls[0].now <= b
    ensures Admitted(cfg, m, calls, client, a, b) <= Peak(Quota(cfg), b - a, cfg.windowMs + 1)
  {
    hide Peak;
    var q, d, t := Quota(cfg), cfg.windowMs + 1, calls[0].now;
    PeakCovers(q, b - a, d);
    if client in m && t - m[client].start <= cfg.windowMs {
      FromWindow(cfg, m, calls, client, a, b);
      BudgetMonotone(q, b - m[client].start, b - a + d - 1, d);
    } else {
      DecideSane(cfg, m, client, calls);
      FromWindow(cfg, Decide(cfg, m, calls[0]).0, calls[1..], client, a, b);
      BudgetMonotone(q, b - t, b - a, d);
    }
  }

  lemma {:induction false} AnySpan(cfg: Config, m: Clients, calls: seq<Call>, client: Key, a: nat, b: nat)
    requires a <= b && Ordered(calls) && NoReset(calls, client) && Sane(cfg, m, client, calls)
    ensures Admitted(cfg, m, calls, client, a, b) <= Peak(Quota(cfg), b - a, cfg.windowMs + 1)
    decreases |calls|
  {
    hide Peak;
    if calls != [] {
      DecideSane(cfg, m, client, calls);
      if calls[0].now > b {
        NothingAfter(cfg, m, calls, client, a, b);
      } else if calls[0].client == client && calls[0].now >= a && Quota(cfg) >= 1 {
        SpanStartsHere(cfg, m, calls, client, a, b);
      } else {
        AnySpan(cfg, Decide(cfg, m, calls[0]).0, calls[1..], client, a, b);
      }
    }
  }

  /**
   In any run without a reset of the client, a closed span of `length` milliseconds admits at most Peak
   requests, hence at most maxRequests * (length / (windowMs + 1) + 2), and in a span of one window at most
   twice maxRequests.
   */
  lemma RateBound(cfg: Config, calls: seq<Call>, client: Key, from: nat, length: nat)
    requires Ordered(calls) && NoReset(calls, client)
    ensures var n := Admitted(cfg, map[], calls, client, from, from + length);
      && n <= Peak(Quota(cfg), length, cfg.windowMs + 1)
      && n <= Quota(cfg) * (length / (cfg.windowMs + 1) + 2)
      && (length <= cfg.windowMs ==> n <= 2 * Quota(cfg))
  {
    hide Admitted;
    var q, d := Quota(cfg), cfg.windowMs + 1;
    AnySpan(cfg, map[], calls, client, from, from + length);
    if q >= 1 {
      PeakIs(q, length, d);
      OneFactorMore(q, length / d);
      OneFactorMore(q, length / d + 1);
    }
  }

  // ----- The bound is reached -----

  function Repeat(call: Call, n: nat): seq<Call> {
    seq(n, _ => call)
  }

  lemma AdmittedCons(cfg: Config, m: Clients, call: Call, rest: seq<Call>, client: Key, a: int, b: int)
    ensures var r := Decide(cfg, m, call);
      Admitted(cfg, m, [call] + rest, client, a, b) ==
        (if call.client == client && r.1 && a <= call.now <= b then 1 else 0) + Admitted(cfg, r.0, rest, client, a, b)
  {
    assert ([call] + rest)[1..] == rest;
  }

  lemma InsideWindow(cfg: Config, m: Clients, call: Call, w: Window)
    requires call.Allow? && call.client in m && m[call.client] == w
    requires call.now - w.start <= cfg.windowMs && w.count < cfg.maxRequests
    ensures Decide(cfg, m, call) == (m[call.client := Window(w.start, w.count + 1)], true)
  {
  }

  lemma SetTwice(m: Clients, client: Key, first: Window, second: Window)
    ensures m[client := first][client := second] == m[client := second]
    ensures client in m && m[client] == first ==> m[client := first] == m
  {
  }

  lemma RepeatCons(call: Call, n: nat, rest: seq<Call>)
    ensures if n == 0 then Repeat(call, n) + rest == rest
      else Repeat(call, n) + rest == [call] + (Repeat(call, n - 1) + rest)
  {
  }

  /** `n` requests at one moment inside an open window with room for them are all admitted. */
  lemma {:induction false} Burst(cfg: Config, m: Clients, call: Call, w: Window, n: nat, rest: seq<Call>, a: int, b: int)
    requires call.Allow? && a <= call.now <= b && call.client in m && m[call.client] == w
    requires call.now - w.start <= cfg.windowMs && w.count + n <= cfg.maxRequests
    ensures Admitted(cfg, m, Repeat(call, n) + rest, call.client, a, b) ==
      n + Admitted(cfg, m[call.client := Window(w.start, w.count + n)], rest, call.client, a, b)
    decreases n
  {
    hide Admitted, Decide, Repeat;
    RepeatCons(call, n, rest);
    if n == 0 {
      SetTwice(m, call.client, w, w);
    } else {
      var w' := Window(w.start, w.count + 1);
      InsideWindow(cfg, m, call, w);
      Burst(cfg, m[call.client := w'], call, w', n - 1, rest, a, b);
      AdmittedCons(cfg, m, call, Repeat(call, n - 1) + rest, call.client, a, b);
      SetTwice(m, call.client, w', Window(w.start, w.count + n));
    }
  }

  /** A full quota of requests at one moment when no window is in force. */
  lemma FullBurst(cfg: Config, m: Clients, call: Call, rest: seq<Call>, a: int, b: int)
    requires cfg.maxRequests >= 1 && call.Allow? && a <= call.now <= b
    requires call.client in m ==> call.now - m[call.client].start > cfg.windowMs
    ensures Admitted(cfg, m, Repeat(call, cfg.maxRequests) + rest, call.client, a, b) ==
      cfg.maxRequests + Admitted(cfg, m[call.client := Window(call.now, cfg.maxRequests)], rest, call.client, a, b)
  {
    hide Admitted;
    var q := cfg.maxRequests;
    var begun := m[call.client := Window(call.now, 1)];
    RepeatCons(call, q, rest);
    AdmittedCons(cfg, m, call, Repeat(call, q - 1) + rest, call.client, a, b);
    Burst(cfg, begun, call, Window(call.now, 1), q - 1, rest, a, b);
    assert begun[call.client := Window(call.now, q)] == m[call.client := Window(call.now, q)];
  }

  /** A full quota at `t` and again whenever the window has just run out, for `x` milliseconds. */
  function Waves(client: Key, quota: nat, t: nat, x: int, d: nat): seq<Call>
    requires d >= 1
    decreases x
  {
    Repeat(Allow(client, t), quota) + if x < d then [] else Waves(client, quota, t + d, x - d, d)
  }

  lemma WavesAre(client: Key, quota: nat, t: nat, x: int, d: nat)
    requires d >= 1
    ensures Waves(client, quota, t, x, d) ==
      Repeat(Allow(client, t), quota) + if x < d then [] else Waves(client, quota, t + d, x - d, d)
  {
  }

  lemma {:induction false} WavesAdmitted(cfg: Config, m: Clients, client: Key, t: nat, x: nat, a: int, b: int)
    requires cfg.maxRequests >= 1 && a <= t && t + x <= b
    requires client in m ==> t - m[client].start > cfg.windowMs
    ensures Admitted(cfg, m, Waves(client, cfg.maxRequests, t, x, cfg.windowMs + 1), client, a, b) ==
      cfg.maxRequests + Budget(cfg.maxRequests, x, cfg.windowMs + 1)
    decreases x
  {
    hide Repeat, Admitted, Waves;
    var q, d, next := cfg.maxRequests, cfg.windowMs + 1, m[client := Window(t, cfg.maxRequests)];
    WavesAre(client, q, t, x, d);
    if x < d {
      FullBurst(cfg, m, Allow(client, t), [], a, b);
      NothingAfter(cfg, next, [], client, a, b);
    } else {
      FullBurst(cfg, m, Allow(client, t), Waves(client, q, t + d, x - d, d), a, b);
      WavesAdmitted(cfg, next, client, t + d, x - d, a, b);
    }
  }

  ghost predicate Requests(calls: seq<Call>, client: Key, t: nat) {
    Ordered(calls) && forall i :: 0 <= i < |calls| ==> calls[i] == Allow(client, calls[i].now) && t <= calls[i].now
  }

  lemma RequestsConcat(call: Call, n: nat, rest: seq<Call>, t: nat)
    requires call.Allow? && call.now <= t && Requests(rest, call.client, t)
    ensures Requests(Repeat(call, n) + rest, call.client, call.now)
  {
  }

  lemma {:induction false} WavesRequests(client: Key, quota: nat, t: nat, x: int, d: nat)
    requires d >= 1
    ensures Requests(Waves(client, quota, t, x, d), client, t)
    decreases x
  {
    if x < d {
      RequestsConcat(Allow(client, t), quota, [], t);
    } else {
      WavesRequests(client, quota, t + d, x - d, d);
      RequestsConcat(Allow(client, t), quota, Waves(client, quota, t + d, x - d, d), t + d);
    }
  }

  /** Whether windows of `d` milliseconds fill `x` without remainder. */
  predicate Aligned(x: nat, d: nat)
    requires d >= 1
  {
    if x < d then x == 0 else Aligned(x - d, d)
  }

  lemma {:induction false} PeakSplit(quota: nat, x: nat, d: nat)
    requires d >= 1 && quota >= 1
    ensures Aligned(x, d) ==> Peak(quota, x, d) == quota + Budget(quota, x, d)
    ensures !Aligned(x, d) ==> d >= 2 && x >= 1 && Peak(quota, x, d) == 2 * quota - 1 + Budget(quota, x - 1, d)
  {
    if x >= d { PeakSplit(quota, x - d, d); }
  }

  /** One request opens a window, the rest of the quota comes at its very end, and full windows follow. */
  lemma StraddleAdmits(cfg: Config, client: Key, x: nat) returns (calls: seq<Call>)
    requires cfg.maxRequests >= 1 && cfg.windowMs >= 1
    ensures Requests(calls, client, 0)
    ensures Admitted(cfg, map[], calls, client, cfg.windowMs, cfg.windowMs + 1 + x) ==
      2 * cfg.maxRequests - 1 + Budget(cfg.maxRequests, x, cfg.windowMs + 1)
  {
    hide Admitted, Budget, Repeat;
    var q, w, d := cfg.maxRequests, cfg.windowMs, cfg.windowMs + 1;
    var waves := Waves(client, q, d, x, d);
    var tail := Repeat(Allow(client, w), q - 1) + waves;
    calls := [Allow(client, 0)] + tail;
    WavesRequests(client, q, d, x, d);
    RequestsConcat(Allow(client, w), q - 1, waves, d);
    OneMore(Allow(client, 0), tail, w);
    var begun: Clients := map[client := Window(0, 1)];
    AdmittedCons(cfg, map[], Allow(client, 0), tail, client, w, d + x);
    assert Decide(cfg, map[], Allow(client, 0)).0 == begun;
    Burst(cfg, begun, Allow(client, w), Window(0, 1), q - 1, waves, w, d + x);
    WavesAdmitted(cfg, begun[client := Window(0, q)], client, d, x, w, d + x);
  }

  lemma OneMore(call: Call, rest: seq<Call>, t: nat)
    requires call.Allow? && call.now <= t && Requests(rest, call.client, t)
    ensures Requests([call] + rest, call.client, call.now)
  {
  }

  lemma RequestsRun(calls: seq<Call>, client: Key, t: nat)
    requires Requests(calls, client, t)
    ensures Ordered(calls) && NoReset(calls, client)
  {
  }

  lemma WavesReach(cfg: Config, client: Key, length: nat) returns (calls: seq<Call>, from: nat)
    requires cfg.maxRequests >= 1
    ensures Requests(calls, client, 0)
    ensures Admitted(cfg, map[], calls, client, from, from + length) == Peak(Quota(cfg), length, cfg.windowMs + 1)
  {
    hide Peak, Admitted, Aligned, Budget, Waves, Requests;
    var q, d := cfg.maxRequests, cfg.windowMs + 1;
    PeakSplit(q, length, d);
    if Aligned(length, d) {
      calls, from := Waves(client, q, 0, length, d), 0;
      WavesRequests(client, q, 0, length, d);
      WavesAdmitted(cfg, map[], client, 0, length, 0, length);
    } else {
      from := cfg.windowMs;
      calls := StraddleAdmits(cfg, client, length - 1);
    }
  }

  /** For every quota, window and length there is a run that admits Peak requests: the bound is exact. */
  lemma PeakReached(cfg: Config, client: Key, length: nat) returns (calls: seq<Call>, from: nat)
    ensures Ordered(calls) && NoReset(calls, client)
    ensures Admitted(cfg, map[], calls, client, from, from + length) == Peak(Quota(cfg), length, cfg.windowMs + 1)
  {
    calls, from := [], 0;
    if cfg.maxRequests >= 1 {
      hide Admitted, Peak, Ordered, NoReset, Requests;
      calls, from := WavesReach(cfg, client, length);
      RequestsRun(calls, client, 0);
    }
  }

  // ----- A sliding window? -----

  /** The promise of a sliding window: no span of one window length admits more than the quota. */
  ghost predicate SlidingWindow(cfg: Config) {
    forall calls: seq<Call>, client: Key, from: nat :: Ordered(calls) && NoReset(calls, client) ==>
      InOneWindow(cfg, calls, client, from) <= Quota(cfg)
  }

  function InOneWindow(cfg: Config, calls: seq<Call>, client: Key, from: nat): nat {
    Admitted(cfg, map[], calls, client, from, from + cfg.windowMs)
  }

  /** The limiter keeps the promise of a sliding window exactly for a quota of at most one or an empty window. */
  lemma SlidingWindowIff(cfg: Config)
    ensures SlidingWindow(cfg) <==> cfg.maxRequests <= 1 || cfg.windowMs == 0
  {
    hide Admitted;
    if cfg.maxRequests <= 1 || cfg.windowMs == 0 {
      forall calls: seq<Call>, client: Key, from: nat | Ordered(calls) && NoReset(calls, client)
        ensures InOneWindow(cfg, calls, client, from) <= Quota(cfg)
      {
        RateBound(cfg, calls, client, from, cfg.windowMs);
      }
    } else {
      var calls, from := PeakReached(cfg, [], cfg.windowMs);
      assert InOneWindow(cfg, calls, [], from) == 2 * cfg.maxRequests - 1;
    }
  }
}
