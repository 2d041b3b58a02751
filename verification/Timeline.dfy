/** The hash-chained event timeline (Payload/BattleLog/BattleLogExtractor.cpp:166-176, 257-335). The digest function is
    any function to nonempty text without bars; a call of it may fail. Payloads are their serialized text. */
module Timeline {
  import opened Basics

  const MAXIMUM_EVENTS := 4096
  const MATCH_ENDED := "MATCH_ENDED"

  type Hash = string -> string

  predicate NoBar(s: string) {
    forall k :: 0 <= k < |s| ==> s[k] != '|'
  }

  /** What is used of SHA-256 in hexadecimal: the text is nonempty and has no bar. */
  ghost predicate HashText(hash: Hash) {
    forall s :: hash(s) != "" && NoBar(hash(s))
  }

  datatype Event = Event(sequence: nat, kind: string, elapsed: nat, previousHash: string, hash: string, payload: string)

  /** `origin` is the text under the first digest. */
  datatype State = State(active: bool, finalized: bool, truncated: bool, sequence: nat, session: string, digest: string,
                         events: seq<Event>, origin: string)

  /** Match, capability and nonce of the process; opaque values of letters, digits, underscores and hyphens. */
  datatype Context = Context(matchId: string, capabilityId: string, nonce: string)

  predicate SoundContext(c: Context) {
    NoBar(c.matchId) && NoBar(c.capabilityId) && NoBar(c.nonce)
  }

  // ---- Decimal numbers ----

  function Decimal(n: nat): (s: string)
    ensures s != "" && NoBar(s)
  {
    var digit := '0' + (n % 10) as char;
    if n < 10 then [digit] else Decimal(n / 10) + [digit]
  }

  function NumberOf(s: string): int {
    if s == "" then 0 else 10 * NumberOf(s[..|s| - 1]) + (s[|s| - 1] as int - '0' as int)
  }

  lemma {:induction false} NumberOfDecimal(n: nat)
    ensures NumberOf(Decimal(n)) == n
  {
    var s := Decimal(n);
    if n >= 10 {
      NumberOfDecimal(n / 10);
      assert s[..|s| - 1] == Decimal(n / 10);
    } else {
      assert s[..0] == "";
    }
  }

  // ---- The texts under the digests ----

  function OriginText(c: Context, session: string): string {
    c.matchId + "|" + c.capabilityId + "|" + c.nonce + "|" + session
  }

  function EventText(previous: string, sequence: nat, kind: string, elapsed: nat, payloadDigest: string): string {
    previous + "|" + Decimal(sequence) + "|" + kind + "|" + Decimal(elapsed) + "|" + payloadDigest
  }

  /** The text under the hash of a recorded event. */
  function TextOf(hash: Hash, e: Event): string {
    EventText(e.previousHash, e.sequence, e.kind, e.elapsed, hash(e.payload))
  }

  // ---- The operations ----

  const BLANK := State(false, false, false, 0, "", "", [], "")

  /** A start resets; it becomes active when there is a session id and its first digest. */
  function Begun(hash: Hash, c: Context, session: Option<string>, hashed: bool): (State, bool) {
    if session.None? || session.value == "" then (BLANK, false)
    else
      var text := OriginText(c, session.value);
      var s := BLANK.(session := session.value, digest := if hashed then hash(text) else "", origin := text);
      if hashed then (s.(active := true), true) else (s, false)
  }

  predicate Full(s: State, kind: string) {
    |s.events| >= MAXIMUM_EVENTS || (kind != MATCH_ENDED && |s.events| >= MAXIMUM_EVENTS - 1)
  }

  function Appended(hash: Hash, s: State, kind: string, payload: string, elapsed: nat, payloadHashed: bool,
                    eventHashed: bool)
    : (State, bool)
  {
    if !s.active || s.finalized then (s, false)
    else if Full(s, kind) then (s.(truncated := true), false)
    else
      var t := s.(sequence := s.sequence + 1);
      if !payloadHashed || !eventHashed then (t, false)
      else
        var digest := hash(EventText(s.digest, t.sequence, kind, elapsed, hash(payload)));
        var e := Event(t.sequence, kind, elapsed, s.digest, digest, payload);
        (t.(events := s.events + [e], digest := digest, finalized := kind == MATCH_ENDED), true)
  }

  /** What an append changes. An active timeline that is not final notes a refusal for room, and uses up a number
      otherwise; an accepted event goes to the end, with the old digest before it and the digest of its own text. */
  predicate Changed(hash: Hash, s: State, kind: string, payload: string, elapsed: nat, appended: bool, t: State) {
    var open := s.active && !s.finalized;
    var room := |s.events| < if kind == "MATCH_ENDED" then 4096 else 4095;
    t.active == s.active && t.session == s.session && t.origin == s.origin &&
    t.truncated == (s.truncated || (open && !room)) && t.sequence == s.sequence + (if open && room then 1 else 0) &&
    if appended then
      t.digest == hash(s.digest + "|" + Decimal(s.sequence + 1) + "|" + kind + "|" + Decimal(elapsed) + "|" +
                       hash(payload)) &&
      t.events == s.events + [Event(s.sequence + 1, kind, elapsed, s.digest, t.digest, payload)] &&
      t.finalized == (kind == "MATCH_ENDED")
    else t.digest == s.digest && t.events == s.events && t.finalized == s.finalized
  }

  /** A start leaves no events; it is active, with the digest of its origin, exactly with a session id and a hash. */
  lemma BeginExactly(hash: Hash, c: Context, session: Option<string>, hashed: bool)
    ensures var r := Begun(hash, c, session, hashed);
            (r.1 <==> session.Some? && session.value != "" && hashed) && r.0.active == r.1 && r.0.events == [] &&
            r.0.sequence == 0 && !r.0.finalized && !r.0.truncated &&
            r.0.session == (if session.Some? then session.value else "") &&
            r.0.digest ==
              if r.1 then hash(c.matchId + "|" + c.capabilityId + "|" + c.nonce + "|" + session.value) else ""
  {
  }

  /** An event is appended exactly to an active timeline that is not final and has room for it, if hashing works. */
  lemma AppendExactly(hash: Hash, s: State, kind: string, payload: string, elapsed: nat, payloadHashed: bool,
                      eventHashed: bool)
    ensures var r := Appended(hash, s, kind, payload, elapsed, payloadHashed, eventHashed);
            Changed(hash, s, kind, payload, elapsed, r.1, r.0) &&
            (r.1 <==> s.active && !s.finalized && payloadHashed && eventHashed &&
                      |s.events| < if kind == "MATCH_ENDED" then 4096 else 4095)
  {
  }

  datatype Report = Report(firstSequence: nat, lastSequence: nat, digest: string, truncated: bool, events: seq<Event>)

  // ---- The invariant ----

  /** Each event's previous hash is its predecessor's hash, the first one's is `start`, each hash is that of its text,
      and the last one is `digest`. */
  predicate Chain(hash: Hash, start: string, events: seq<Event>, digest: string) {
    if events == [] then digest == start
    else
      var n := |events| - 1;
      var last := events[n];
      digest == last.hash == hash(TextOf(hash, last)) && Chain(hash, start, events[..n], last.previousHash)
  }

  predicate Increasing(events: seq<Event>, bound: nat) {
    (forall k :: 0 <= k < |events| ==> 0 < events[k].sequence <= bound) &&
    (forall j, k :: 0 <= j < k < |events| ==> events[j].sequence < events[k].sequence)
  }

  /** MATCH_ENDED is the last event when the timeline is final, and occurs nowhere else. */
  predicate EndsOnce(events: seq<Event>, finalized: bool) {
    (finalized ==> events != [] && events[|events| - 1].kind == MATCH_ENDED) &&
    (forall k :: 0 <= k < |events| - (if finalized then 1 else 0) ==> events[k].kind != MATCH_ENDED)
  }

  predicate Invariant(hash: Hash, s: State) {
    |s.events| <= (if s.finalized then MAXIMUM_EVENTS else MAXIMUM_EVENTS - 1) &&
    EndsOnce(s.events, s.finalized) && Increasing(s.events, s.sequence) &&
    (s.truncated ==> |s.events| >= MAXIMUM_EVENTS - 1) &&
    (if s.active then Chain(hash, hash(s.origin), s.events, s.digest) else s.events == [] && !s.finalized)
  }

  lemma BeginKeepsInvariant(hash: Hash, c: Context, session: Option<string>, hashed: bool)
    ensures Invariant(hash, Begun(hash, c, session, hashed).0)
  {
  }

  lemma ChainGrows(hash: Hash, start: string, events: seq<Event>, e: Event)
    requires Chain(hash, start, events, e.previousHash) && e.hash == hash(TextOf(hash, e))
    ensures Chain(hash, start, events + [e], e.hash)
  {
    assert (events + [e])[..|events|] == events;
  }

  lemma AppendKeepsInvariant(hash: Hash, s: State, kind: string, payload: string, elapsed: nat, payloadHashed: bool,
                             eventHashed: bool)
    requires Invariant(hash, s)
    ensures Invariant(hash, Appended(hash, s, kind, payload, elapsed, payloadHashed, eventHashed).0)
  {
    var r := Appended(hash, s, kind, payload, elapsed, payloadHashed, eventHashed);
    if r.1 {
      ChainGrows(hash, hash(s.origin), s.events, r.0.events[|s.events|]);
    }
  }

  /** A started timeline that is not final always has room for MATCH_ENDED: appending it fails only if hashing does, and
      otherwise makes the timeline final. */
  lemma RoomForTheEnd(hash: Hash, s: State, payload: string, elapsed: nat, payloadHashed: bool, eventHashed: bool)
    requires Invariant(hash, s) && s.active && !s.finalized
    ensures var r := Appended(hash, s, MATCH_ENDED, payload, elapsed, payloadHashed, eventHashed);
            (r.1 <==> payloadHashed && eventHashed) && (r.0.finalized <==> r.1) && r.0.truncated == s.truncated
  {
  }

  // ---- Runs ----

  datatype Action =
    | Reset
    | Begin(context: Context, session: Option<string>, hashed: bool)
    | Append(kind: string, payload: string, elapsed: nat, payloadHashed: bool, eventHashed: bool)

  function Next(hash: Hash, s: State, a: Action): State {
    match a
    case Reset => BLANK
    case Begin(c, session, hashed) => Begun(hash, c, session, hashed).0
    case Append(kind, payload, elapsed, payloadHashed, eventHashed) =>
      Appended(hash, s, kind, payload, elapsed, payloadHashed, eventHashed).0
  }

  datatype Run = Run(hash: Hash, states: seq<State>, actions: seq<Action>) {
    predicate StepsAt(k: nat) {
      k < |actions| && k + 1 < |states| && states[k + 1] == Next(hash, states[k], actions[k])
    }

    predicate Valid() {
      |states| == |actions| + 1 && states[0] == BLANK && forall k :: 0 <= k < |actions| ==> StepsAt(k)
    }
  }

  /** In every state of every run: at most 4096 events and room for the end, MATCH_ENDED at most once and last,
      increasing numbers, an unbroken chain. */
  lemma {:induction false} RunKeepsInvariant(run: Run, n: nat)
    requires run.Valid() && n < |run.states|
    ensures Invariant(run.hash, run.states[n]) && |run.states[n].events| <= MAXIMUM_EVENTS
  {
    if n > 0 {
      RunKeepsInvariant(run, n - 1);
      assert run.StepsAt(n - 1);
      match run.actions[n - 1]
      case Reset =>
      case Begin(c, session, hashed) => BeginKeepsInvariant(run.hash, c, session, hashed);
      case Append(kind, payload, elapsed, payloadHashed, eventHashed) =>
        AppendKeepsInvariant(run.hash, run.states[n - 1], kind, payload, elapsed, payloadHashed, eventHashed);
    }
  }

  /** Between resets and starts the events only grow at the end, and a finished timeline is frozen. */
  lemma {:induction false} EventsOnlyGrow(run: Run, i: nat, j: nat)
    requires run.Valid() && i <= j < |run.states| && forall k :: i <= k < j ==> run.actions[k].Append?
    ensures run.states[i].events <= run.states[j].events
    ensures run.states[i].finalized ==> run.states[j] == run.states[i]
  {
    if i < j {
      EventsOnlyGrow(run, i, j - 1);
      assert run.StepsAt(j - 1);
    }
  }

  // ---- The timeline object ----

  class P2PTimeline {
    const hash: Hash
    var active: bool
    var finalized: bool
    var truncated: bool
    var sequence: nat
    var session: string
    var digest: string
    var events: seq<Event>
    ghost var origin: string

    constructor (hash: Hash)
      ensures this.hash == hash && Snapshot() == BLANK && Valid()
    {
      this.hash := hash;
      active, finalized, truncated, sequence, session, digest, events := false, false, false, 0, "", "", [];
      origin := "";
    }

    ghost function Snapshot(): State
      reads this
    {
      State(active, finalized, truncated, sequence, session, digest, events, origin)
    }

    ghost predicate Valid()
      reads this
    {
      Invariant(hash, Snapshot())
    }

    method Reset()
      modifies this
      ensures Valid() && Snapshot() == BLANK
    {
      active, finalized, truncated, sequence, session, digest, events := false, false, false, 0, "", "", [];
      origin := "";
    }

    /** The session id and the success of the digest come from the platform. */
    method Begin(c: Context, sessionId: Option<string>, hashed: bool) returns (started: bool)
      modifies this
      ensures Valid() && (Snapshot(), started) == Begun(hash, c, sessionId, hashed)
      ensures started <==> sessionId.Some? && sessionId.value != "" && hashed
      ensures active == started && events == [] && sequence == 0 && !finalized && !truncated
      ensures session == (if sessionId.Some? then sessionId.value else "")
      ensures digest ==
              if started then hash(c.matchId + "|" + c.capabilityId + "|" + c.nonce + "|" + sessionId.value) else ""
    {
      BeginKeepsInvariant(hash, c, sessionId, hashed);
      BeginExactly(hash, c, sessionId, hashed);
      Reset();
      if sessionId.None? || sessionId.value == "" {
        return false;
      }
      session := sessionId.value;
      origin := OriginText(c, session);
      digest := if hashed then hash(OriginText(c, session)) else "";
      if !hashed {
        return false;
      }
      active := true;
      started := true;
    }

    method Append(kind: string, payload: string, elapsed: nat, payloadHashed: bool, eventHashed: bool)
      returns (appended: bool)
      requires Valid()
      modifies this
      ensures Valid()
      ensures appended <==> old(active) && !old(finalized) && payloadHashed && eventHashed &&
                            |old(events)| < if kind == "MATCH_ENDED" then 4096 else 4095
      ensures Changed(hash, old(Snapshot()), kind, payload, elapsed, appended, Snapshot())
      ensures (Snapshot(), appended) ==
              Appended(hash, old(Snapshot()), kind, payload, elapsed, payloadHashed, eventHashed)
    {
      AppendKeepsInvariant(hash, Snapshot(), kind, payload, elapsed, payloadHashed, eventHashed);
      AppendExactly(hash, Snapshot(), kind, payload, elapsed, payloadHashed, eventHashed);
      appended := Write(kind, payload, elapsed, payloadHashed, eventHashed);
    }

    method Write(kind: string, payload: string, elapsed: nat, payloadHashed: bool, eventHashed: bool)
      returns (appended: bool)
      modifies this
      ensures (Snapshot(), appended) ==
              Appended(hash, old(Snapshot()), kind, payload, elapsed, payloadHashed, eventHashed)
    {
      if !active || finalized {
        return false;
      }
      var ending := kind == MATCH_ENDED;
      if |events| >= MAXIMUM_EVENTS || (!ending && |events| >= MAXIMUM_EVENTS - 1) {
        truncated := true;
        return false;
      }
      sequence := sequence + 1;
      var payloadDigest := hash(payload);
      var eventDigest := hash(EventText(digest, sequence, kind, elapsed, payloadDigest));
      if !payloadHashed || !eventHashed {
        return false;
      }
      events := events + [Event(sequence, kind, elapsed, digest, eventDigest, payload)];
      digest := eventDigest;
      if ending {
        finalized := true;
      }
      appended := true;
    }

    /** The reported range is that of the events, which are in order; it is 0 to 0 without any. */
    method Read() returns (report: Report)
      requires Valid()
      ensures report.digest == digest && report.truncated == truncated && report.events == events
      ensures forall k :: 0 <= k < |events| ==> report.firstSequence <= events[k].sequence <= report.lastSequence
      ensures events == [] ==> report.firstSequence == report.lastSequence == 0
      ensures events != [] ==>
                report.firstSequence == events[0].sequence && report.lastSequence == events[|events| - 1].sequence
    {
      var first := if events == [] then 0 else events[0].sequence;
      var last := if events == [] then 0 else events[|events| - 1].sequence;
      report := Report(first, last, digest, truncated, events);
    }
  }

  // ---- The final digest determines the timeline ----

  lemma FirstBar(a: string, rest: string, b: string, rest': string)
    requires NoBar(a) && NoBar(b) && a + "|" + rest == b + "|" + rest'
    ensures a == b && rest == rest'
  {
    var s := a + "|" + rest;
    assert s == b + "|" + rest';
    forall k | 0 <= k < |a| ensures s[k] != '|' {
      assert s[k] == a[k];
    }
    forall k | 0 <= k < |b| ensures s[k] != '|' {
      assert s[k] == b[k];
    }
    assert s[|a|] == '|' && s[|b|] == '|';
    assert a == s[..|a|] && b == s[..|b|] && rest == s[|a| + 1..] && rest' == s[|b| + 1..];
  }

  lemma LastBar(rest: string, a: string, rest': string, b: string)
    requires NoBar(a) && NoBar(b) && rest + "|" + a == rest' + "|" + b
    ensures a == b && rest == rest'
  {
    var s := rest + "|" + a;
    assert s == rest' + "|" + b;
    forall k | |rest| < k < |s| ensures s[k] != '|' {
      assert s[k] == a[k - |rest| - 1];
    }
    forall k | |rest'| < k < |s| ensures s[k] != '|' {
      assert s[k] == b[k - |rest'| - 1];
    }
    assert s[|rest|] == '|' && s[|rest'|] == '|';
    assert rest == s[..|rest|] && rest' == s[..|rest'|] && a == s[|rest| + 1..] && b == s[|rest'| + 1..];
  }

  /** The text of an event can be read in one way only, whatever its kind is. */
  lemma EventTextIsInjective(previous: string, n: nat, kind: string, elapsed: nat, d: string,
                             previous': string, n': nat, kind': string, elapsed': nat, d': string)
    requires NoBar(previous) && NoBar(previous') && NoBar(d) && NoBar(d')
    requires EventText(previous, n, kind, elapsed, d) == EventText(previous', n', kind', elapsed', d')
    ensures previous == previous' && n == n' && kind == kind' && elapsed == elapsed' && d == d'
  {
    LastBar(previous + "|" + Decimal(n) + "|" + kind + "|" + Decimal(elapsed), d,
            previous' + "|" + Decimal(n') + "|" + kind' + "|" + Decimal(elapsed'), d');
    LastBar(previous + "|" + Decimal(n) + "|" + kind, Decimal(elapsed),
            previous' + "|" + Decimal(n') + "|" + kind', Decimal(elapsed'));
    assert previous + "|" + Decimal(n) + "|" + kind == previous + "|" + (Decimal(n) + "|" + kind);
    assert previous' + "|" + Decimal(n') + "|" + kind' == previous' + "|" + (Decimal(n') + "|" + kind');
    FirstBar(previous, Decimal(n) + "|" + kind, previous', Decimal(n') + "|" + kind');
    FirstBar(Decimal(n), kind, Decimal(n'), kind');
    NumberOfDecimal(n);
    NumberOfDecimal(n');
    NumberOfDecimal(elapsed);
    NumberOfDecimal(elapsed');
  }

  /** No event text is an origin text: it has one bar more. */
  lemma EventTextIsNoOrigin(previous: string, n: nat, kind: string, elapsed: nat, d: string, c: Context,
                            session: string)
    requires NoBar(previous) && NoBar(d) && SoundContext(c) && NoBar(session)
    ensures EventText(previous, n, kind, elapsed, d) != OriginText(c, session)
  {
    if EventText(previous, n, kind, elapsed, d) == OriginText(c, session) {
      LastBar(previous + "|" + Decimal(n) + "|" + kind + "|" + Decimal(elapsed), d,
              c.matchId + "|" + c.capabilityId + "|" + c.nonce, session);
      LastBar(previous + "|" + Decimal(n) + "|" + kind, Decimal(elapsed), c.matchId + "|" + c.capabilityId, c.nonce);
      var tail := Decimal(n) + "|" + kind;
      assert tail[|Decimal(n)|] == '|';
      assert previous + "|" + Decimal(n) + "|" + kind == previous + "|" + tail;
      FirstBar(previous, tail, c.matchId, c.capabilityId);
      assert false;
    }
  }

  /** The texts that were hashed for a timeline. */
  function HashedTexts(hash: Hash, origin: string, events: seq<Event>): set<string> {
    {origin} + (set e | e in events :: TextOf(hash, e)) + (set e | e in events :: e.payload)
  }

  /** No two different texts of these have one hash. */
  predicate NoCollision(hash: Hash, a: set<string>, b: set<string>) {
    forall x, y :: x in a && y in b && hash(x) == hash(y) ==> x == y
  }

  lemma FewerTexts(hash: Hash, origin: string, events: seq<Event>, n: nat)
    requires n <= |events|
    ensures HashedTexts(hash, origin, events[..n]) <= HashedTexts(hash, origin, events)
  {
  }

  lemma LastTexts(hash: Hash, origin: string, events: seq<Event>)
    requires events != []
    ensures var e := events[|events| - 1];
            TextOf(hash, e) in HashedTexts(hash, origin, events) && e.payload in HashedTexts(hash, origin, events)
  {
    assert events[|events| - 1] in events;
  }

  lemma OriginIsHashed(hash: Hash, origin: string, events: seq<Event>)
    ensures origin in HashedTexts(hash, origin, events)
  {
  }

  lemma ChainDigestHasNoBar(hash: Hash, start: string, events: seq<Event>, digest: string)
    requires HashText(hash) && NoBar(start) && Chain(hash, start, events, digest)
    ensures NoBar(digest)
  {
  }

  /** Two last events with one hash are equal. */
  lemma SameLastEvent(hash: Hash, a: Event, b: Event)
    requires HashText(hash) && a.hash == hash(TextOf(hash, a)) == b.hash == hash(TextOf(hash, b))
    requires TextOf(hash, a) == TextOf(hash, b) && NoBar(a.previousHash) && NoBar(b.previousHash)
    requires hash(a.payload) == hash(b.payload) ==> a.payload == b.payload
    ensures a == b
  {
    EventTextIsInjective(a.previousHash, a.sequence, a.kind, a.elapsed, hash(a.payload),
                         b.previousHash, b.sequence, b.kind, b.elapsed, hash(b.payload));
  }

  /** The text under a first digest. */
  ghost predicate IsOrigin(text: string) {
    exists c, session :: SoundContext(c) && NoBar(session) && text == OriginText(c, session)
  }

  /** A chain with an event does not end where one without any begins. */
  lemma EventIsNoOrigin(hash: Hash, o: string, events: seq<Event>, digest: string, o': string)
    requires HashText(hash) && IsOrigin(o') && events != [] && Chain(hash, hash(o), events, digest)
    requires forall x :: x in HashedTexts(hash, o, events) && hash(x) == hash(o') ==> x == o'
    ensures digest != hash(o')
  {
    var n := |events| - 1;
    var e := events[n];
    var c, session :| SoundContext(c) && NoBar(session) && o' == OriginText(c, session);
    LastTexts(hash, o, events);
    ChainDigestHasNoBar(hash, hash(o), events[..n], e.previousHash);
    EventTextIsNoOrigin(e.previousHash, e.sequence, e.kind, e.elapsed, hash(e.payload), c, session);
  }

  lemma BothEmpty(hash: Hash, o: string, events: seq<Event>, digest: string, o': string, events': seq<Event>,
                  digest': string)
    requires HashText(hash) && IsOrigin(o) && IsOrigin(o')
    requires Chain(hash, hash(o), events, digest) && Chain(hash, hash(o'), events', digest')
    requires NoCollision(hash, HashedTexts(hash, o, events), HashedTexts(hash, o', events'))
    requires digest == digest' && (events == [] || events' == [])
    ensures events == events' == [] && o == o'
  {
    OriginIsHashed(hash, o, events);
    OriginIsHashed(hash, o', events');
    if events != [] {
      EventIsNoOrigin(hash, o, events, digest, o');
    }
    if events' != [] {
      EventIsNoOrigin(hash, o', events', digest', o);
    }
  }

  /** Where none of the texts of two timelines collide, their final digests are equal exactly when they began from the
      same origin and hold the same events: kinds, times, payloads, order and number. */
  lemma {:induction false} DigestDeterminesTimeline(hash: Hash, o: string, events: seq<Event>, digest: string,
                                                    o': string, events': seq<Event>, digest': string)
    requires HashText(hash) && IsOrigin(o) && IsOrigin(o')
    requires Chain(hash, hash(o), events, digest) && Chain(hash, hash(o'), events', digest')
    requires NoCollision(hash, HashedTexts(hash, o, events), HashedTexts(hash, o', events'))
    ensures digest == digest' <==> events == events' && o == o'
    decreases |events|
  {
    if events == events' && o == o' {
      SameChainSameDigest(hash, hash(o), events, digest, digest');
    }
    if digest == digest' {
      if events == [] || events' == [] {
        BothEmpty(hash, o, events, digest, o', events', digest');
      } else {
        var n, n' := |events| - 1, |events'| - 1;
        LastEventsAgree(hash, o, events, digest, o', events', digest');
        DigestDeterminesTimeline(hash, o, events[..n], events[n].previousHash, o', events'[..n'],
                                 events'[n'].previousHash);
        SameFrontAndLast(events, events');
      }
    }
  }

  lemma SameFrontAndLast(a: seq<Event>, b: seq<Event>)
    requires a != [] && b != [] && a[|a| - 1] == b[|b| - 1]
    ensures a[..|a| - 1] == b[..|b| - 1] ==> a == b
  {
    assert a == a[..|a| - 1] + [a[|a| - 1]] && b == b[..|b| - 1] + [b[|b| - 1]];
  }

  lemma LastEventsAgree(hash: Hash, o: string, events: seq<Event>, digest: string,
                        o': string, events': seq<Event>, digest': string)
    requires HashText(hash) && events != [] && events' != [] && digest == digest'
    requires Chain(hash, hash(o), events, digest) && Chain(hash, hash(o'), events', digest')
    requires NoCollision(hash, HashedTexts(hash, o, events), HashedTexts(hash, o', events'))
    ensures events[|events| - 1] == events'[|events'| - 1]
    ensures NoCollision(hash, HashedTexts(hash, o, events[..|events| - 1]),
                        HashedTexts(hash, o', events'[..|events'| - 1]))
  {
    var n, n' := |events| - 1, |events'| - 1;
    LastTexts(hash, o, events);
    LastTexts(hash, o', events');
    ChainDigestHasNoBar(hash, hash(o), events[..n], events[n].previousHash);
    ChainDigestHasNoBar(hash, hash(o'), events'[..n'], events'[n'].previousHash);
    SameLastEvent(hash, events[n], events'[n']);
    FewerTexts(hash, o, events, n);
    FewerTexts(hash, o', events', n');
  }

  lemma SameChainSameDigest(hash: Hash, start: string, events: seq<Event>, digest: string, digest': string)
    requires Chain(hash, start, events, digest) && Chain(hash, start, events, digest')
    ensures digest == digest'
  {
  }

  /** The links of a chain, one by one. */
  lemma {:induction false} ChainLinks(hash: Hash, start: string, events: seq<Event>, digest: string, k: nat)
    requires Chain(hash, start, events, digest) && k < |events|
    ensures events[k].previousHash == (if k == 0 then start else events[k - 1].hash)
    ensures events[k].hash == hash(TextOf(hash, events[k]))
    ensures digest == events[|events| - 1].hash
  {
    var n := |events| - 1;
    if k < n {
      ChainLinks(hash, start, events[..n], events[n].previousHash, k);
    } else if n > 0 {
      ChainLinks(hash, start, events[..n], events[n].previousHash, n - 1);
    }
  }

  // ---- Two runs with one digest ----

  /** Contexts and sessions are made of letters, digits, underscores and hyphens. */
  predicate SoundBegin(a: Action) {
    a.Begin? && SoundContext(a.context) && a.session.Some? && NoBar(a.session.value)
  }

  predicate SoundRun(run: Run) {
    forall k :: 0 <= k < |run.actions| && run.actions[k].Begin? && run.actions[k].session.Some? ==>
      SoundBegin(run.actions[k])
  }

  /** An active timeline goes back to the last start, and nothing but events came after it. */
  lemma {:induction false} StartedBy(run: Run, n: nat) returns (i: nat)
    requires run.Valid() && SoundRun(run) && n < |run.states| && run.states[n].active
    ensures i < n && SoundBegin(run.actions[i]) && forall k :: i < k < n ==> run.actions[k].Append?
    ensures run.states[n].origin == OriginText(run.actions[i].context, run.actions[i].session.value)
  {
    assert run.StepsAt(n - 1);
    if run.actions[n - 1].Append? {
      i := StartedBy(run, n - 1);
    } else {
      i := n - 1;
    }
  }

  lemma OriginTextIsInjective(c: Context, session: string, c': Context, session': string)
    requires SoundContext(c) && SoundContext(c') && NoBar(session) && NoBar(session')
    requires OriginText(c, session) == OriginText(c', session')
    ensures c == c' && session == session'
  {
    LastBar(c.matchId + "|" + c.capabilityId + "|" + c.nonce, session,
            c'.matchId + "|" + c'.capabilityId + "|" + c'.nonce, session');
    LastBar(c.matchId + "|" + c.capabilityId, c.nonce, c'.matchId + "|" + c'.capabilityId, c'.nonce);
    FirstBar(c.matchId, c.capabilityId, c'.matchId, c'.capabilityId);
  }

  /** Two runs, each with a timeline under way: where none of the texts that were hashed collide, the digests are equal
      exactly when the two were started for the same match, capability, nonce and session, and hold the same events. */
  lemma DigestDeterminesRun(run: Run, n: nat, run': Run, n': nat) returns (i: nat, i': nat)
    requires run.Valid() && SoundRun(run) && n < |run.states| && run.states[n].active
    requires run'.Valid() && SoundRun(run') && n' < |run'.states| && run'.states[n'].active
    requires HashText(run.hash) && run'.hash == run.hash
    requires NoCollision(run.hash, HashedTexts(run.hash, run.states[n].origin, run.states[n].events),
                         HashedTexts(run.hash, run'.states[n'].origin, run'.states[n'].events))
    ensures i < n && SoundBegin(run.actions[i]) && forall k :: i < k < n ==> run.actions[k].Append?
    ensures i' < n' && SoundBegin(run'.actions[i']) && forall k :: i' < k < n' ==> run'.actions[k].Append?
    ensures run.states[n].digest == run'.states[n'].digest <==>
            run.states[n].events == run'.states[n'].events && run.actions[i].context == run'.actions[i'].context &&
            run.actions[i].session == run'.actions[i'].session
  {
    i := StartedBy(run, n);
    i' := StartedBy(run', n');
    var a, a' := run.actions[i], run'.actions[i'];
    var s, s' := run.states[n], run'.states[n'];
    RunKeepsInvariant(run, n);
    RunKeepsInvariant(run', n');
    DigestDeterminesTimeline(run.hash, s.origin, s.events, s.digest, s'.origin, s'.events, s'.digest);
    if s.origin == s'.origin {
      OriginTextIsInjective(a.context, a.session.value, a'.context, a'.session.value);
    }
  }
}
