/** Reading gossip: the memo tables one read hands to the next, and the history they stand for. */
module GossipReader {
  import opened Options
  import opened Observe

  type Id = nat

  /** A gossip participant's state: the version its keys are at, its heartbeat, which advances without
      the version, and the keys themselves. */
  datatype State = State(version: nat, heartbeat: nat, keys: nat)

  datatype Entry = Entry(id: Id, state: Option<State>, live: bool)

  /** One read of gossip: what it listed and when. */
  datatype Reading = Reading(entries: seq<Entry>, now: nat)

  /** What a participant's keys say: its peer record, whether it gossips a departure, and its caches. */
  datatype Parsed = Parsed(peer: Peer, departing: bool, caches: nat)

  /** How keys are parsed; `None` for a participant that is no node of ours. */
  type Parser = (Id, nat) -> Option<Parsed>

  /** The member a participant's keys show while it is live. */
  function ObserveMember(f: Parser, id: Id, keys: nat): Option<Observed> {
    var parsed := f(id, keys);
    if parsed.None? then None
    else Some(Observed(parsed.value.peer, StatusOf(true, parsed.value.departing), parsed.value.caches))
  }

  // ----- the pure rules

  function SaturatingSince(now: nat, since: nat): nat { if now < since then 0 else now - since }

  predicate DeadEntrySettled(unchangedFor: nat, seenBefore: bool, settle: nat) {
    seenBefore || unchangedFor >= settle
  }

  /** `value` with the instant it took that value. */
  function Hold(previous: Option<(nat, nat)>, value: nat, now: nat): (nat, nat) {
    if previous.Some? && previous.value.0 == value then previous.value else (value, now)
  }

  predicate SeenBefore(published: seq<Member>, peer: Peer) {
    exists m :: m in published && KeyOf(m.peer) == KeyOf(peer)
  }

  function Lookup<V>(m: map<Id, V>, id: Id): Option<V> { if id in m then Some(m[id]) else None }

  // ----- what a read means, from the history alone

  /** The member an entry shows, parsed afresh. */
  function MemberOf(f: Parser, e: Entry): Option<Observed> {
    if e.state.None? then None else ObserveMember(f, e.id, e.state.value.keys)
  }

  predicate IsDead(f: Parser, self: Id, e: Entry) {
    e.id != self && MemberOf(f, e).Some? && !e.live
  }

  /** The heartbeat of the last entry of a read that shows `id` dead, if one does. */
  function DeadHeartbeat(f: Parser, self: Id, entries: seq<Entry>, id: Id): Option<nat> {
    if entries == [] then None
    else
      var e := entries[|entries| - 1];
      if e.id == id && IsDead(f, self, e) then Some(e.state.value.heartbeat)
      else DeadHeartbeat(f, self, entries[..|entries| - 1], id)
  }

  /** A participant's record, a heartbeat and the instant it took that value, once the entries of
      `passed` that show it dead are noted in it. */
  function Noted(f: Parser, self: Id, record: Option<(nat, nat)>, passed: seq<Entry>, now: nat, id: Id)
    : Option<(nat, nat)>
  {
    if passed == [] then record
    else
      var e, before := passed[|passed| - 1], Noted(f, self, record, passed[..|passed| - 1], now, id);
      if e.id == id && IsDead(f, self, e) then Some(Hold(before, e.state.value.heartbeat, now)) else before
  }

  /** Since when `id` has been seen dead with the heartbeat it has now, over the whole history. */
  function DeadSince(f: Parser, self: Id, history: seq<Reading>, id: Id): Option<(nat, nat)> {
    if history == [] then None
    else
      var last := history[|history| - 1];
      if DeadHeartbeat(f, self, last.entries, id).None? then None
      else Noted(f, self, DeadSince(f, self, history[..|history| - 1], id), last.entries, last.now, id)
  }

  /** The record of entry `i`'s participant at the point a read that follows `history` reaches it. */
  function RecordAt(f: Parser, self: Id, history: seq<Reading>, entries: seq<Entry>, i: nat, now: nat): Option<(nat, nat)>
    requires i < |entries|
  {
    Noted(f, self, DeadSince(f, self, history, entries[i].id), entries[..i], now, entries[i].id)
  }

  /** What an entry contributes, given its participant's record. */
  function Report(f: Parser, self: Id, record: Option<(nat, nat)>, e: Entry, published: seq<Member>, now: nat, settle: nat)
    : Option<Observed>
  {
    var member := MemberOf(f, e);
    if e.id == self || member.None? then None
    else if e.live then member
    else
      var o := member.value;
      var since := Hold(record, e.state.value.heartbeat, now).1;
      if DeadEntrySettled(SaturatingSince(now, since), SeenBefore(published, o.peer), settle)
      then Some(Observed(o.peer, DeadStatus(o.status), o.caches))
      else None
  }

  function IsAnonymous(f: Parser, self: Id, e: Entry): nat {
    if e.id != self && e.live && MemberOf(f, e).None? then 1 else 0
  }

  /** A read that keeps no memo: every entry parsed, every heartbeat looked up in the history. */
  function Reference(f: Parser, self: Id, history: seq<Reading>, entries: seq<Entry>, published: seq<Member>,
                     now: nat, settle: nat): (seq<Observed>, nat)
  {
    if entries == [] then ([], 0)
    else
      var n := |entries| - 1;
      var e := entries[n];
      var (observed, anonymous) := Reference(f, self, history, entries[..n], published, now, settle);
      var report := Report(f, self, RecordAt(f, self, history, entries, n, now), e, published, now, settle);
      (if report.Some? then observed + [report.value] else observed, anonymous + IsAnonymous(f, self, e))
  }

  // ----- the memo tables

  /** `history` showed `id` in `state`. */
  ghost predicate Showed(history: seq<Reading>, id: Id, state: State) {
    exists k, i :: 0 <= k < |history| && 0 <= i < |history[k].entries|
                   && history[k].entries[i] == Entry(id, Some(state), history[k].entries[i].live)
  }

  /** Equal versions of one participant mean equal keys. */
  ghost predicate VersionsTell(history: seq<Reading>) {
    forall id, s, t :: Showed(history, id, s) && Showed(history, id, t) && s.version == t.version ==> s.keys == t.keys
  }

  /** Every memoised parse is the parse of a state the history showed at that version. */
  ghost predicate ParsedFrom(f: Parser, parsed: map<Id, (nat, Option<Observed>)>, history: seq<Reading>) {
    forall id :: id in parsed ==>
      exists s :: Showed(history, id, s) && parsed[id] == (s.version, ObserveMember(f, id, s.keys))
  }

  /** The dead table is exactly what the history says. */
  ghost predicate DeadFrom(f: Parser, self: Id, dead: map<Id, (nat, nat)>, history: seq<Reading>) {
    forall id :: Lookup(dead, id) == DeadSince(f, self, history, id)
  }

  class Reader {
    const parser: Parser
    const self: Id
    var parsed: map<Id, (nat, Option<Observed>)>
    var dead: map<Id, (nat, nat)>

    ghost predicate Knows(history: seq<Reading>)
      reads this
    {
      ParsedFrom(parser, parsed, history) && DeadFrom(parser, self, dead, history)
    }

    constructor (parser: Parser, self: Id)
      ensures this.parser == parser && this.self == self && Knows([])
    {
      this.parser := parser;
      this.self := self;
      parsed := map[];
      dead := map[];
    }

    /** The member `state` shows while live, parsed only when the state changed since the last read. */
    method Parse(id: Id, state: State, ghost history: seq<Reading>) returns (member: Option<Observed>)
      requires ParsedFrom(parser, parsed, history) && VersionsTell(history) && Showed(history, id, state)
      modifies this`parsed
      ensures member == ObserveMember(parser, id, state.keys)
      ensures ParsedFrom(parser, parsed, history)
    {
      if id in parsed && parsed[id].0 == state.version {
        return parsed[id].1;
      }
      member := ObserveMember(parser, id, state.keys);
      parsed := parsed[id := (state.version, member)];
    }

    /** One turn of `Read`'s loop: what the entry contributes, and its heartbeat noted if it is dead. */
    method ReadEntry(e: Entry, published: seq<Member>, now: nat, settle: nat, ghost full: seq<Reading>)
      returns (report: Option<Observed>, anonymous: nat, isDead: bool)
      requires ParsedFrom(parser, parsed, full) && VersionsTell(full)
      requires e.state.Some? ==> Showed(full, e.id, e.state.value)
      modifies this
      ensures ParsedFrom(parser, parsed, full)
      ensures report == Report(parser, self, Lookup(old(dead), e.id), e, published, now, settle)
      ensures anonymous == IsAnonymous(parser, self, e)
      ensures isDead == IsDead(parser, self, e)
      ensures dead == if isDead then old(dead)[e.id := Hold(Lookup(old(dead), e.id), e.state.value.heartbeat, now)]
                      else old(dead)
    {
      report, anonymous, isDead := None, 0, false;
      if e.id == self {
        return;
      }
      var member := None;
      if e.state.Some? {
        member := Parse(e.id, e.state.value, full);
      }
      if member.None? {
        anonymous := if e.live then 1 else 0;
        return;
      }
      if e.live {
        report := member;
        return;
      }
      isDead := true;
      var held := Hold(Lookup(dead, e.id), e.state.value.heartbeat, now);
      dead := dead[e.id := held];
      var o := member.value;
      if DeadEntrySettled(SaturatingSince(now, held.1), SeenBefore(published, o.peer), settle) {
        report := Some(Observed(o.peer, DeadStatus(o.status), o.caches));
      }
    }

    /** Classifies the entries of one read, in order, with the memo of the reads before it: it answers
        what a read without a memo would, and leaves the memo standing for the longer history. */
    method Read(entries: seq<Entry>, published: seq<Member>, now: nat, settle: nat, ghost history: seq<Reading>)
      returns (observed: seq<Observed>, anonymous: nat)
      requires Knows(history) && VersionsTell(history + [Reading(entries, now)])
      modifies this
      ensures (observed, anonymous) == Reference(parser, self, history, entries, published, now, settle)
      ensures Knows(history + [Reading(entries, now)])
      ensures parsed.Keys <= set e | e in entries :: e.id
    {
      hide Report, IsAnonymous, Hold, VersionsTell, ParsedFrom, Showed, DeadSince, Noted, DeadAfter, DeadHeartbeat, IsDead, RecordAt, DeadFrom;
      ghost var full := history + [Reading(entries, now)];
      DeadAtStart(parser, self, dead, history, now);
      ParsedGrows(parser, parsed, history, Reading(entries, now));
      observed, anonymous := [], 0;
      var present, deadIds: set<Id> := {}, {};
      for k := 0 to |entries|
        invariant (observed, anonymous) == Reference(parser, self, history, entries[..k], published, now, settle)
        invariant ParsedFrom(parser, parsed, full)
        invariant present <= set e | e in entries :: e.id
        invariant DeadIdsAre(parser, self, deadIds, entries[..k])
        invariant DeadAfter(parser, self, dead, history, entries[..k], now)
      {
        var e := entries[k];
        assert entries[..k + 1][..k] == entries[..k];
        ShownNow(history, entries, now, k);
        RecordIsLookup(parser, self, dead, history, entries, k, now);
        ghost var was, wasDead := dead, deadIds;
        var report, anon, isDead := ReadEntry(e, published, now, settle, full);
        if e.id != self {
          present := present + {e.id};
        }
        anonymous := anonymous + anon;
        if report.Some? {
          observed := observed + [report.value];
        }
        if isDead {
          deadIds := deadIds + {e.id};
        }
        DeadAfterStep(parser, self, was, history, entries[..k + 1], now, dead);
        DeadIdsStep(parser, self, wasDead, entries[..k + 1], deadIds);
      }
      assert entries[..|entries|] == entries;
      ParsedShrinks(parser, parsed, present, full);
      parsed := map id | id in parsed && id in present :: parsed[id];
      DeadSettles(parser, self, dead, deadIds, history, Reading(entries, now));
      dead := map id | id in dead && id in deadIds :: dead[id];
    }
  }

  /** The dead table part-way through a read: entries already passed are updated, others are as the
      history left them. */
  ghost predicate DeadAfter(f: Parser, self: Id, dead: map<Id, (nat, nat)>, history: seq<Reading>,
                            passed: seq<Entry>, now: nat)
  {
    forall id :: Lookup(dead, id) == Noted(f, self, DeadSince(f, self, history, id), passed, now, id)
  }

  lemma DeadAfterStep(f: Parser, self: Id, dead: map<Id, (nat, nat)>, history: seq<Reading>, passed: seq<Entry>,
                      now: nat, dead': map<Id, (nat, nat)>)
    requires passed != []
    requires DeadAfter(f, self, dead, history, passed[..|passed| - 1], now)
    requires var e := passed[|passed| - 1];
             dead' == if IsDead(f, self, e) then dead[e.id := Hold(Lookup(dead, e.id), e.state.value.heartbeat, now)]
                      else dead
    ensures DeadAfter(f, self, dead', history, passed, now)
  {
    hide DeadSince;
    var e, before := passed[|passed| - 1], passed[..|passed| - 1];
    forall id ensures Lookup(dead', id) == Noted(f, self, DeadSince(f, self, history, id), passed, now, id) {
      assert Lookup(dead, id) == Noted(f, self, DeadSince(f, self, history, id), before, now, id);
    }
  }

  lemma DeadAtStart(f: Parser, self: Id, dead: map<Id, (nat, nat)>, history: seq<Reading>, now: nat)
    requires DeadFrom(f, self, dead, history)
    ensures DeadAfter(f, self, dead, history, [], now) && DeadIdsAre(f, self, {}, [])
  {}

  lemma RecordIsLookup(f: Parser, self: Id, dead: map<Id, (nat, nat)>, history: seq<Reading>, entries: seq<Entry>,
                       k: nat, now: nat)
    requires k < |entries| && DeadAfter(f, self, dead, history, entries[..k], now)
    ensures Lookup(dead, entries[k].id) == RecordAt(f, self, history, entries[..k + 1], k, now)
  {
    hide DeadSince, Noted;
    assert entries[..k + 1][..k] == entries[..k];
  }

  /** The participants some entry shows dead. */
  ghost predicate DeadIdsAre(f: Parser, self: Id, ids: set<Id>, entries: seq<Entry>) {
    forall id :: id in ids <==> DeadHeartbeat(f, self, entries, id).Some?
  }

  lemma DeadIdsStep(f: Parser, self: Id, ids: set<Id>, passed: seq<Entry>, ids': set<Id>)
    requires passed != [] && DeadIdsAre(f, self, ids, passed[..|passed| - 1])
    requires var e := passed[|passed| - 1]; ids' == if IsDead(f, self, e) then ids + {e.id} else ids
    ensures DeadIdsAre(f, self, ids', passed)
  {}

  /** Forgetting the participants a read did not show dead leaves the table of the longer history. */
  lemma DeadSettles(f: Parser, self: Id, dead: map<Id, (nat, nat)>, deadIds: set<Id>, history: seq<Reading>, r: Reading)
    requires DeadAfter(f, self, dead, history, r.entries, r.now)
    requires DeadIdsAre(f, self, deadIds, r.entries)
    ensures DeadFrom(f, self, map id | id in dead && id in deadIds :: dead[id], history + [r])
  {
    assert (history + [r])[..|history|] == history;
    var dead' := map id | id in dead && id in deadIds :: dead[id];
    forall id ensures Lookup(dead', id) == DeadSince(f, self, history + [r], id) {
      var before := DeadSince(f, self, history, id);
      assert Lookup(dead, id) == Noted(f, self, before, r.entries, r.now, id);
      NotedMeans(f, self, before, r.entries, r.now, id);
    }
  }

  lemma ParsedGrows(f: Parser, parsed: map<Id, (nat, Option<Observed>)>, history: seq<Reading>, next: Reading)
    requires ParsedFrom(f, parsed, history)
    ensures ParsedFrom(f, parsed, history + [next])
  {
    forall id | id in parsed
      ensures exists s :: Showed(history + [next], id, s) && parsed[id] == (s.version, ObserveMember(f, id, s.keys))
    {
      var s :| Showed(history, id, s) && parsed[id] == (s.version, ObserveMember(f, id, s.keys));
      var k, i :| 0 <= k < |history| && 0 <= i < |history[k].entries|
                  && history[k].entries[i] == Entry(id, Some(s), history[k].entries[i].live);
      assert (history + [next])[k] == history[k];
      assert Showed(history + [next], id, s);
    }
  }

  lemma ParsedShrinks(f: Parser, parsed: map<Id, (nat, Option<Observed>)>, present: set<Id>, history: seq<Reading>)
    requires ParsedFrom(f, parsed, history)
    ensures ParsedFrom(f, map id | id in parsed && id in present :: parsed[id], history)
  {}

  lemma ShownNow(history: seq<Reading>, entries: seq<Entry>, now: nat, k: nat)
    requires k < |entries|
    ensures entries[k].state.Some? ==> Showed(history + [Reading(entries, now)], entries[k].id, entries[k].state.value)
  {
    var full := history + [Reading(entries, now)];
    assert full[|history|].entries[k] == entries[k];
  }

  /** No entry shows `id` dead with another heartbeat than `beat`. */
  ghost predicate OnlyBeat(f: Parser, self: Id, entries: seq<Entry>, id: Id, beat: nat) {
    forall i :: 0 <= i < |entries| && entries[i].id == id && IsDead(f, self, entries[i]) ==>
      entries[i].state.value.heartbeat == beat
  }

  /** What a read leaves in a record: untouched if no entry shows the participant dead; else the last
      heartbeat shown, at its old instant if the record had it and no entry showed another. */
  lemma {:induction false} NotedMeans(f: Parser, self: Id, record: Option<(nat, nat)>, entries: seq<Entry>, now: nat, id: Id)
    ensures
      var beat, after := DeadHeartbeat(f, self, entries, id), Noted(f, self, record, entries, now, id);
      if beat.None? then after == record && (forall b: nat :: OnlyBeat(f, self, entries, id, b))
      else after == Some(if OnlyBeat(f, self, entries, id, beat.value) then Hold(record, beat.value, now)
                         else (beat.value, now))
  {
    if entries != [] {
      var init, e := entries[..|entries| - 1], entries[|entries| - 1];
      NotedMeans(f, self, record, init, now, id);
      forall b: nat ensures OnlyBeat(f, self, entries, id, b) <==>
        OnlyBeat(f, self, init, id, b) && (e.id == id && IsDead(f, self, e) ==> e.state.value.heartbeat == b)
      {
        OnlyBeatStep(f, self, entries, id, b);
      }
      if DeadHeartbeat(f, self, init, id).Some? {
        LastBeatIsShown(f, self, init, id);
      }
    }
  }

  lemma OnlyBeatStep(f: Parser, self: Id, entries: seq<Entry>, id: Id, b: nat)
    requires entries != []
    ensures var init, e := entries[..|entries| - 1], entries[|entries| - 1];
            OnlyBeat(f, self, entries, id, b)
            <==> OnlyBeat(f, self, init, id, b) && (e.id == id && IsDead(f, self, e) ==> e.state.value.heartbeat == b)
  {
    var init := entries[..|entries| - 1];
    assert forall i :: 0 <= i < |init| ==> init[i] == entries[i];
  }

  /** The last heartbeat shown is one that is shown. */
  lemma {:induction false} LastBeatIsShown(f: Parser, self: Id, entries: seq<Entry>, id: Id)
    requires DeadHeartbeat(f, self, entries, id).Some?
    ensures forall b: nat :: OnlyBeat(f, self, entries, id, b) ==> DeadHeartbeat(f, self, entries, id) == Some(b)
  {
    var init, e := entries[..|entries| - 1], entries[|entries| - 1];
    if !(e.id == id && IsDead(f, self, e)) {
      LastBeatIsShown(f, self, init, id);
      forall b: nat | OnlyBeat(f, self, entries, id, b) ensures OnlyBeat(f, self, init, id, b) {
        OnlyBeatStep(f, self, entries, id, b);
      }
    }
  }
}
