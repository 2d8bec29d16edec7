/** The observer over whole runs: what its reads report, and what its snapshots say for ever after. */
module GossipRun {
  import opened Options
  import opened Observe
  import opened GossipReader

  // ----- a joining node is not a dead one

  /** From reading `j` on, `id` was shown dead with heartbeat `beat`: each reading shows it so last,
      and those after `j` show it so only. */
  ghost predicate DeadThroughout(f: Parser, self: Id, history: seq<Reading>, id: Id, beat: nat, j: nat) {
    && (forall k :: j <= k < |history| ==> DeadHeartbeat(f, self, history[k].entries, id) == Some(beat))
    && (forall k :: j < k < |history| ==> OnlyBeat(f, self, history[k].entries, id, beat))
  }

  /** What the dead table remembers: the longest stretch of readings, up to the latest, that all show
      the participant dead with one heartbeat, by the instant it began. */
  lemma {:induction false} DeadSinceMeans(f: Parser, self: Id, history: seq<Reading>, id: Id) returns (j: nat)
    requires DeadSince(f, self, history, id).Some?
    ensures var (beat, t) := DeadSince(f, self, history, id).value;
            && j < |history| && history[j].now == t
            && DeadThroughout(f, self, history, id, beat, j)
            && forall i :: 0 <= i < j ==> !DeadThroughout(f, self, history, id, beat, i)
  {
    hide DeadHeartbeat, Noted, OnlyBeat;
    var n := |history| - 1;
    var init, r := history[..n], history[n];
    var before, beat := DeadSince(f, self, init, id), DeadHeartbeat(f, self, r.entries, id).value;
    NotedMeans(f, self, before, r.entries, r.now, id);
    if OnlyBeat(f, self, r.entries, id, beat) && before.Some? && before.value.0 == beat {
      j := DeadSinceMeans(f, self, init, id);
      forall i | 0 <= i <= j
        ensures DeadThroughout(f, self, history, id, beat, i) <==> DeadThroughout(f, self, init, id, beat, i)
      {
        ThroughoutStep(f, self, history, id, beat, i);
      }
    } else {
      j := n;
      forall i | 0 <= i < n ensures !DeadThroughout(f, self, history, id, beat, i) {
        if DeadThroughout(f, self, history, id, beat, i) {
          ThroughoutStep(f, self, history, id, beat, i);
          assert init[n - 1] == history[n - 1];
          NotedMeans(f, self, DeadSince(f, self, init[..n - 1], id), init[n - 1].entries, init[n - 1].now, id);
          assert false;
        }
      }
    }
  }

  lemma ThroughoutStep(f: Parser, self: Id, history: seq<Reading>, id: Id, beat: nat, j: nat)
    requires j < |history| - 1
    ensures var n := |history| - 1;
            DeadThroughout(f, self, history, id, beat, j)
            <==> && DeadThroughout(f, self, history[..n], id, beat, j)
                 && DeadHeartbeat(f, self, history[n].entries, id) == Some(beat)
                 && OnlyBeat(f, self, history[n].entries, id, beat)
  {
    hide DeadHeartbeat, OnlyBeat;
    var n := |history| - 1;
    assert forall k :: 0 <= k < n ==> history[..n][k] == history[k];
  }

  /** Instants never run backwards. */
  ghost predicate InOrder(history: seq<Reading>) {
    forall i, j :: 0 <= i <= j < |history| ==> history[i].now <= history[j].now
  }

  /** The history a read has seen once it has passed entry `i`. */
  function UpTo(history: seq<Reading>, r: Reading, i: nat): (full: seq<Reading>)
    requires i < |r.entries|
  {
    history + [Reading(r.entries[..i + 1], r.now)]
  }

  /** Every reading over at least `settle`, up to entry `i` of reading `r`, showed that entry's
      participant dead with the heartbeat it has now. */
  ghost predicate Settled(f: Parser, self: Id, history: seq<Reading>, r: Reading, i: nat, settle: nat)
    requires i < |r.entries| && r.entries[i].state.Some?
  {
    var e, full := r.entries[i], UpTo(history, r, i);
    exists j :: 0 <= j < |full| && r.now - full[j].now >= settle
                && DeadThroughout(f, self, full, e.id, e.state.value.heartbeat, j)
  }

  /** What entry `i` of a read contributes. */
  function ReportAt(f: Parser, self: Id, history: seq<Reading>, r: Reading, i: nat, published: seq<Member>, settle: nat)
    : Option<Observed>
    requires i < |r.entries|
  {
    Report(f, self, RecordAt(f, self, history, r.entries, i, r.now), r.entries[i], published, r.now, settle)
  }

  /** A dead entry no snapshot holds yet is reported if and only if it has settled. */
  lemma DeadIsReportedOnceSettled(f: Parser, self: Id, history: seq<Reading>, r: Reading, i: nat,
                                  published: seq<Member>, settle: nat)
    requires i < |r.entries| && IsDead(f, self, r.entries[i]) && InOrder(history + [r])
    requires !SeenBefore(published, MemberOf(f, r.entries[i]).value.peer)
    ensures ReportAt(f, self, history, r, i, published, settle).Some? <==> Settled(f, self, history, r, i, settle)
  {
    hide DeadHeartbeat, OnlyBeat, DeadThroughout, DeadSince;
    var e, full := r.entries[i], UpTo(history, r, i);
    RecordOf(f, self, history, r, i);
    var (beat, t) := DeadSince(f, self, full, e.id).value;
    var j0 := DeadSinceMeans(f, self, full, e.id);
    forall j | 0 <= j < |full| ensures full[j].now <= r.now && (j0 <= j ==> full[j0].now <= full[j].now) {
      var all := history + [r];
      assert all[j].now == full[j].now && all[j0].now == full[j0].now && all[|history|] == r;
    }
    assert beat == e.state.value.heartbeat;
  }

  /** Noting the entry in its record gives the table of the history up to it. */
  lemma RecordOf(f: Parser, self: Id, history: seq<Reading>, r: Reading, i: nat)
    requires i < |r.entries| && IsDead(f, self, r.entries[i])
    ensures var e := r.entries[i];
            DeadSince(f, self, UpTo(history, r, i), e.id)
            == Some(Hold(RecordAt(f, self, history, r.entries, i, r.now), e.state.value.heartbeat, r.now))
  {
    var passed, full := r.entries[..i + 1], UpTo(history, r, i);
    assert full[..|history|] == history && full[|history|] == Reading(passed, r.now);
    assert passed[..i] == r.entries[..i] && passed[i] == r.entries[i];
  }

  // ----- snapshots of gossip

  /** One entry per member in what a read reports. */
  ghost predicate Distinct(observed: seq<Observed>) {
    forall i, j :: 0 <= i < j < |observed| ==> KeyOf(observed[i].peer) != KeyOf(observed[j].peer)
  }

  /** Two entries of one reading are never the same member. */
  ghost predicate DistinctMembers(f: Parser, entries: seq<Entry>) {
    forall i, j :: 0 <= i < j < |entries| && MemberOf(f, entries[i]).Some? && MemberOf(f, entries[j]).Some? ==>
      var a, b := MemberOf(f, entries[i]).value.peer, MemberOf(f, entries[j]).value.peer;
      a.node != b.node || a.incarnation != b.incarnation
  }

  lemma ReportKey(f: Parser, self: Id, record: Option<(nat, nat)>, e: Entry, published: seq<Member>, now: nat, settle: nat)
    ensures Report(f, self, record, e, published, now, settle).Some? ==>
              && MemberOf(f, e).Some?
              && KeyOf(Report(f, self, record, e, published, now, settle).value.peer) == KeyOf(MemberOf(f, e).value.peer)
  {}

  lemma ReportInPrefix(f: Parser, self: Id, history: seq<Reading>, entries: seq<Entry>, i: nat, n: nat,
                       published: seq<Member>, now: nat, settle: nat)
    requires i < n <= |entries|
    ensures ReportAt(f, self, history, Reading(entries[..n], now), i, published, settle)
            == ReportAt(f, self, history, Reading(entries, now), i, published, settle)
  {
    assert entries[..n][i] == entries[i] && entries[..n][..i] == entries[..i];
  }

  /** Everything a read reports is some entry's report. */
  lemma {:induction false} ReportsShow(f: Parser, self: Id, history: seq<Reading>, entries: seq<Entry>,
                                       published: seq<Member>, now: nat, settle: nat, o: Observed) returns (i: nat)
    requires o in Reference(f, self, history, entries, published, now, settle).0
    ensures i < |entries| && ReportAt(f, self, history, Reading(entries, now), i, published, settle) == Some(o)
  {
    hide Report, RecordAt;
    var n := |entries| - 1;
    if o in Reference(f, self, history, entries[..n], published, now, settle).0 {
      i := ReportsShow(f, self, history, entries[..n], published, now, settle, o);
      ReportInPrefix(f, self, history, entries, i, n, published, now, settle);
    } else {
      i := n;
    }
  }

  /** A read reports each member at most once. */
  lemma {:induction false} ReferenceIsDistinct(f: Parser, self: Id, history: seq<Reading>, entries: seq<Entry>,
                                               published: seq<Member>, now: nat, settle: nat)
    requires DistinctMembers(f, entries)
    ensures Distinct(Reference(f, self, history, entries, published, now, settle).0)
  {
    hide Report, RecordAt;
    if entries != [] {
      var n := |entries| - 1;
      var init, e := entries[..n], entries[n];
      ReferenceIsDistinct(f, self, history, init, published, now, settle);
      var observed := Reference(f, self, history, init, published, now, settle).0;
      var record := RecordAt(f, self, history, entries, n, now);
      ReportKey(f, self, record, e, published, now, settle);
      forall j | 0 <= j < |observed| && MemberOf(f, e).Some?
        ensures KeyOf(observed[j].peer) != KeyOf(MemberOf(f, e).value.peer)
      {
        var i := ReportsShow(f, self, history, init, published, now, settle, observed[j]);
        ReportKey(f, self, RecordAt(f, self, history, init, i, now), init[i], published, now, settle);
        assert init[i] == entries[i];
      }
    }
  }

  /** An entry's report is in what the read reports. */
  lemma {:induction false} ReportIsListed(f: Parser, self: Id, history: seq<Reading>, entries: seq<Entry>,
                                          published: seq<Member>, now: nat, settle: nat, i: nat)
    requires i < |entries| && ReportAt(f, self, history, Reading(entries, now), i, published, settle).Some?
    ensures ReportAt(f, self, history, Reading(entries, now), i, published, settle).value
            in Reference(f, self, history, entries, published, now, settle).0
  {
    hide Report, RecordAt;
    var n := |entries| - 1;
    if i < n {
      ReportInPrefix(f, self, history, entries, i, n, published, now, settle);
      ReportIsListed(f, self, history, entries[..n], published, now, settle, i);
    }
  }

  // ----- the run

  /** Everything an observer is given: its parser, its own id, its settle window, and for each read
      the gossip and the wall time of publishing. */
  datatype World = World(f: Parser, self: Id, settle: nat, readings: seq<Reading>, walls: seq<nat>)

  ghost predicate Sane(w: World) {
    && |w.walls| == |w.readings|
    && forall k :: 0 <= k < |w.readings| ==> DistinctMembers(w.f, w.readings[k].entries)
  }

  /** The first `k` reads as the observer publishes them: each classifies gossip against the snapshot
      the ones before it left in force. */
  function Reads(w: World, k: nat): (r: seq<Read>)
    requires k <= |w.readings| == |w.walls|
    ensures |r| == k
  {
    if k == 0 then []
    else
      var before := Reads(w, k - 1);
      var published := SnapshotAt(before, k - 1).members;
      var reading := w.readings[k - 1];
      var (observed, anonymous) :=
        Reference(w.f, w.self, w.readings[..k - 1], reading.entries, published, reading.now, w.settle);
      before + [Read(observed, anonymous, w.walls[k - 1])]
  }

  lemma {:induction false} SnapshotOfPrefix(history: seq<Read>, longer: seq<Read>, k: nat)
    requires k <= |history| && history <= longer
    ensures SnapshotAt(history, k) == SnapshotAt(longer, k)
  {
    hide NextMembers;
    if k > 0 {
      SnapshotOfPrefix(history, longer, k - 1);
    }
  }

  /** The snapshot in force after `k` reads. */
  function Shown(w: World, k: nat, key: Key): Option<Member>
    requires k <= |w.readings| == |w.walls|
  {
    Published(Reads(w, k), k, key)
  }

  /** Gossip read `k` lists `key`, other than as the observer itself. */
  ghost predicate Gossiped(w: World, k: nat, i: nat, key: Key)
    requires k < |w.readings|
  {
    var entries := w.readings[k].entries;
    && i < |entries| && entries[i].id != w.self
    && MemberOf(w.f, entries[i]).Some?
    && var peer := MemberOf(w.f, entries[i]).value.peer; peer.node == key.node && peer.incarnation == key.incarnation
  }

  lemma OnlyEntry(observed: seq<Observed>, o: Observed, o': Observed)
    requires Distinct(observed) && o in observed && o' in observed && KeyOf(o.peer) == KeyOf(o'.peer)
    ensures o == o'
  {
    var a :| 0 <= a < |observed| && observed[a] == o;
    var b :| 0 <= b < |observed| && observed[b] == o';
    assert a == b;
  }

  /** A member the snapshot in force holds is reported by a read that lists it, live or dead. */
  lemma PublishedIsReported(w: World, k: nat, i: nat, key: Key)
    requires Sane(w) && k < |w.readings| && Shown(w, k, key).Some? && Gossiped(w, k, i, key)
    ensures
      var e := w.readings[k].entries[i];
      var entry := EntryOf(Reads(w, k + 1)[k].observed, key);
      var departing := w.f(e.id, e.state.value.keys).value.departing;
      && entry.Some?
      && entry.value.status == if e.live then (if departing then Departing else Live)
                               else if departing then Left else Down
    ensures Shown(w, k + 1, key).Some?
  {
    hide Find, EntryOf, NextMembers, DeadSince, Distinct, DistinctMembers, RecordAt;
    var r, before := w.readings[k], Reads(w, k);
    var published := SnapshotAt(before, k).members;
    var e := r.entries[i];
    FindSpec(published, key);
    assert SeenBefore(published, MemberOf(w.f, e).value.peer);
    var report := ReportAt(w.f, w.self, w.readings[..k], r, i, published, w.settle).value;
    ReportIsListed(w.f, w.self, w.readings[..k], r.entries, published, r.now, w.settle, i);
    ReferenceIsDistinct(w.f, w.self, w.readings[..k], r.entries, published, r.now, w.settle);
    var observed := Reads(w, k + 1)[k].observed;
    EntrySpec(observed, key);
    assert report in observed && KeyOf(report.peer) == key;
    OnlyEntry(observed, EntryOf(observed, key).value, report);
    SnapshotOfPrefix(before, Reads(w, k + 1), k);
    PublishedStep(Reads(w, k + 1), k, key);
  }

  /** The one entry a shown member comes from. */
  lemma ShownFrom(w: World, k: nat, i: nat, key: Key)
    requires Sane(w) && k < |w.readings| && Gossiped(w, k, i, key) && Shown(w, k + 1, key).Some?
    ensures
      var r, published := w.readings[k], SnapshotAt(Reads(w, k), k).members;
      var entry := EntryOf(Reads(w, k + 1)[k].observed, key);
      entry.Some? && ReportAt(w.f, w.self, w.readings[..k], r, i, published, w.settle) == entry
  {
    hide Find, EntryOf, NextMembers, RecordAt, Report;
    var r, published := w.readings[k], SnapshotAt(Reads(w, k), k).members;
    var observed := Reads(w, k + 1)[k].observed;
    SnapshotOfPrefix(Reads(w, k), Reads(w, k + 1), k);
    PublishedStep(Reads(w, k + 1), k, key);
    EntrySpec(observed, key);
    var j := ReportsShow(w.f, w.self, w.readings[..k], r.entries, published, r.now, w.settle, EntryOf(observed, key).value);
    ReportIsGossiped(w, k, j, published, key);
    assert i == j;
  }

  /** What a shown member is shown as: dead it is `Left` if it gossiped a departure and else `Down`; live
      it is `Departing` if it gossips one and else `Live`, but `Left` if it was `Left` and gossips one.
      The rest of its record is as its keys parse. */
  lemma ShownAs(w: World, k: nat, i: nat, key: Key)
    requires Sane(w) && k < |w.readings| && Gossiped(w, k, i, key) && Shown(w, k + 1, key).Some?
    ensures
      var e, held, m := w.readings[k].entries[i], Shown(w, k, key), Shown(w, k + 1, key).value;
      var read := w.f(e.id, e.state.value.keys).value;
      && m.peer == read.peer && m.caches == read.caches
      && (!e.live && !read.departing ==> m.status == Down)
      && (!e.live && read.departing ==> m.status == Left)
      && (e.live && !read.departing ==> m.status == Live)
      && (e.live && read.departing ==>
            m.status == if held.Some? && held.value.status == Left then Left else Departing)
  {
    hide Find, EntryOf, Reads, RecordAt, SnapshotAt;
    ShownFrom(w, k, i, key);
    ReadsGrow(w, k);
    SnapshotOfPrefix(Reads(w, k), Reads(w, k + 1), k);
    PublishedStep(Reads(w, k + 1), k, key);
  }

  lemma ReadsGrow(w: World, k: nat)
    requires k < |w.readings| == |w.walls|
    ensures Reads(w, k) <= Reads(w, k + 1)
  {}

  /** The live participants of a reading, other than the observer, that are no node of ours. */
  ghost function Anonymous(f: Parser, self: Id, entries: seq<Entry>): set<nat> {
    set i | 0 <= i < |entries| && entries[i].id != self && entries[i].live && MemberOf(f, entries[i]).None?
  }

  lemma {:induction false} ReferenceCounts(f: Parser, self: Id, history: seq<Reading>, entries: seq<Entry>,
                                           published: seq<Member>, now: nat, settle: nat)
    ensures Reference(f, self, history, entries, published, now, settle).1 == |Anonymous(f, self, entries)|
  {
    hide Report, RecordAt;
    if entries != [] {
      var n := |entries| - 1;
      var init, e := entries[..n], entries[n];
      ReferenceCounts(f, self, history, init, published, now, settle);
      forall i | 0 <= i < n ensures init[i] == entries[i] {}
      if e.id != self && e.live && MemberOf(f, e).None? {
        assert Anonymous(f, self, entries) == Anonymous(f, self, init) + {n};
      } else {
        assert Anonymous(f, self, entries) == Anonymous(f, self, init);
      }
    }
  }

  /** The count a snapshot gives is theirs, in the latest reading. */
  lemma AnonymousAreCounted(w: World, k: nat)
    requires k < |w.readings| == |w.walls|
    ensures SnapshotAt(Reads(w, k + 1), k + 1).anonymous == |Anonymous(w.f, w.self, w.readings[k].entries)|
  {
    hide NextMembers, Reference, Anonymous;
    var r := w.readings[k];
    ReferenceCounts(w.f, w.self, w.readings[..k], r.entries, SnapshotAt(Reads(w, k), k).members, r.now, w.settle);
  }

  /** Departure is final over whole runs: while gossip keeps listing an incarnation with its departure,
      live or dead, a member once shown as `Left` is shown as `Left` for ever after. */
  lemma {:induction false} DepartureIsFinal(w: World, first: nat, last: nat, at: nat -> nat, key: Key)
    requires Sane(w) && first <= last <= |w.readings|
    requires Shown(w, first, key).Some? && Shown(w, first, key).value.status == Left
    requires forall k :: first <= k < last ==>
               var entries := w.readings[k].entries;
               Gossiped(w, k, at(k), key) && w.f(entries[at(k)].id, entries[at(k)].state.value.keys).value.departing
    ensures Shown(w, last, key).Some? && Shown(w, last, key).value.status == Left
    decreases last
  {
    hide Shown, Sane, Reads;
    if first < last {
      DepartureIsFinal(w, first, last - 1, at, key);
      PublishedIsReported(w, last - 1, at(last - 1), key);
      ShownAs(w, last - 1, at(last - 1), key);
    }
  }

  /** And a member once shown stays shown for as long as gossip lists it. */
  lemma {:induction false} ShownWhileGossiped(w: World, first: nat, last: nat, at: nat -> nat, key: Key)
    requires Sane(w) && first <= last <= |w.readings| && Shown(w, first, key).Some?
    requires forall k :: first <= k < last ==> Gossiped(w, k, at(k), key)
    ensures Shown(w, last, key).Some?
    decreases last
  {
    hide Shown, Gossiped, Sane, MemberOf, Reads;
    if first < last {
      ShownWhileGossiped(w, first, last - 1, at, key);
      PublishedIsReported(w, last - 1, at(last - 1), key);
    }
  }

  // ----- exactly when a member is shown

  /** Read `k` would show `key` to an observer with no snapshot: an entry lists it live, or dead and
      settled. */
  ghost predicate Backed(w: World, k: nat, key: Key)
    requires k < |w.readings|
  {
    exists i: nat :: Gossiped(w, k, i, key)
                && (w.readings[k].entries[i].live || Settled(w.f, w.self, w.readings[..k], w.readings[k], i, w.settle))
  }

  ghost predicate IsGossiped(w: World, k: nat, key: Key)
    requires k < |w.readings|
  {
    exists i: nat :: Gossiped(w, k, i, key)
  }

  /** What one entry needs for its report. */
  lemma ReportedExactly(w: World, k: nat, i: nat, published: seq<Member>, key: Key)
    requires k < |w.readings| && InOrder(w.readings) && Gossiped(w, k, i, key)
    ensures
      var r := w.readings[k];
      ReportAt(w.f, w.self, w.readings[..k], r, i, published, w.settle).Some?
      <==> || r.entries[i].live || Find(published, key).Some?
           || Settled(w.f, w.self, w.readings[..k], r, i, w.settle)
  {
    hide RecordAt, Settled, Find;
    var r := w.readings[k];
    FindSpec(published, key);
    assert SeenBefore(published, MemberOf(w.f, r.entries[i]).value.peer) <==> Find(published, key).Some?;
    if !r.entries[i].live && Find(published, key).None? {
      assert w.readings[..k] + [r] == w.readings[..k + 1];
      DeadIsReportedOnceSettled(w.f, w.self, w.readings[..k], r, i, published, w.settle);
    }
  }

  /** One read: a member is in the snapshot after it exactly if the read lists it, and lists it live,
      or finds it in the snapshot in force, or has settled it. */
  lemma ShownExactly(w: World, k: nat, key: Key)
    requires |w.walls| == |w.readings| && InOrder(w.readings) && k < |w.readings|
    ensures Shown(w, k + 1, key).Some?
            <==> Backed(w, k, key) || (IsGossiped(w, k, key) && Shown(w, k, key).Some?)
  {
    hide Find, EntryOf, NextMembers, RecordAt, Settled, Report;
    var r, history := w.readings[k], w.readings[..k];
    var published := SnapshotAt(Reads(w, k), k).members;
    var observed := Reads(w, k + 1)[k].observed;
    SnapshotOfPrefix(Reads(w, k), Reads(w, k + 1), k);
    PublishedStep(Reads(w, k + 1), k, key);
    EntrySpec(observed, key);
    if EntryOf(observed, key).Some? {
      var i := ReportsShow(w.f, w.self, history, r.entries, published, r.now, w.settle, EntryOf(observed, key).value);
      ReportIsGossiped(w, k, i, published, key);
      ReportedExactly(w, k, i, published, key);
    }
    forall i: nat | Gossiped(w, k, i, key) && ReportAt(w.f, w.self, history, r, i, published, w.settle).Some?
      ensures EntryOf(observed, key).Some?
    {
      ReportIsListed(w.f, w.self, history, r.entries, published, r.now, w.settle, i);
      ReportKey(w.f, w.self, RecordAt(w.f, w.self, history, r.entries, i, r.now), r.entries[i], published, r.now, w.settle);
    }
    forall i: nat | Gossiped(w, k, i, key)
      ensures ReportAt(w.f, w.self, history, r, i, published, w.settle).Some?
              <==> || r.entries[i].live || Find(published, key).Some? || Settled(w.f, w.self, history, r, i, w.settle)
    {
      ReportedExactly(w, k, i, published, key);
    }
  }

  lemma ReportIsGossiped(w: World, k: nat, i: nat, published: seq<Member>, key: Key)
    requires k < |w.readings| && i < |w.readings[k].entries|
    requires var report := ReportAt(w.f, w.self, w.readings[..k], w.readings[k], i, published, w.settle);
             report.Some? && KeyOf(report.value.peer) == key
    ensures Gossiped(w, k, i, key)
  {}

  /** Gossip listed `key` at every read from `first` up to `last`. */
  ghost predicate Unbroken(w: World, first: nat, last: nat, key: Key)
    requires last <= |w.readings|
  {
    forall k :: first <= k < last ==> IsGossiped(w, k, key)
  }

  /** A whole run: a member is shown exactly if some read listed it live or settled it, and every read
      since has listed it. */
  lemma {:induction false} ShownSince(w: World, n: nat, key: Key)
    requires |w.walls| == |w.readings| && InOrder(w.readings) && n <= |w.readings|
    ensures Shown(w, n, key).Some? <==> exists k: nat :: k < n && Backed(w, k, key) && Unbroken(w, k, n, key)
  {
    hide Shown, Backed, IsGossiped;
    if n == 0 {
      NothingShown(w, key);
    } else {
      ShownSince(w, n - 1, key);
      ShownExactly(w, n - 1, key);
      BackedIsGossiped(w, n - 1, key);
      if Backed(w, n - 1, key) {
        assert Unbroken(w, n - 1, n, key);
      }
      forall k: nat | k < n - 1 ensures Unbroken(w, k, n, key) <==> Unbroken(w, k, n - 1, key) && IsGossiped(w, n - 1, key) {}
    }
  }

  lemma NothingShown(w: World, key: Key)
    requires |w.walls| == |w.readings|
    ensures Shown(w, 0, key) == None
  {}

  lemma BackedIsGossiped(w: World, k: nat, key: Key)
    requires k < |w.readings|
    ensures Backed(w, k, key) ==> IsGossiped(w, k, key)
  {}

  /** So a member shown once is shown later exactly if every read in between listed it, or one listed
      it live or settled it anew and every read since listed it. */
  lemma ShownAgain(w: World, first: nat, last: nat, key: Key)
    requires |w.walls| == |w.readings| && InOrder(w.readings) && first <= last <= |w.readings|
    requires Shown(w, first, key).Some?
    ensures Shown(w, last, key).Some?
            <==> || Unbroken(w, first, last, key)
                 || exists k: nat :: first <= k < last && Backed(w, k, key) && Unbroken(w, k, last, key)
  {
    hide Shown, Backed, IsGossiped;
    ShownSince(w, first, key);
    ShownSince(w, last, key);
    var k: nat :| k < first && Backed(w, k, key) && Unbroken(w, k, first, key);
    if Unbroken(w, first, last, key) {
      assert Unbroken(w, k, last, key);
    }
    forall j: nat | j < first && Unbroken(w, j, last, key) ensures Unbroken(w, first, last, key) {}
  }

  /** One read that leaves a member out is enough for it to count as still joining again: it is shown,
      then not listed, and when next listed it is dead and withheld. */
  lemma OneMissedReadWithholds()
    ensures Sane(MissedOnce()) && InOrder(MissedOnce().readings)
    ensures Shown(MissedOnce(), 1, Key(1, 1)).Some?
    ensures Gossiped(MissedOnce(), 2, 0, Key(1, 1)) && Shown(MissedOnce(), 3, Key(1, 1)).None?
  {
    hide Shown;
    var w := MissedOnce();
    assert Gossiped(w, 0, 0, Key(1, 1));
    ShownExactly(w, 0, Key(1, 1));
    ShownExactly(w, 1, Key(1, 1));
    ShownExactly(w, 2, Key(1, 1));
  }

  /** One member: live, then not listed, then dead. */
  function MissedOnce(): World {
    var state := Some(State(1, 1, 0));
    World((_, _) => Some(Parsed(Peer(1, 1, 0), false, 0)), 0, 10,
          [Reading([Entry(1, state, true)], 0), Reading([], 1), Reading([Entry(1, state, false)], 2)], [0, 1, 2])
  }

  // ----- the observer as it runs

  /** Reads gossip and publishes, read after read, with the memo tables in hand: the snapshot in force
      is at every point the one the whole history of reads stands for. */
  method RunObserver(w: World) returns (snapshot: Snapshot)
    requires |w.walls| == |w.readings| && VersionsTell(w.readings)
    ensures snapshot == SnapshotAt(Reads(w, |w.readings|), |w.readings|)
  {
    hide Reference, VersionsTell, NextMembers;
    var reader := new Reader(w.f, w.self);
    snapshot := Snapshot([], 0);
    for k := 0 to |w.readings|
      invariant reader.parser == w.f && reader.self == w.self && fresh(reader)
      invariant reader.Knows(w.readings[..k])
      invariant snapshot == SnapshotAt(Reads(w, k), k)
    {
      var r := w.readings[k];
      VersionsTellBefore(w.readings, k + 1);
      assert w.readings[..k + 1] == w.readings[..k] + [Reading(r.entries, r.now)];
      var observed, anonymous := reader.Read(r.entries, snapshot.members, r.now, w.settle, w.readings[..k]);
      SnapshotOfPrefix(Reads(w, k), Reads(w, k + 1), k);
      snapshot := Publish(snapshot, observed, anonymous, w.walls[k]);
    }
    assert w.readings[..|w.readings|] == w.readings;
  }

  lemma VersionsTellBefore(history: seq<Reading>, k: nat)
    requires VersionsTell(history) && k <= |history|
    ensures VersionsTell(history[..k])
  {
    forall id, s | Showed(history[..k], id, s) ensures Showed(history, id, s) {
      var a, i :| 0 <= a < k && 0 <= i < |history[..k][a].entries|
                  && history[..k][a].entries[i] == Entry(id, Some(s), history[..k][a].entries[i].live);
      assert history[a].entries[i] == Entry(id, Some(s), history[a].entries[i].live);
    }
  }
}
