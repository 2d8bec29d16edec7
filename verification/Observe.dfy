/** The observer's published snapshots: how each read of gossip turns the last snapshot into the
    next, and what holds over a whole run of reads. */
module Observe {
  import opened Options

  /** A member's node, its incarnation, and everything else its record holds. */
  datatype Peer = Peer(node: nat, incarnation: nat, details: nat)

  datatype Status = Live | Departing | Left | Down

  datatype Observed = Observed(peer: Peer, status: Status, caches: nat)

  datatype Member = Member(peer: Peer, status: Status, since: nat, caches: nat)

  datatype Snapshot = Snapshot(members: seq<Member>, anonymous: nat)

  /** What names a member across reads. */
  datatype Key = Key(node: nat, incarnation: nat)

  function KeyOf(p: Peer): Key { Key(p.node, p.incarnation) }

  predicate KeyAtMost(a: Key, b: Key) {
    a.node < b.node || (a.node == b.node && a.incarnation <= b.incarnation)
  }

  function StatusOf(live: bool, departing: bool): Status {
    match (live, departing)
    case (true, false) => Live
    case (true, true) => Departing
    case (false, true) => Left
    case (false, false) => Down
  }

  /** The status of a member that reads as `status` while live, once held dead. */
  function DeadStatus(status: Status): Status { StatusOf(false, status == Departing) }

  /** Whether a status comes from a member that gossiped its departure. */
  predicate HasDeparted(status: Status) { status == Departing || status == Left }

  // ----- one read

  /** The first member listed under `key`. */
  function Find(members: seq<Member>, key: Key): Option<Member> {
    if members == [] then None
    else if KeyOf(members[0].peer) == key then Some(members[0])
    else Find(members[1..], key)
  }

  lemma {:induction false} FindSpec(members: seq<Member>, key: Key)
    ensures Find(members, key).Some? ==>
              Find(members, key).value in members && KeyOf(Find(members, key).value.peer) == key
    ensures Find(members, key).None? ==> forall m :: m in members ==> KeyOf(m.peer) != key
  {
    if members != [] {
      FindSpec(members[1..], key);
    }
  }

  function NextStatus(held: Option<Member>, status: Status): Status {
    if held.Some? && held.value.status == Left && status == Departing then Left else status
  }

  function NextMember(prev: seq<Member>, o: Observed, now: nat): Member {
    var held := Find(prev, KeyOf(o.peer));
    var status := NextStatus(held, o.status);
    var since := if held.Some? && held.value.status == status then held.value.since else now;
    Member(o.peer, status, since, o.caches)
  }

  function NextAll(prev: seq<Member>, observed: seq<Observed>, now: nat): (r: seq<Member>)
    ensures |r| == |observed|
  {
    if observed == [] then []
    else NextAll(prev, observed[..|observed| - 1], now) + [NextMember(prev, observed[|observed| - 1], now)]
  }

  lemma {:induction false} NextAllAt(prev: seq<Member>, observed: seq<Observed>, now: nat)
    ensures forall i :: 0 <= i < |observed| ==> NextAll(prev, observed, now)[i] == NextMember(prev, observed[i], now)
  {
    if observed != [] {
      NextAllAt(prev, observed[..|observed| - 1], now);
    }
  }

  /** `m` put after every member it does not sort before. */
  function Insert(sorted: seq<Member>, m: Member): seq<Member> {
    if sorted == [] || KeyAtMost(KeyOf(sorted[|sorted| - 1].peer), KeyOf(m.peer)) then sorted + [m]
    else Insert(sorted[..|sorted| - 1], m) + [sorted[|sorted| - 1]]
  }

  /** A stable sort by node, then incarnation. */
  function Sort(members: seq<Member>): seq<Member> {
    if members == [] then [] else Insert(Sort(members[..|members| - 1]), members[|members| - 1])
  }

  function NextMembers(prev: seq<Member>, observed: seq<Observed>, now: nat): seq<Member> {
    Sort(NextAll(prev, observed, now))
  }

  /** The snapshot that follows, or `None` when nothing a subscriber sees changed. */
  function NextSnapshot(current: Snapshot, observed: seq<Observed>, anonymous: nat, now: nat): Option<Snapshot> {
    var members := NextMembers(current.members, observed, now);
    if members == current.members && anonymous == current.anonymous then None
    else Some(Snapshot(members, anonymous))
  }

  /** The snapshot in force after a read: the next one when there is one. */
  function Publish(current: Snapshot, observed: seq<Observed>, anonymous: nat, now: nat): (r: Snapshot)
    ensures r == Snapshot(NextMembers(current.members, observed, now), anonymous)
  {
    var next := NextSnapshot(current, observed, anonymous, now);
    if next.Some? then next.value else current
  }

  // ----- sorting

  ghost predicate Sorted(s: seq<Member>) {
    forall i, j :: 0 <= i < j < |s| ==> KeyAtMost(KeyOf(s[i].peer), KeyOf(s[j].peer))
  }

  lemma {:induction false} InsertKeeps(sorted: seq<Member>, m: Member)
    ensures multiset(Insert(sorted, m)) == multiset(sorted) + multiset{m}
  {
    if sorted != [] && !KeyAtMost(KeyOf(sorted[|sorted| - 1].peer), KeyOf(m.peer)) {
      assert sorted == sorted[..|sorted| - 1] + [sorted[|sorted| - 1]];
      InsertKeeps(sorted[..|sorted| - 1], m);
    }
  }

  lemma {:induction false} InsertSorts(sorted: seq<Member>, m: Member)
    requires Sorted(sorted)
    ensures Sorted(Insert(sorted, m))
  {
    if sorted != [] && !KeyAtMost(KeyOf(sorted[|sorted| - 1].peer), KeyOf(m.peer)) {
      var init, last := sorted[..|sorted| - 1], sorted[|sorted| - 1];
      assert sorted == init + [last];
      InsertSorts(init, m);
      InsertKeeps(init, m);
      var r := Insert(init, m);
      forall i | 0 <= i < |r| ensures KeyAtMost(KeyOf(r[i].peer), KeyOf(last.peer)) {
        assert r[i] in multiset(r);
        assert r[i] in multiset(init) || r[i] == m;
      }
    }
  }

  /** Published members are in order, and are the observed ones and no others. */
  lemma {:induction false} SortSorts(members: seq<Member>)
    ensures Sorted(Sort(members)) && multiset(Sort(members)) == multiset(members)
    ensures forall i, j :: 0 <= i < j < |Sort(members)| ==>
              var a, b := Sort(members)[i].peer, Sort(members)[j].peer;
              a.node < b.node || (a.node == b.node && a.incarnation <= b.incarnation)
  {
    if members != [] {
      assert members == members[..|members| - 1] + [members[|members| - 1]];
      SortSorts(members[..|members| - 1]);
      InsertSorts(Sort(members[..|members| - 1]), members[|members| - 1]);
      InsertKeeps(Sort(members[..|members| - 1]), members[|members| - 1]);
    }
  }

  // ----- finding a member again

  /** The first entry of a read for `key`, if any. */
  function EntryOf(observed: seq<Observed>, key: Key): Option<Observed> {
    if observed == [] then None
    else if KeyOf(observed[0].peer) == key then Some(observed[0])
    else EntryOf(observed[1..], key)
  }

  lemma {:induction false} EntrySpec(observed: seq<Observed>, key: Key)
    ensures EntryOf(observed, key).Some? ==>
              EntryOf(observed, key).value in observed && KeyOf(EntryOf(observed, key).value.peer) == key
    ensures EntryOf(observed, key).None? ==> forall o :: o in observed ==> KeyOf(o.peer) != key
  {
    if observed != [] {
      EntrySpec(observed[1..], key);
    }
  }

  lemma {:induction false} FindAppend(s: seq<Member>, m: Member, key: Key)
    ensures Find(s + [m], key) == if Find(s, key).Some? then Find(s, key)
                                  else if KeyOf(m.peer) == key then Some(m) else None
  {
    if s == [] {
      assert s + [m] == [m];
    } else {
      assert (s + [m])[1..] == s[1..] + [m];
      FindAppend(s[1..], m, key);
    }
  }

  lemma {:induction false} EntryAppend(s: seq<Observed>, o: Observed, key: Key)
    ensures EntryOf(s + [o], key) == if EntryOf(s, key).Some? then EntryOf(s, key)
                                     else if KeyOf(o.peer) == key then Some(o) else None
  {
    if s == [] {
      assert s + [o] == [o];
    } else {
      assert (s + [o])[1..] == s[1..] + [o];
      EntryAppend(s[1..], o, key);
    }
  }

  /** The sort is stable: it does not change which member is the first under a key. */
  lemma {:induction false} FindInsert(s: seq<Member>, m: Member, key: Key)
    ensures Find(Insert(s, m), key) == Find(s + [m], key)
  {
    if s != [] && !KeyAtMost(KeyOf(s[|s| - 1].peer), KeyOf(m.peer)) {
      var init, last := s[..|s| - 1], s[|s| - 1];
      assert s == init + [last];
      FindInsert(init, m, key);
      FindAppend(Insert(init, m), last, key);
      FindAppend(init, m, key);
      FindAppend(init, last, key);
      FindAppend(s, m, key);
    }
  }

  lemma {:induction false} FindSort(members: seq<Member>, key: Key)
    ensures Find(Sort(members), key) == Find(members, key)
  {
    if members != [] {
      var init, last := members[..|members| - 1], members[|members| - 1];
      assert members == init + [last];
      FindSort(init, key);
      FindInsert(Sort(init), last, key);
      FindAppend(Sort(init), last, key);
      FindAppend(init, last, key);
    }
  }

  lemma {:induction false} FindNextAll(prev: seq<Member>, observed: seq<Observed>, now: nat, key: Key)
    ensures var entry := EntryOf(observed, key);
            Find(NextAll(prev, observed, now), key) == if entry.None? then None else Some(NextMember(prev, entry.value, now))
  {
    if observed != [] {
      var init, last := observed[..|observed| - 1], observed[|observed| - 1];
      assert observed == init + [last];
      FindNextAll(prev, init, now, key);
      FindAppend(NextAll(prev, init, now), NextMember(prev, last, now), key);
      EntryAppend(init, last, key);
    }
  }

  /** A member is found in the snapshot that follows exactly if the read lists it, as the rule makes
      it from the first entry listing it. */
  lemma FindNext(prev: seq<Member>, observed: seq<Observed>, now: nat, key: Key)
    ensures var entry := EntryOf(observed, key);
            Find(NextMembers(prev, observed, now), key)
            == if entry.None? then None else Some(NextMember(prev, entry.value, now))
  {
    FindSort(NextAll(prev, observed, now), key);
    FindNextAll(prev, observed, now, key);
  }

  // ----- reading the same gossip again

  predicate SameKeys(a: seq<Member>, b: seq<Member>) {
    |a| == |b| && forall i :: 0 <= i < |a| ==> KeyOf(a[i].peer) == KeyOf(b[i].peer)
  }

  /** The sort moves by key alone, so equal results come from equal lists. */
  lemma {:induction false} InsertSame(s: seq<Member>, t: seq<Member>, m: Member, n: Member)
    requires SameKeys(s, t) && KeyOf(m.peer) == KeyOf(n.peer)
    ensures SameKeys(Insert(s, m), Insert(t, n))
    ensures Insert(s, m) == Insert(t, n) ==> s == t && m == n
  {
    if s == [] || KeyAtMost(KeyOf(s[|s| - 1].peer), KeyOf(m.peer)) {
      assert s + [m] == t + [n] ==> s == (s + [m])[..|s|] == (t + [n])[..|s|] == t && m == (s + [m])[|s|] == n;
    } else {
      var s', t' := s[..|s| - 1], t[..|t| - 1];
      var x, y := Insert(s', m), Insert(t', n);
      InsertSame(s', t', m, n);
      if x + [s[|s| - 1]] == y + [t[|t| - 1]] {
        assert x == (x + [s[|s| - 1]])[..|x|] == y;
        assert s[|s| - 1] == (x + [s[|s| - 1]])[|x|] == t[|t| - 1];
        assert s == s' + [s[|s| - 1]] && t == t' + [t[|t| - 1]];
      }
    }
  }

  lemma {:induction false} SortSame(a: seq<Member>, b: seq<Member>)
    requires SameKeys(a, b)
    ensures SameKeys(Sort(a), Sort(b))
    ensures Sort(a) == Sort(b) ==> a == b
  {
    if a != [] {
      SortSame(a[..|a| - 1], b[..|b| - 1]);
      InsertSame(Sort(a[..|a| - 1]), Sort(b[..|b| - 1]), a[|a| - 1], b[|b| - 1]);
      assert a == a[..|a| - 1] + [a[|a| - 1]] && b == b[..|b| - 1] + [b[|b| - 1]];
    }
  }

  /** The status a read publishes for one of its entries. */
  function StatusIn(prev: seq<Member>, o: Observed): Status { NextStatus(Find(prev, KeyOf(o.peer)), o.status) }

  predicate AgreesWithFirst(prev: seq<Member>, observed: seq<Observed>, o: Observed) {
    var first := EntryOf(observed, KeyOf(o.peer));
    first.Some? && StatusIn(prev, o) == StatusIn(prev, first.value)
  }

  /** Entries for one member agree on the status it is to have; one entry each is the usual case. */
  ghost predicate Agree(prev: seq<Member>, observed: seq<Observed>) {
    forall o :: o in observed ==> AgreesWithFirst(prev, observed, o)
  }

  /** Re-reading one entry changes nothing if it agrees with the first entry for its member, and, at
      an instant the member does not carry already, only if it does. */
  lemma RereadEntry(prev: seq<Member>, observed: seq<Observed>, now: nat, later: nat, o: Observed)
    requires o in observed
    ensures AgreesWithFirst(prev, observed, o) ==>
              NextMember(NextMembers(prev, observed, now), o, later) == NextMember(prev, o, now)
    ensures NextMember(prev, o, now).since != later ==>
              (NextMember(NextMembers(prev, observed, now), o, later) == NextMember(prev, o, now) ==>
                 AgreesWithFirst(prev, observed, o))
  {
    EntrySpec(observed, KeyOf(o.peer));
    FindNext(prev, observed, now, KeyOf(o.peer));
  }

  /** No member of the next snapshot carries the instant `later`. */
  ghost predicate IsNew(prev: seq<Member>, observed: seq<Observed>, now: nat, later: nat) {
    forall o :: o in observed ==> NextMember(prev, o, now).since != later
  }

  /** Re-reading the same gossip later publishes nothing if the entries for each member agree on its
      status, and at a new instant only if they do. */
  lemma RereadPublishesNothing(current: Snapshot, observed: seq<Observed>, anonymous: nat, now: nat, later: nat)
    ensures Agree(current.members, observed) ==>
              NextSnapshot(Publish(current, observed, anonymous, now), observed, anonymous, later) == None
    ensures IsNew(current.members, observed, now, later) ==>
              (NextSnapshot(Publish(current, observed, anonymous, now), observed, anonymous, later) == None ==>
                 Agree(current.members, observed))
  {
    hide NextMembers, NextMember, AgreesWithFirst;
    var prev, members := current.members, NextMembers(current.members, observed, now);
    var first, again := NextAll(prev, observed, now), NextAll(members, observed, later);
    NextAllAt(prev, observed, now);
    NextAllAt(members, observed, later);
    forall i | 0 <= i < |observed|
      ensures AgreesWithFirst(prev, observed, observed[i]) ==> again[i] == first[i]
      ensures again[i] == first[i] && IsNew(prev, observed, now, later) ==> AgreesWithFirst(prev, observed, observed[i])
      ensures KeyOf(again[i].peer) == KeyOf(first[i].peer)
    {
      RereadEntry(prev, observed, now, later, observed[i]);
      NextKeepsPeer(prev, observed[i], now);
      NextKeepsPeer(members, observed[i], later);
    }
    SortSame(again, first);
    NextIsSort(prev, observed, now);
    NextIsSort(members, observed, later);
    assert Agree(prev, observed) ==> again == first;
  }

  lemma NextKeepsPeer(prev: seq<Member>, o: Observed, now: nat)
    ensures NextMember(prev, o, now).peer == o.peer
  {}

  lemma NextIsSort(prev: seq<Member>, observed: seq<Observed>, now: nat)
    ensures NextMembers(prev, observed, now) == Sort(NextAll(prev, observed, now))
  {}

  // ----- whole runs

  datatype Read = Read(observed: seq<Observed>, anonymous: nat, now: nat)

  /** The snapshot after the first `k` reads, from the empty one an observer starts with. */
  function SnapshotAt(history: seq<Read>, k: nat): Snapshot
    requires k <= |history|
  {
    if k == 0 then Snapshot([], 0)
    else Publish(SnapshotAt(history, k - 1), history[k - 1].observed, history[k - 1].anonymous, history[k - 1].now)
  }

  /** What the snapshot after `k` reads says of `key`. */
  function Published(history: seq<Read>, k: nat, key: Key): Option<Member>
    requires k <= |history|
  {
    Find(SnapshotAt(history, k).members, key)
  }

  /** One read's effect on one member: it depends on that member's own entry and nothing else. */
  lemma PublishedStep(history: seq<Read>, k: nat, key: Key)
    requires k < |history|
    ensures
      var entry, held, next := EntryOf(history[k].observed, key), Published(history, k, key), Published(history, k + 1, key);
      && (next.Some? <==> entry.Some?)
      && (next.Some? ==>
          && next.value.peer == entry.value.peer && next.value.caches == entry.value.caches
          && next.value.status == NextStatus(held, entry.value.status)
          && next.value.since == if held.Some? && held.value.status == next.value.status then held.value.since
                                 else history[k].now)
  {
    FindNext(SnapshotAt(history, k).members, history[k].observed, history[k].now, key);
    EntrySpec(history[k].observed, key);
  }

  predicate IsLeft(history: seq<Read>, k: nat, key: Key)
    requires k <= |history|
  {
    var m := Published(history, k, key);
    m.Some? && m.value.status == Left
  }

  predicate Listed(history: seq<Read>, k: nat, key: Key)
    requires k < |history|
  {
    EntryOf(history[k].observed, key).Some?
  }

  /** Read `k` still shows the member's departure. */
  predicate StillDeparted(history: seq<Read>, k: nat, key: Key)
    requires k < |history| && Listed(history, k, key)
  {
    HasDeparted(EntryOf(history[k].observed, key).value.status)
  }

  lemma LeftStep(history: seq<Read>, k: nat, key: Key)
    requires k < |history| && IsLeft(history, k, key) && Listed(history, k, key)
    ensures IsLeft(history, k + 1, key) <==> StillDeparted(history, k, key)
  {
    PublishedStep(history, k, key);
  }

  /** A departure is final: once a member is published as `Left`, then over any stretch of reads that
      keeps listing it, it stays `Left` exactly as long as its departure stays gossiped. */
  lemma {:induction false} LeftIsFinal(history: seq<Read>, first: nat, last: nat, key: Key)
    requires first <= last <= |history| && IsLeft(history, first, key)
    requires forall k :: first <= k < last ==> Listed(history, k, key)
    ensures (forall k :: first <= k <= last ==> IsLeft(history, k, key))
            <==> (forall k :: first <= k < last ==> StillDeparted(history, k, key))
    decreases last
  {
    hide IsLeft, Listed, StillDeparted;
    if first < last {
      LeftIsFinal(history, first, last - 1, key);
      if IsLeft(history, last - 1, key) {
        LeftStep(history, last - 1, key);
      }
    }
  }

  predicate HasStatus(history: seq<Read>, k: nat, key: Key, status: Status)
    requires k <= |history|
  {
    var m := Published(history, k, key);
    m.Some? && m.value.status == status
  }

  lemma SinceStep(history: seq<Read>, k: nat, key: Key)
    requires k < |history| && Published(history, k + 1, key).Some?
    ensures var next := Published(history, k + 1, key).value;
            next.since == if HasStatus(history, k, key, next.status) then Published(history, k, key).value.since
                          else history[k].now
  {
    PublishedStep(history, k, key);
  }

  lemma NothingAtFirst(history: seq<Read>, key: Key)
    ensures Published(history, 0, key) == None
  {}

  /** `since` tells the truth: it is the time of the read at which the member's published status
      last changed, or at which the member was first listed in this stretch. */
  lemma {:induction false} SinceIsLastChange(history: seq<Read>, k: nat, key: Key) returns (changed: nat)
    requires k <= |history| && Published(history, k, key).Some?
    ensures var m := Published(history, k, key).value;
            && changed < k && history[changed].now == m.since
            && (forall j :: changed < j <= k ==> HasStatus(history, j, key, m.status))
            && !HasStatus(history, changed, key, m.status)
    decreases k
  {
    hide Find, SnapshotAt;
    NothingAtFirst(history, key);
    var next := Published(history, k, key).value;
    SinceStep(history, k - 1, key);
    if HasStatus(history, k - 1, key, next.status) {
      changed := SinceIsLastChange(history, k - 1, key);
    } else {
      changed := k - 1;
    }
  }
}
