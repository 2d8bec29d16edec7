/** Any number of clocks exchanging stamps: messages may be lost, delayed, reordered and delivered
    any number of times, and physical clocks may read anything. */
module HlcNetwork {
  import opened Options
  import opened Words
  import opened Hlc

  /** One call on one node's clock. A receipt names the earlier event whose stamp it carries, and the
      bound it is checked against when it goes through `observe_bounded`. */
  datatype Event =
    | Local(node: nat, physical: nat)
    | Receive(node: nat, physical: nat, message: nat, maxSkew: Option<nat>)

  type Run = seq<Event>

  /** The clock of `n` after the first `k` events. */
  ghost function ClockAt(run: Run, k: nat, n: nat): Stamp
    requires k <= |run|
    decreases k, 0
  {
    if k == 0 then Epoch(n)
    else if run[k - 1].node == n && Accepted(run, k - 1) then StampOf(run, k - 1)
    else ClockAt(run, k - 1, n)
  }

  /** Whether event `k` moves its clock: a receipt does when its message is an earlier event that was
      itself stamped and the stamp is within the bound. */
  ghost predicate Accepted(run: Run, k: nat)
    requires k < |run|
    decreases k, 2
  {
    match run[k]
    case Local(_, _) => true
    case Receive(_, physical, message, maxSkew) =>
      && message < k
      && Accepted(run, message)
      && (maxSkew.Some? ==> !ExceedsSkew(physical, StampOf(run, message).wallMs, maxSkew.value))
  }

  /** The stamp event `k` returns. */
  ghost function StampOf(run: Run, k: nat): Stamp
    requires k < |run|
    requires Accepted(run, k)
    decreases k, 3
  {
    var e := run[k];
    var last := ClockAt(run, k, e.node);
    match e
    case Local(n, physical) => Tick(last, n, physical)
    case Receive(n, physical, message, _) => Merge(last, n, physical, StampOf(run, message))
  }

  // ----- causality

  /** `j` directly follows `i`: later on the same node, or the receipt of `i`'s stamp. */
  ghost predicate Follows(run: Run, i: nat, j: nat) {
    && i < j < |run|
    && Accepted(run, i) && Accepted(run, j)
    && (run[i].node == run[j].node || (run[j].Receive? && run[j].message == i))
  }

  /** Happens-before: the transitive closure of `Follows`. */
  ghost predicate Before(run: Run, i: nat, j: nat)
    decreases j
  {
    Follows(run, i, j) || exists m: nat :: m < j && Before(run, i, m) && Follows(run, m, j)
  }

  lemma BeforeIsEarlier(run: Run, i: nat, j: nat)
    requires Before(run, i, j)
    ensures i < j < |run| && Accepted(run, i) && Accepted(run, j)
    decreases j
  {
    if !Follows(run, i, j) {
      var m: nat :| m < j && Before(run, i, m) && Follows(run, m, j);
      BeforeIsEarlier(run, i, m);
    }
  }

  /** A node's clock never falls behind a stamp the node has returned. */
  lemma {:induction false} ClockKeepsUp(run: Run, i: nat, k: nat)
    requires i < k <= |run| && Accepted(run, i)
    ensures AtMost(StampOf(run, i), ClockAt(run, k, run[i].node))
    decreases k
  {
    if i < k - 1 {
      ClockKeepsUp(run, i, k - 1);
    }
  }

  lemma FollowsIsLess(run: Run, i: nat, j: nat)
    requires Follows(run, i, j)
    ensures Less(StampOf(run, i), StampOf(run, j))
  {
    if run[i].node == run[j].node {
      ClockKeepsUp(run, i, j);
    }
  }

  /** Causality: in every run an event is stamped after everything that happened before it. */
  lemma {:induction false} BeforeIsLess(run: Run, i: nat, j: nat)
    requires Before(run, i, j)
    ensures i < j < |run| && Accepted(run, i) && Accepted(run, j)
    ensures Less(StampOf(run, i), StampOf(run, j))
    decreases j
  {
    BeforeIsEarlier(run, i, j);
    if Follows(run, i, j) {
      FollowsIsLess(run, i, j);
    } else {
      var m: nat :| m < j && Before(run, i, m) && Follows(run, m, j);
      BeforeIsLess(run, i, m);
      FollowsIsLess(run, m, j);
    }
  }

  /** No two events of a run share a stamp. */
  lemma StampsAreUnique(run: Run, i: nat, j: nat)
    requires i < j < |run| && Accepted(run, i) && Accepted(run, j)
    ensures StampOf(run, i) != StampOf(run, j)
  {
    if run[i].node == run[j].node {
      FollowsIsLess(run, i, j);
    }
  }

  /** So stamps put the events of a run in one strict order, which causality never contradicts. */
  lemma EventsAreOrdered(run: Run, i: nat, j: nat)
    requires i < |run| && j < |run| && i != j && Accepted(run, i) && Accepted(run, j)
    ensures Less(StampOf(run, i), StampOf(run, j)) != Less(StampOf(run, j), StampOf(run, i))
    ensures Before(run, i, j) ==> !Less(StampOf(run, j), StampOf(run, i))
  {
    hide StampOf, Accepted, Before;
    if i < j {
      StampsAreUnique(run, i, j);
    } else {
      StampsAreUnique(run, j, i);
    }
    if Before(run, i, j) {
      BeforeIsLess(run, i, j);
    }
  }

  // ----- wall time

  /** Everything that happened before event `j`, and `j` itself. */
  ghost function Past(run: Run, j: nat): set<nat>
    requires j < |run|
  {
    set i | 0 <= i <= j && (i == j || Before(run, i, j))
  }

  lemma PastGrows(run: Run, i: nat, j: nat)
    requires Follows(run, i, j)
    ensures Past(run, i) <= Past(run, j) && i in Past(run, j) && j !in Past(run, i)
  {}

  /** The event a node's clock stands at, if it has moved. */
  lemma {:induction false} ClockStandsAt(run: Run, k: nat, n: nat) returns (at: Option<nat>)
    requires k <= |run|
    ensures at.None? ==> ClockAt(run, k, n) == Epoch(n)
    ensures at.Some? ==> at.value < k && run[at.value].node == n && Accepted(run, at.value)
                         && ClockAt(run, k, n) == StampOf(run, at.value)
    ensures at.None? ==> forall i :: 0 <= i < k && run[i].node == n ==> !Accepted(run, i)
    ensures at.Some? ==> forall i :: at.value < i < k && run[i].node == n ==> !Accepted(run, i)
    decreases k
  {
    if k == 0 {
      at := None;
    } else if run[k - 1].node == n && Accepted(run, k - 1) {
      at := Some(k - 1);
    } else {
      at := ClockStandsAt(run, k - 1, n);
    }
  }

  /** What can have caused event `j`: itself, the pasts of the event its clock stood at and of the
      event it received. */
  lemma PastSplits(run: Run, j: nat, at: Option<nat>, i: nat)
    requires j < |run| && Accepted(run, j) && i in Past(run, j) && i != j
    requires at.Some? ==> at.value < j && run[at.value].node == run[j].node && Accepted(run, at.value)
    requires forall m :: 0 <= m < j && run[m].node == run[j].node && Accepted(run, m) ==> at.Some? && m <= at.value
    ensures (at.Some? && i in Past(run, at.value)) || (run[j].Receive? && i in Past(run, run[j].message))
  {
    var m: nat :| m < j && (m == i || Before(run, i, m)) && Follows(run, m, j);
    assert i in Past(run, m) by {
      if m != i {
        BeforeIsEarlier(run, i, m);
      }
    }
    if run[m].node == run[j].node && m != at.value {
      PastGrows(run, m, at.value);
    }
  }

  /** `wall` is the highest physical reading among the events of `s`. */
  ghost predicate IsMaxReading(run: Run, s: set<nat>, wall: nat)
    requires forall i :: i in s ==> i < |run|
  {
    && (exists i :: i in s && run[i].physical == wall)
    && (forall i :: i in s ==> run[i].physical <= wall)
  }

  /** Wall time is exact: in every run a stamp's wall time is the highest physical reading over its
      causal past, itself included. A refused stamp is in no causal past and contributes nothing. */
  lemma {:induction false} WallIsMaxReading(run: Run, j: nat)
    requires j < |run| && Accepted(run, j)
    ensures IsMaxReading(run, Past(run, j), StampOf(run, j).wallMs)
    decreases j
  {
    var at := ClockStandsAt(run, j, run[j].node);
    assert j in Past(run, j);
    if at.Some? {
      WallIsMaxReading(run, at.value);
      PastGrows(run, at.value, j);
    }
    if run[j].Receive? {
      WallIsMaxReading(run, run[j].message);
      PastGrows(run, run[j].message, j);
    }
    forall i | i in Past(run, j) && i != j ensures run[i].physical <= StampOf(run, j).wallMs {
      PastSplits(run, j, at, i);
    }
  }

  // ----- the logical counter

  /** The events of `j`'s causal past stamped with the same wall time as `j`. */
  ghost function SameWall(run: Run, j: nat): set<nat>
    requires j < |run| && Accepted(run, j)
  {
    set i | i in Past(run, j) && Accepted(run, i) && StampOf(run, i).wallMs == StampOf(run, j).wallMs
  }

  lemma SameWallGrows(run: Run, i: nat, j: nat)
    requires Follows(run, i, j) && StampOf(run, i).wallMs == StampOf(run, j).wallMs
    ensures |SameWall(run, i)| + 1 <= |SameWall(run, j)|
  {
    PastGrows(run, i, j);
    assert j in SameWall(run, j) && j !in SameWall(run, i);
    SubsetSize(SameWall(run, i) + {j}, SameWall(run, j));
  }

  lemma {:induction false} SubsetSize(a: set<nat>, b: set<nat>)
    requires a <= b
    ensures |a| <= |b|
  {
    if a != {} {
      var x :| x in a;
      SubsetSize(a - {x}, b - {x});
    }
  }

  /** The logical counter counts causes: it is at most the number of events in the stamp's causal
      past that share its wall time, itself not counted, so it is 0 where there are none. At wall
      time 0, where a clock starts, the event itself counts too. */
  lemma {:induction false} LogicalCountsCauses(run: Run, j: nat)
    requires j < |run| && Accepted(run, j)
    ensures StampOf(run, j).logical + (if StampOf(run, j).wallMs == 0 then 0 else 1) <= |SameWall(run, j)|
    decreases j
  {
    var at := ClockStandsAt(run, j, run[j].node);
    var s := StampOf(run, j);
    assert j in SameWall(run, j);
    SubsetSize({j}, SameWall(run, j));
    if at.Some? {
      LogicalCountsCauses(run, at.value);
      if StampOf(run, at.value).wallMs == s.wallMs {
        SameWallGrows(run, at.value, j);
      }
    }
    if run[j].Receive? {
      var m := run[j].message;
      LogicalCountsCauses(run, m);
      if StampOf(run, m).wallMs == s.wallMs {
        SameWallGrows(run, m, j);
      }
    }
  }

  lemma {:induction false} InitialSegmentSize(s: set<nat>, n: nat)
    requires forall i :: i in s ==> i < n
    ensures |s| <= n
  {
    if n > 0 {
      InitialSegmentSize(s - {n - 1}, n - 1);
    }
  }

  /** So the counter of event `j`, counting from 0, is at most `j + 1`. */
  lemma LogicalIsBounded(run: Run, j: nat)
    requires j < |run| && Accepted(run, j)
    ensures StampOf(run, j).logical <= j + 1
  {
    LogicalCountsCauses(run, j);
    InitialSegmentSize(SameWall(run, j), j + 1);
  }

  /** Events of one wall time, each directly following the one before it. */
  ghost predicate IsChain(run: Run, c: seq<nat>) {
    && c != []
    && (forall k :: 0 <= k < |c| ==> c[k] < |run| && Accepted(run, c[k]))
    && (forall k :: 0 < k < |c| ==>
          Follows(run, c[k - 1], c[k]) && StampOf(run, c[k - 1]).wallMs == StampOf(run, c[k]).wallMs)
  }

  /** A stamp's counter, as the number of events it stands for. */
  ghost function Height(run: Run, j: nat): nat
    requires j < |run| && Accepted(run, j)
  {
    StampOf(run, j).logical + if StampOf(run, j).wallMs == 0 then 0 else 1
  }

  /** The first event of a wall time: at 0, where clocks start, the counter is 1 already. */
  lemma HeightIsPositive(run: Run, j: nat)
    requires j < |run| && Accepted(run, j)
    ensures Height(run, j) >= 1
  {
    if StampOf(run, j).wallMs == 0 {
      assert ClockAt(run, j, run[j].node).wallMs == 0;
    }
  }

  /** No causal chain of one wall time is longer than its last stamp's counter says. */
  lemma {:induction false} ChainFitsCounter(run: Run, c: seq<nat>)
    requires IsChain(run, c)
    ensures |c| <= Height(run, c[|c| - 1])
    decreases |c|
  {
    if |c| == 1 {
      HeightIsPositive(run, c[0]);
    } else {
      ChainFitsCounter(run, c[..|c| - 1]);
      FollowsRaises(run, c[|c| - 2], c[|c| - 1]);
    }
  }

  /** Directly following within one wall time raises the counter, whatever the node ids. */
  lemma FollowsRaises(run: Run, i: nat, j: nat)
    requires Follows(run, i, j) && StampOf(run, i).wallMs == StampOf(run, j).wallMs
    ensures StampOf(run, i).logical < StampOf(run, j).logical
  {
    if run[i].node == run[j].node {
      ClockKeepsUp(run, i, j);
    }
  }

  /** And some chain is exactly that long: the counter is the length of the longest one. */
  lemma {:induction false} CounterHasChain(run: Run, j: nat) returns (c: seq<nat>)
    requires j < |run| && Accepted(run, j)
    ensures IsChain(run, c) && c[|c| - 1] == j && |c| == Height(run, j)
    decreases j
  {
    var prev := CounterCameFrom(run, j);
    if prev.Some? {
      c := CounterHasChain(run, prev.value);
      ChainExtends(run, c, j);
      c := c + [j];
    } else {
      c := [j];
    }
  }

  /** The event whose counter `j`'s is one more than, unless `j`'s starts afresh. */
  lemma CounterCameFrom(run: Run, j: nat) returns (prev: Option<nat>)
    requires j < |run| && Accepted(run, j)
    ensures prev.Some? ==> Follows(run, prev.value, j) && StampOf(run, prev.value).wallMs == StampOf(run, j).wallMs
                           && StampOf(run, prev.value).logical + 1 == StampOf(run, j).logical
    ensures prev.None? ==> Height(run, j) == 1
  {
    var at := ClockStandsAt(run, j, run[j].node);
    var s := StampOf(run, j);
    if at.Some? && StampOf(run, at.value).wallMs == s.wallMs && StampOf(run, at.value).logical + 1 == s.logical {
      prev := at;
    } else if run[j].Receive? && StampOf(run, run[j].message).wallMs == s.wallMs
              && StampOf(run, run[j].message).logical + 1 == s.logical {
      prev := Some(run[j].message);
    } else {
      prev := None;
    }
  }

  lemma ChainExtends(run: Run, c: seq<nat>, j: nat)
    requires IsChain(run, c) && Follows(run, c[|c| - 1], j)
    requires StampOf(run, c[|c| - 1]).wallMs == StampOf(run, j).wallMs
    ensures IsChain(run, c + [j])
  {}

  // ----- skew

  /** The highest physical reading node `n` was given in the first `k` events, refused ones included. */
  ghost function MaxReading(run: Run, k: nat, n: nat): nat
    requires k <= |run|
  {
    if k == 0 then 0
    else if run[k - 1].node == n then Max(run[k - 1].physical, MaxReading(run, k - 1, n))
    else MaxReading(run, k - 1, n)
  }

  /** Every stamp `n` is offered goes through a bound of at most `skew`. */
  ghost predicate Bounded(run: Run, n: nat, skew: nat) {
    forall i :: 0 <= i < |run| && run[i].node == n && run[i].Receive? ==>
      run[i].maxSkew.Some? && run[i].maxSkew.value <= skew
  }

  /** Physical readings are 64-bit. */
  ghost predicate ReadingsFit(run: Run) {
    forall i :: 0 <= i < |run| ==> run[i].physical < 0x1_0000_0000_0000_0000
  }

  /** What a bounded receipt accepts: exactly the stamps of accepted earlier events that are no more
      than the bound ahead of the reading, in unbounded arithmetic. */
  lemma AcceptedExactly(run: Run, k: nat)
    requires k < |run| && run[k].Receive? && ReadingsFit(run)
    ensures var m := run[k].message;
            Accepted(run, k)
            <==> && m < k && Accepted(run, m)
                 && (run[k].maxSkew.Some? ==> StampOf(run, m).wallMs <= run[k].physical + run[k].maxSkew.value)
  {
    var m := run[k].message;
    if m < k && Accepted(run, m) {
      WallIsMaxReading(run, m);
      var i :| i in Past(run, m) && run[i].physical == StampOf(run, m).wallMs;
    }
  }

  /** Skew containment: however fast every other clock runs, a bounded node's clock stays within the
      bound of the highest reading that node was ever given. */
  lemma {:induction false} SkewIsContained(run: Run, k: nat, n: nat, skew: nat)
    requires k <= |run| && Bounded(run, n, skew) && ReadingsFit(run)
    ensures ClockAt(run, k, n).wallMs <= SaturatingAdd(MaxReading(run, k, n), skew)
    decreases k
  {
    if k > 0 {
      SkewIsContained(run, k - 1, n, skew);
    }
  }

  /** So its lead over any reading not below that highest one is at most the bound. */
  lemma LeadIsBounded(run: Run, k: nat, n: nat, skew: nat, physical: nat)
    requires k <= |run| && Bounded(run, n, skew) && ReadingsFit(run)
    requires physical >= MaxReading(run, k, n)
    ensures Lead(ClockAt(run, k, n), physical) <= skew
  {
    SkewIsContained(run, k, n, skew);
  }
}
