/** The hand-off a leaving node runs: one time budget shared between groups of parts, and the rounds
    run against one co-owner inside its share. Time is in whole nanoseconds. */
module HandOff {
  import opened Words

  type Part = nat

  /** Completed rounds run against each co-owner; a failed one does not count. */
  const MAX_ROUNDS: nat := 3

  // ----- shares

  /** An equal share of the time left before `overall`, for one of `groupsLeft` groups. */
  function GroupDeadline(now: nat, overall: nat, groupsLeft: nat): (deadline: nat)
    ensures deadline >= now
    ensures now <= overall ==> deadline <= overall
  {
    var remaining := if overall < now then 0 else overall - now;
    var atLeastOne := if groupsLeft == 0 then 1 else groupsLeft;
    var groups := if atLeastOne > U32_MAX then U32_MAX else atLeastOne;
    now + Div(remaining, groups)
  }

  /** Only the last group may use up the time left. */
  lemma ShareLeavesSome(rem: nat, m: nat)
    requires m >= 2 && rem > 0
    ensures Div(rem, m) < rem
  {}

  lemma LastShareIsAll(rem: nat)
    ensures Div(rem, 1) == rem
  {}

  /** A share is equal, to the nanosecond: `groupsLeft` of it fit in the time left, and of one
      nanosecond more do not. */
  lemma ShareIsEqual(now: nat, overall: nat, groupsLeft: nat)
    requires now <= overall && 0 < groupsLeft < 0x1_0000_0000
    ensures var share := GroupDeadline(now, overall, groupsLeft) - now;
            groupsLeft * share <= overall - now < groupsLeft * (share + 1)
  {
    DivMod(overall - now, groupsLeft);
    var share := Div(overall - now, groupsLeft);
    assert groupsLeft * (share + 1) == groupsLeft * share + groupsLeft;
  }

  /** At the edges: past the overall deadline there is no time to share, and the last group, or a count
      of none, gets all of it. */
  lemma ShareAtTheEdges(now: nat, overall: nat, groupsLeft: nat)
    ensures overall <= now ==> GroupDeadline(now, overall, groupsLeft) == now
    ensures now <= overall && groupsLeft <= 1 ==> GroupDeadline(now, overall, groupsLeft) == overall
  {
    if now <= overall {
      LastShareIsAll(overall - now);
    }
  }

  /** A group entitled to `q` gets at least `q`, and leaves at least `q` for each group after it. */
  lemma {:induction false} ShareIsFair(rem: nat, m: nat, q: nat)
    requires m > 0 && rem >= m * q
    ensures Div(rem, m) >= q
    ensures rem - Div(rem, m) >= (m - 1) * q
    decreases q
  {
    if q > 0 {
      assert m * q == m * (q - 1) + m;
      assert (m - 1) * q == (m - 1) * (q - 1) + (m - 1);
      ShareIsFair(rem - m, m, q - 1);
    }
  }

  /** When the groups of one hand-off start: each but the first when the one before it ends, which is
      any time up to its deadline. */
  ghost predicate Schedule(starts: seq<nat>, overall: nat) {
    && starts != [] && starts[0] <= overall
    && forall i :: 0 <= i < |starts| - 1 ==>
         starts[i] <= starts[i + 1] <= GroupDeadline(starts[i], overall, |starts| - i)
  }

  /** Each group is given at least an equal part of the whole budget. */
  ghost predicate AllFair(starts: seq<nat>, overall: nat)
    requires Schedule(starts, overall)
  {
    forall i :: 0 <= i < |starts| ==>
      GroupDeadline(starts[i], overall, |starts| - i) - starts[i] >= Div(overall - starts[0], |starts|)
  }

  lemma {:induction false} EnoughIsLeft(starts: seq<nat>, overall: nat, q: nat, i: nat)
    requires Schedule(starts, overall) && |starts| <= U32_MAX && i < |starts|
    requires overall - starts[0] >= |starts| * q
    ensures starts[i] <= overall && overall - starts[i] >= (|starts| - i) * q
  {
    if i > 0 {
      EnoughIsLeft(starts, overall, q, i - 1);
      ShareIsFair(overall - starts[i - 1], |starts| - (i - 1), q);
    }
  }

  lemma FairIfCountFits(starts: seq<nat>, overall: nat)
    requires Schedule(starts, overall) && |starts| <= U32_MAX
    ensures AllFair(starts, overall)
  {
    var q := Div(overall - starts[0], |starts|);
    DivMod(overall - starts[0], |starts|);
    forall i | 0 <= i < |starts| ensures GroupDeadline(starts[i], overall, |starts| - i) - starts[i] >= q {
      EnoughIsLeft(starts, overall, q, i);
      ShareIsFair(overall - starts[i], |starts| - i, q);
    }
  }

  function Pow(b: nat, k: nat): nat { if k == 0 then 1 else b * Pow(b, k - 1) }

  lemma {:induction false} PowIsPositive(b: nat, k: nat)
    requires b > 0
    ensures Pow(b, k) > 0
  {
    if k > 0 {
      PowIsPositive(b, k - 1);
      assert b * Pow(b, k - 1) > 0;
    }
  }

  /** Dividing by `m` while more than `m` groups are left takes too much: after `j` such shares of a
      budget for `m + j` groups, each `m`-th of the rest is less than an equal part. */
  lemma {:induction false} RestFallsShort(m: nat, j: nat)
    requires m > 0
    ensures (m + j) * Pow(m - 1, j) <= Pow(m, j + 1)
    ensures j > 0 ==> (m + j) * Pow(m - 1, j) < Pow(m, j + 1)
  {
    PowIsPositive(m, j + 1);
    if j > 0 {
      RestFallsShort(m, j - 1);
      RestStep(m, j, Pow(m - 1, j - 1), Pow(m, j));
    }
  }

  lemma RestStep(m: nat, j: nat, p: nat, r: nat)
    requires m > 0 && j > 0 && (m + j - 1) * p <= r && m * r > 0
    ensures (m + j) * ((m - 1) * p) < m * r
  {
    assert (m + j) * ((m - 1) * p) == m * ((m + j - 1) * p) - j * p;
    MultiplyBoth(m, (m + j - 1) * p, r);
    assert p > 0 ==> j * p > 0;
  }

  lemma MultiplyBoth(m: nat, a: nat, b: nat)
    requires a <= b
    ensures m * a <= m * b
  {}

  /** What is left after `i` groups that each use a whole share, an `m`-th of what they find, of a
      budget of `n * m^(j + 1)`. */
  function Rest(n: nat, m: nat, j: nat, i: nat): nat
    requires m > 0 && i <= j
  {
    n * (Pow(m - 1, i) * Pow(m, j + 1 - i))
  }

  lemma RestShare(n: nat, m: nat, j: nat, i: nat)
    requires m > 0 && i <= j
    ensures Div(Rest(n, m, j, i), m) == n * (Pow(m - 1, i) * Pow(m, j - i))
    ensures i < j ==> Rest(n, m, j, i + 1) == Rest(n, m, j, i) - Div(Rest(n, m, j, i), m)
  {
    var p, r := Pow(m - 1, i), Pow(m, j - i);
    var share := n * (p * r);
    assert Rest(n, m, j, i) == share * m by {
      assert Pow(m, j + 1 - i) == m * r;
      assert n * (p * (m * r)) == n * (p * r) * m;
    }
    DivOf(share, m, 0);
    if i < j {
      assert n * (((m - 1) * p) * r) == n * (p * r) * m - n * (p * r);
    }
  }

  lemma {:induction false} RestFalls(n: nat, m: nat, j: nat, i: nat)
    requires m > 0 && i <= j
    ensures Rest(n, m, j, i) <= Rest(n, m, j, 0)
  {
    if i > 0 {
      RestFalls(n, m, j, i - 1);
      RestShare(n, m, j, i - 1);
    }
  }

  /** Of more than 2^32 - 1 groups, those that start while more than that are left divide by too
      little: if each uses its whole share, the next is given less than an equal part. */
  lemma UnfairIfCountDoesNotFit(n: nat) returns (starts: seq<nat>, overall: nat)
    requires n > U32_MAX
    ensures |starts| == n && Schedule(starts, overall) && !AllFair(starts, overall)
  {
    hide Pow, Rest, Div;
    var m := U32_MAX;
    var j := n - m;
    overall := Rest(n, m, j, 0);
    forall i | 0 <= i <= j ensures Rest(n, m, j, i) <= overall {
      RestFalls(n, m, j, i);
    }
    starts := seq(n, i requires 0 <= i < n => if i <= j then overall - Rest(n, m, j, i) else overall - Rest(n, m, j, j));
    forall i | 0 <= i < n - 1 ensures starts[i] <= starts[i + 1] <= GroupDeadline(starts[i], overall, n - i) {
      if i < j {
        RestShare(n, m, j, i);
        assert GroupDeadline(starts[i], overall, n - i) == starts[i] + Div(Rest(n, m, j, i), m);
      }
    }
    RestShare(n, m, j, j);
    WholeBudget(n, m, j);
    RestFallsShort(m, j);
    assert GroupDeadline(starts[j], overall, n - j) == starts[j] + Div(Rest(n, m, j, j), m);
  }

  lemma WholeBudget(n: nat, m: nat, j: nat)
    requires m > 0 && n > 0
    ensures Div(Rest(n, m, j, 0), n) == Pow(m, j + 1)
    ensures n * (Pow(m - 1, j) * Pow(m, 0)) == n * Pow(m - 1, j)
  {
    assert Rest(n, m, j, 0) == Pow(m, j + 1) * n;
    DivOf(Pow(m, j + 1), n, 0);
  }

  /** Sharing is fair to a number of groups, whatever the budget and whenever each ends, exactly if
      the number fits 32 bits. */
  lemma FairExactlyIfCountFits(n: nat)
    requires n > 0
    ensures n < 0x1_0000_0000
            <==> forall starts, overall :: |starts| == n && Schedule(starts, overall) ==> AllFair(starts, overall)
  {
    hide Schedule, AllFair;
    if n <= U32_MAX {
      forall starts, overall | |starts| == n && Schedule(starts, overall) ensures AllFair(starts, overall) {
        FairIfCountFits(starts, overall);
      }
    } else {
      var starts, overall := UnfairIfCountDoesNotFit(n);
    }
  }

  // ----- the decision after a round

  datatype RoundEnd = RoundEnd(failed: bool, diverging: nat, completedRounds: nat, deadlinePassed: bool, peerLive: bool)

  datatype HandOffEnd = Matched | DeadlinePassed | PeerLeft | RoundsSpent

  datatype HandOffStep = RetryAfterBackoff | NextRound | Done(why: HandOffEnd)

  function Decide(end: RoundEnd): HandOffStep {
    if end.diverging == 0 then Done(Matched)
    else if end.deadlinePassed then Done(DeadlinePassed)
    else if !end.peerLive then Done(PeerLeft)
    else if end.failed then RetryAfterBackoff
    else if end.completedRounds >= MAX_ROUNDS then Done(RoundsSpent)
    else NextRound
  }

  // ----- one group

  /** How one round answered. */
  datatype Round = Round(failed: bool, matched: set<Part>)

  /** One turn of the loop as the world plays it: how long the round takes and what it answers,
      whether the co-owner is live if asked, and the time lost between the awaits. */
  datatype Turn = Turn(took: nat, round: Round, live: bool, lag: nat, pause: nat, overslept: nat)

  /** How the world plays the turns against one co-owner: each by its number and the parts the round
      is run over. */
  type World = (nat, seq<Part>) -> Turn

  predicate Prompt(t: Turn) { t.lag == 0 && t.pause == 0 && t.overslept == 0 }

  /** No time is lost between the awaits: a timer ends its wait on time. */
  ghost predicate AllPrompt(world: World) { forall i: nat, asked: seq<Part> :: Prompt(world(i, asked)) }

  /** The parts not in `gone`, in order. */
  function Retain(parts: seq<Part>, gone: set<Part>): (r: seq<Part>)
    ensures |r| <= |parts|
    ensures forall p :: p in r <==> p in parts && p !in gone
  {
    if parts == [] then []
    else
      var init, p := parts[..|parts| - 1], parts[|parts| - 1];
      if p in gone then Retain(init, gone) else Retain(init, gone) + [p]
  }

  lemma {:induction false} RetainTwice(parts: seq<Part>, a: set<Part>, b: set<Part>)
    ensures Retain(Retain(parts, a), b) == Retain(parts, a + b)
  {
    if parts != [] {
      var init, p := parts[..|parts| - 1], parts[|parts| - 1];
      RetainTwice(init, a, b);
      if p !in a {
        assert (Retain(init, a) + [p])[..|Retain(init, a)|] == Retain(init, a);
      }
    }
  }

  lemma {:induction false} RetainAll(parts: seq<Part>)
    ensures Retain(parts, {}) == parts
  {
    if parts != [] {
      RetainAll(parts[..|parts| - 1]);
    }
  }

  // ----- what a run of rounds comes to, from the world alone

  /** The parts some completed round among the first `n` reported as matching. */
  function MatchedBy(world: World, parts: seq<Part>, n: nat): set<Part>
    decreases n, 0
  {
    if n == 0 then {}
    else
      var t := TurnAt(world, parts, n - 1);
      MatchedBy(world, parts, n - 1) + (if t.round.failed then {} else t.round.matched)
  }

  /** Turn `k`: its round runs over the parts not yet matched, in their order. */
  function TurnAt(world: World, parts: seq<Part>, k: nat): Turn
    decreases k, 1
  {
    world(k, Retain(parts, MatchedBy(world, parts, k)))
  }

  function Completed(world: World, parts: seq<Part>, n: nat): nat {
    if n == 0 then 0
    else Completed(world, parts, n - 1) + (if TurnAt(world, parts, n - 1).round.failed then 0 else 1)
  }

  /** The instant round `k` starts, if the loop gets there: the round before it has ended, and after a
      failed one the backoff has passed, or what was left of the share. */
  function RoundStart(world: World, parts: seq<Part>, start: nat, deadline: nat, backoff: nat, k: nat): nat {
    if k == 0 then start
    else
      var t := TurnAt(world, parts, k - 1);
      var over := RoundStart(world, parts, start, deadline, backoff, k - 1) + t.took + t.lag;
      if !t.round.failed then over
      else
        var asleep := over + t.pause;
        asleep + (if asleep + backoff <= deadline then backoff else if asleep < deadline then deadline - asleep else 0)
        + t.overslept
  }

  /** The instant round `k` is over. */
  function RoundOver(world: World, parts: seq<Part>, start: nat, deadline: nat, backoff: nat, k: nat): nat {
    RoundStart(world, parts, start, deadline, backoff, k) + TurnAt(world, parts, k).took + TurnAt(world, parts, k).lag
  }

  /** Round `k` starts within the share and ends by the deadline. */
  predicate Fits(world: World, parts: seq<Part>, start: nat, deadline: nat, backoff: nat, k: nat) {
    var at := RoundStart(world, parts, start, deadline, backoff, k);
    at < deadline && at + TurnAt(world, parts, k).took <= deadline
  }

  /** After round `k` there is reason to go on: parts diverge, there is time, and the co-owner of a
      failed round is live, or fewer than three rounds have completed. */
  predicate GoesOn(world: World, parts: seq<Part>, start: nat, deadline: nat, backoff: nat, k: nat) {
    && Retain(parts, MatchedBy(world, parts, k + 1)) != []
    && RoundOver(world, parts, start, deadline, backoff, k) < deadline
    && if TurnAt(world, parts, k).round.failed then TurnAt(world, parts, k).live
       else Completed(world, parts, k + 1) < 3
  }

  /** The loop gets to round `n`: there is something to do, each round before fits the share, and there
      is reason to go on after it. */
  ghost predicate GetsTo(world: World, parts: seq<Part>, start: nat, deadline: nat, backoff: nat, n: nat) {
    && (n > 0 ==> parts != [])
    && forall k: nat :: k < n ==>
         Fits(world, parts, start, deadline, backoff, k) && GoesOn(world, parts, start, deadline, backoff, k)
  }

  /** What the loop comes to: the parts still diverging, why and when it ended, and the number of its
      rounds. */
  datatype PeerRun = PeerRun(diverging: seq<Part>, ended: HandOffEnd, finish: nat, rounds: nat)

  /** The loop stopped before round `r.rounds`, for want of work or of time: that round would start past
      the deadline, or does not end by it and is dropped there. */
  ghost predicate StopsBefore(world: World, parts: seq<Part>, start: nat, deadline: nat, backoff: nat, r: PeerRun) {
    var at, t := RoundStart(world, parts, start, deadline, backoff, r.rounds), TurnAt(world, parts, r.rounds);
    && GetsTo(world, parts, start, deadline, backoff, r.rounds)
    && r.ended == DeadlinePassed
    && (|| (parts == [] && r.finish == at)
        || (parts != [] && at >= deadline && r.finish == at)
        || (parts != [] && at < deadline < at + t.took && r.finish == deadline + t.lag))
  }

  /** The loop stopped after its last round, which fits the share, for the reason it gives. */
  ghost predicate StopsAfter(world: World, parts: seq<Part>, start: nat, deadline: nat, backoff: nat, r: PeerRun) {
    var last := r.rounds - 1;
    && last >= 0 && parts != []
    && GetsTo(world, parts, start, deadline, backoff, last)
    && Fits(world, parts, start, deadline, backoff, last)
    && r.finish == RoundOver(world, parts, start, deadline, backoff, last)
    && match r.ended
       case Matched => r.diverging == []
       case DeadlinePassed => r.diverging != [] && r.finish >= deadline
       case PeerLeft =>
         r.diverging != [] && r.finish < deadline && TurnAt(world, parts, last).round.failed && !TurnAt(world, parts, last).live
       case RoundsSpent =>
         r.diverging != [] && r.finish < deadline && !TurnAt(world, parts, last).round.failed
         && Completed(world, parts, r.rounds) == 3
  }

  /** How the hand-off to one co-owner goes, whatever the world does. */
  ghost predicate Ran(world: World, parts: seq<Part>, start: nat, deadline: nat, backoff: nat, r: PeerRun) {
    && r.diverging == Retain(parts, MatchedBy(world, parts, r.rounds))
    && (StopsBefore(world, parts, start, deadline, backoff, r) || StopsAfter(world, parts, start, deadline, backoff, r))
  }

  /** No more than three rounds complete, on the way to any round. */
  lemma {:induction false} CompletedBound(world: World, parts: seq<Part>, start: nat, deadline: nat, backoff: nat, n: nat)
    requires GetsTo(world, parts, start, deadline, backoff, n)
    ensures Completed(world, parts, n) <= 2
    decreases n
  {
    hide TurnAt, MatchedBy, Retain, RoundStart;
    if n > 0 {
      CompletedBound(world, parts, start, deadline, backoff, n - 1);
      assert GoesOn(world, parts, start, deadline, backoff, n - 1);
    }
  }

  lemma StopsForGood(world: World, parts: seq<Part>, start: nat, deadline: nat, backoff: nat, r: PeerRun, n: nat)
    requires Ran(world, parts, start, deadline, backoff, r) && GetsTo(world, parts, start, deadline, backoff, n)
    ensures n <= r.rounds
    ensures n == r.rounds ==> !StopsAfter(world, parts, start, deadline, backoff, r)
    ensures n == r.rounds && parts != [] ==> !Fits(world, parts, start, deadline, backoff, n)
  {
    hide TurnAt, MatchedBy, Retain, RoundStart, Completed;
    if n > r.rounds {
      assert Fits(world, parts, start, deadline, backoff, r.rounds);
    }
    if n >= r.rounds > 0 {
      assert GoesOn(world, parts, start, deadline, backoff, r.rounds - 1);
    }
  }

  /** The world settles the run: no two differ. */
  lemma RanIsUnique(world: World, parts: seq<Part>, start: nat, deadline: nat, backoff: nat, r: PeerRun, s: PeerRun)
    requires Ran(world, parts, start, deadline, backoff, r) && Ran(world, parts, start, deadline, backoff, s)
    ensures r == s
  {
    hide TurnAt, MatchedBy, Retain, RoundStart, Completed, GoesOn, Fits;
    var a, b := r.rounds, s.rounds;
    if StopsBefore(world, parts, start, deadline, backoff, r) {
      StopsForGood(world, parts, start, deadline, backoff, s, a);
    } else {
      StopsForGood(world, parts, start, deadline, backoff, s, a - 1);
    }
    if StopsBefore(world, parts, start, deadline, backoff, s) {
      StopsForGood(world, parts, start, deadline, backoff, r, b);
    } else {
      StopsForGood(world, parts, start, deadline, backoff, r, b - 1);
    }
  }

  /** Rounds against one co-owner until its parts match, its share runs out, it leaves, or three
      rounds complete. `world` is any sequence of turns; the loop reads a prefix of it. */
  method HandOffWithPeer(world: World, parts: seq<Part>, start: nat, deadline: nat, backoff: nat)
    returns (diverging: seq<Part>, ended: HandOffEnd, finish: nat, ghost rounds: nat)
    requires backoff > 0
    ensures Ran(world, parts, start, deadline, backoff, PeerRun(diverging, ended, finish, rounds))
    ensures Completed(world, parts, rounds) <= 3
    ensures finish >= start
    ensures start <= deadline && AllPrompt(world) ==> finish <= deadline
    ensures parts != [] && start < deadline && start + world(0, parts).took <= deadline ==> rounds > 0
    ensures parts != [] && start < deadline < start + world(0, parts).took ==>
              finish == deadline + world(0, parts).lag && rounds == 0
  {
    hide Retain, MatchedBy, Completed, RoundStart, GetsTo, AllPrompt;
    diverging, ended, finish, rounds := parts, DeadlinePassed, start, 0;
    AtFirst(world, parts, start, deadline, backoff);
    var completed, k := 0, 0;
    while diverging != [] && finish < deadline
      invariant k == rounds && diverging == Retain(parts, MatchedBy(world, parts, k))
      invariant GetsTo(world, parts, start, deadline, backoff, k)
      invariant finish == RoundStart(world, parts, start, deadline, backoff, k)
      invariant completed == Completed(world, parts, k) < 3
      invariant ended == DeadlinePassed
      invariant diverging == [] ==> parts == []
      decreases deadline - finish, 3 - completed
    {
      var t := world(k, diverging);
      assert t == TurnAt(world, parts, k);
      if finish + t.took > deadline {
        // Still running at the deadline: dropped.
        finish := deadline + t.lag;
        break;
      }
      finish := finish + t.took + t.lag;
      OneMoreRound(world, parts, start, deadline, backoff, k);
      if !t.round.failed {
        completed := completed + 1;
        RetainTwice(parts, MatchedBy(world, parts, k), t.round.matched);
        diverging := Retain(diverging, t.round.matched);
      }
      rounds, k := rounds + 1, k + 1;
      var step := Decide(RoundEnd(t.round.failed, |diverging|, completed, finish >= deadline, !t.round.failed || t.live));
      match step
      case Done(why) =>
        ended := why;
        break;
      case NextRound =>
      case RetryAfterBackoff =>
        finish := finish + t.pause;
        var left := if deadline < finish then 0 else deadline - finish;
        finish := finish + (if backoff < left then backoff else left) + t.overslept;
    }
    RanFacts(world, parts, start, deadline, backoff, PeerRun(diverging, ended, finish, rounds));
  }

  /** What follows of any run: it takes no negative time, ends by the deadline if no time is lost, runs
      the first round if that fits the share, and else uses up the share. */
  lemma RanFacts(world: World, parts: seq<Part>, start: nat, deadline: nat, backoff: nat, r: PeerRun)
    requires Ran(world, parts, start, deadline, backoff, r)
    ensures Completed(world, parts, r.rounds) <= 3
    ensures r.finish >= start
    ensures start <= deadline && AllPrompt(world) ==> r.finish <= deadline
    ensures parts != [] && start < deadline && start + world(0, parts).took <= deadline ==> r.rounds > 0
    ensures parts != [] && start < deadline < start + world(0, parts).took ==>
              r.finish == deadline + world(0, parts).lag && r.rounds == 0
  {
    hide Retain, MatchedBy, RoundStart, Completed;
    AtFirst(world, parts, start, deadline, backoff);
    var n := if StopsBefore(world, parts, start, deadline, backoff, r) then r.rounds else r.rounds - 1;
    CompletedBound(world, parts, start, deadline, backoff, n);
    OneMoreRound(world, parts, start, deadline, backoff, n);
    StartsOnTime(world, parts, start, deadline, backoff, n);
    assert parts != [] && start < deadline && r.rounds > 0 ==> Fits(world, parts, start, deadline, backoff, 0);
    assert TurnAt(world, parts, 0) == world(0, parts);
  }

  lemma {:induction false} StartsOnTime(world: World, parts: seq<Part>, start: nat, deadline: nat, backoff: nat, n: nat)
    requires GetsTo(world, parts, start, deadline, backoff, n)
    ensures RoundStart(world, parts, start, deadline, backoff, n) >= start
    ensures start <= deadline && AllPrompt(world) ==> RoundStart(world, parts, start, deadline, backoff, n) <= deadline
    decreases n
  {
    hide Retain, MatchedBy, Completed;
    if n > 0 {
      StartsOnTime(world, parts, start, deadline, backoff, n - 1);
      assert Fits(world, parts, start, deadline, backoff, n - 1);
    }
  }

  lemma AtFirst(world: World, parts: seq<Part>, start: nat, deadline: nat, backoff: nat)
    ensures Retain(parts, MatchedBy(world, parts, 0)) == parts && Completed(world, parts, 0) == 0
    ensures RoundStart(world, parts, start, deadline, backoff, 0) == start
    ensures GetsTo(world, parts, start, deadline, backoff, 0)
  {
    RetainAll(parts);
  }

  lemma OneMoreRound(world: World, parts: seq<Part>, start: nat, deadline: nat, backoff: nat, k: nat)
    ensures var t := TurnAt(world, parts, k);
            && MatchedBy(world, parts, k + 1)
               == (if t.round.failed then MatchedBy(world, parts, k) else MatchedBy(world, parts, k) + t.round.matched)
            && Completed(world, parts, k + 1) == Completed(world, parts, k) + (if t.round.failed then 0 else 1)
            && RoundStart(world, parts, start, deadline, backoff, k + 1)
               == (var over := RoundOver(world, parts, start, deadline, backoff, k);
                   if !t.round.failed then over
                   else
                     var asleep := over + t.pause;
                     var left := if deadline < asleep then 0 else deadline - asleep;
                     asleep + (if backoff < left then backoff else left) + t.overslept)
    ensures GetsTo(world, parts, start, deadline, backoff, k) && parts != []
            && Fits(world, parts, start, deadline, backoff, k) && GoesOn(world, parts, start, deadline, backoff, k)
            ==> GetsTo(world, parts, start, deadline, backoff, k + 1)
  {
    hide Retain;
  }

  // ----- all groups

  /** What one group was given and came to. */
  datatype Share = Share(start: nat, deadline: nat, run: PeerRun) | Skipped

  /** The instant the groups of `shares` are through. */
  function Through(shares: seq<Share>, start: nat): nat {
    if shares == [] then start
    else
      var last := shares[|shares| - 1];
      if last.Skipped? then Through(shares[..|shares| - 1], start) else last.run.finish
  }

  /** How the groups go, one after another: a group whose turn comes at or past the overall deadline is
      skipped, and any other is handed its own parts, in a share of the time left. */
  ghost predicate Played(worlds: nat -> World, groups: seq<seq<Part>>, start: nat, overall: nat, backoff: nat,
                         shares: seq<Share>)
    requires |shares| <= |groups|
  {
    shares != [] ==>
      var g := |shares| - 1;
      var now, share := Through(shares[..g], start), shares[g];
      && Played(worlds, groups, start, overall, backoff, shares[..g])
      && if now >= overall then share == Skipped
         else && share.Share? && share.start == now && share.deadline == GroupDeadline(now, overall, |groups| - g)
              && Ran(worlds(g), groups[g], now, share.deadline, backoff, share.run)
  }

  lemma PlayedOneMore(worlds: nat -> World, groups: seq<seq<Part>>, start: nat, overall: nat, backoff: nat,
                      shares: seq<Share>, s: Share)
    requires |shares| < |groups| && Played(worlds, groups, start, overall, backoff, shares)
    requires var now, g := Through(shares, start), |shares|;
             if now >= overall then s == Skipped
             else && s.Share? && s.start == now && s.deadline == GroupDeadline(now, overall, |groups| - g)
                  && Ran(worlds(g), groups[g], now, s.deadline, backoff, s.run)
    ensures Played(worlds, groups, start, overall, backoff, shares + [s])
    ensures Through(shares + [s], start) == if s.Skipped? then Through(shares, start) else s.run.finish
  {
    hide Ran, GroupDeadline;
    assert (shares + [s])[..|shares|] == shares;
  }

  function CountSkipped(shares: seq<Share>): nat {
    if shares == [] then 0
    else CountSkipped(shares[..|shares| - 1]) + (if shares[|shares| - 1].Skipped? then 1 else 0)
  }

  ghost predicate AllOnTime(worlds: nat -> World) { forall g: nat :: AllPrompt(worlds(g)) }

  /** The time left when a group's turn comes is never nothing, and with a group count that fits 32
      bits covers `q` for it and for each group after it. */
  ghost predicate Covers(finish: nat, overall: nat, left: nat, fits: bool, q: nat) {
    && finish <= overall
    && (left > 0 ==> finish < overall)
    && (fits ==> left <= U32_MAX && overall - finish >= left * q)
  }

  lemma GroupTurn(now: nat, overall: nat, left: nat, fits: bool, q: nat, finish: nat)
    requires left > 0 && Covers(now, overall, left, fits, q)
    requires now <= finish <= GroupDeadline(now, overall, left)
    ensures fits ==> GroupDeadline(now, overall, left) - now >= q
    ensures left == 1 ==> GroupDeadline(now, overall, left) == overall
    ensures Covers(finish, overall, left - 1, fits, q)
  {
    var rem := overall - now;
    if fits {
      ShareIsFair(rem, left, q);
    }
    if left == 1 {
      LastShareIsAll(rem);
    } else {
      ShareLeavesSome(rem, if left > U32_MAX then U32_MAX else left);
    }
  }

  lemma StartCovers(start: nat, overall: nat, groups: nat, q: nat)
    requires start < overall && q == if groups == 0 then 0 else Div(overall - start, groups)
    ensures Covers(start, overall, groups, groups <= U32_MAX, q)
  {
    if groups > 0 {
      DivMod(overall - start, groups);
    }
  }

  lemma CoversTime(finish: nat, overall: nat, left: nat, fits: bool, q: nat)
    requires Covers(finish, overall, left, fits, q)
    ensures finish <= overall && (left > 0 ==> finish < overall)
  {}

  /** Every group in turn, each with its share of what is left of the budget. When no time is lost
      between the awaits, whatever each group does within its deadline: no group is skipped as long
      as there is any budget at all, each gets at least an equal part of the whole budget, and the
      last gets everything left. */
  method HandOffInShares(worlds: nat -> World, groups: seq<seq<Part>>, start: nat, overall: nat, backoff: nat)
    returns (skipped: nat, finish: nat, ghost shares: seq<Share>)
    requires backoff > 0
    ensures |shares| == |groups| && Played(worlds, groups, start, overall, backoff, shares)
    ensures finish == Through(shares, start)
    ensures skipped == CountSkipped(shares) && Within(shares, start, overall)
    ensures AllOnTime(worlds) ==> skipped == if start < overall then 0 else |groups|
    ensures AllOnTime(worlds) && start < overall && 0 < |groups| ==>
              shares[|groups| - 1].Share? && shares[|groups| - 1].deadline == overall
    ensures AllOnTime(worlds) && start < overall && 0 < |groups| < 0x1_0000_0000 ==>
              AllGet(shares, Div(overall - start, |groups|))
    ensures AllOnTime(worlds) && start <= overall ==> finish <= overall
  {
    hide Div, Covers, GroupDeadline, Ran, Played, Through, Completed, AllPrompt, Within, AllGet, CountSkipped;
    skipped, finish, shares := 0, start, [];
    ghost var onTime := AllOnTime(worlds) && start < overall;
    ghost var fits := |groups| <= U32_MAX;
    ghost var q := if start < overall && 0 < |groups| then Div(overall - start, |groups|) else 0;
    NoShares(start, overall, q);
    NonePlayed(worlds, groups, start, overall, backoff);
    if start < overall {
      StartCovers(start, overall, |groups|, q);
    }
    for g := 0 to |groups|
      invariant |shares| == g && Played(worlds, groups, start, overall, backoff, shares)
      invariant finish == Through(shares, start) >= start
      invariant skipped == CountSkipped(shares) && Within(shares, start, overall)
      invariant start >= overall ==> skipped == g && finish == start
      invariant onTime ==> skipped == 0 && Covers(finish, overall, |groups| - g, fits, q)
      invariant onTime && fits ==> AllGet(shares, q)
      invariant onTime && 0 < g == |groups| ==> shares[g - 1].Share? && shares[g - 1].deadline == overall
    {
      if onTime {
        CoversTime(finish, overall, |groups| - g, fits, q);
      }
      if finish >= overall {
        skipped := skipped + 1;
        OneMoreShare(shares, Skipped, start, overall, q);
        PlayedOneMore(worlds, groups, start, overall, backoff, shares, Skipped);
        shares := shares + [Skipped];
      } else {
        var now := finish;
        var deadline := GroupDeadline(now, overall, |groups| - g);
        var diverging, ended, end, rounds := HandOffWithPeer(worlds(g), groups[g], now, deadline, backoff);
        finish := end;
        ghost var share := Share(now, deadline, PeerRun(diverging, ended, end, rounds));
        if onTime {
          GroupTurn(now, overall, |groups| - g, fits, q, finish);
        }
        OneMoreShare(shares, share, start, overall, q);
        PlayedOneMore(worlds, groups, start, overall, backoff, shares, share);
        shares := shares + [share];
      }
    }
    if onTime {
      CoversTime(finish, overall, 0, fits, q);
    }
  }

  /** Every group that ran started before the overall deadline and was given one no later. */
  ghost predicate Within(shares: seq<Share>, start: nat, overall: nat) {
    forall g :: 0 <= g < |shares| && shares[g].Share? ==>
      start <= shares[g].start < overall && shares[g].start <= shares[g].deadline <= overall
  }

  /** Every group ran, with at least `q` to run in. */
  ghost predicate AllGet(shares: seq<Share>, q: nat) {
    forall g :: 0 <= g < |shares| ==> shares[g].Share? && shares[g].deadline - shares[g].start >= q
  }

  lemma NonePlayed(worlds: nat -> World, groups: seq<seq<Part>>, start: nat, overall: nat, backoff: nat)
    ensures Played(worlds, groups, start, overall, backoff, []) && Through([], start) == start
  {}

  lemma NoShares(start: nat, overall: nat, q: nat)
    ensures CountSkipped([]) == 0 && Within([], start, overall) && AllGet([], q)
  {}

  lemma OneMoreShare(shares: seq<Share>, s: Share, start: nat, overall: nat, q: nat)
    ensures CountSkipped(shares + [s]) == CountSkipped(shares) + if s.Skipped? then 1 else 0
    ensures Within(shares, start, overall)
            && (s.Share? ==> start <= s.start < overall && s.start <= s.deadline <= overall)
            ==> Within(shares + [s], start, overall)
    ensures AllGet(shares, q) && s.Share? && s.deadline - s.start >= q ==> AllGet(shares + [s], q)
  {
    assert (shares + [s])[..|shares|] == shares;
  }
}
