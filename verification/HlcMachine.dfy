/** The same network with the 32-bit logical counter of the code, which wraps on overflow. */
module HlcMachine {
  import opened Words
  import opened Hlc
  import opened HlcNetwork

  /** The stamp as a 32-bit counter holds it after an increment. */
  function Narrow(s: Stamp): Stamp {
    if s.logical > U32_MAX then s.(logical := s.logical - (U32_MAX + 1)) else s
  }

  ghost function NarrowClockAt(run: Run, k: nat, n: nat): Stamp
    requires k <= |run|
    decreases k, 0
  {
    if k == 0 then Epoch(n)
    else if run[k - 1].node == n && NarrowAccepted(run, k - 1) then NarrowStampOf(run, k - 1)
    else NarrowClockAt(run, k - 1, n)
  }

  ghost predicate NarrowAccepted(run: Run, k: nat)
    requires k < |run|
    decreases k, 2
  {
    match run[k]
    case Local(_, _) => true
    case Receive(_, physical, message, maxSkew) =>
      && message < k
      && NarrowAccepted(run, message)
      && (maxSkew.Some? ==> !ExceedsSkew(physical, NarrowStampOf(run, message).wallMs, maxSkew.value))
  }

  ghost function NarrowStampOf(run: Run, k: nat): Stamp
    requires k < |run|
    requires NarrowAccepted(run, k)
    decreases k, 3
  {
    var e := run[k];
    var last := NarrowClockAt(run, k, e.node);
    match e
    case Local(n, physical) => Narrow(Tick(last, n, physical))
    case Receive(n, physical, message, _) => Narrow(Merge(last, n, physical, NarrowStampOf(run, message)))
  }

  /** The 32-bit clocks return the stamps of unbounded ones and refuse the same messages, so every
      property of the network holds of them. */
  ghost predicate Exact(run: Run) {
    forall k :: 0 <= k < |run| ==>
      && (NarrowAccepted(run, k) <==> Accepted(run, k))
      && (Accepted(run, k) ==> NarrowStampOf(run, k) == StampOf(run, k))
  }

  ghost predicate CountersFit(run: Run) {
    forall k :: 0 <= k < |run| && Accepted(run, k) ==> StampOf(run, k).logical < 0x1_0000_0000
  }

  lemma {:induction false} FitsSoExact(run: Run, k: nat)
    requires CountersFit(run) && k < |run|
    ensures NarrowAccepted(run, k) <==> Accepted(run, k)
    ensures Accepted(run, k) ==> NarrowStampOf(run, k) == StampOf(run, k)
    decreases k, 1
  {
    FitsSoClockExact(run, k, run[k].node);
    if run[k].Receive? && run[k].message < k {
      FitsSoExact(run, run[k].message);
    }
  }

  lemma {:induction false} FitsSoClockExact(run: Run, k: nat, n: nat)
    requires CountersFit(run) && k <= |run|
    ensures NarrowClockAt(run, k, n) == ClockAt(run, k, n)
    decreases k, 0
  {
    if k > 0 {
      FitsSoExact(run, k - 1);
      FitsSoClockExact(run, k - 1, n);
    }
  }

  /** A wrapping counter stays in 32 bits, whatever happens. */
  lemma {:induction false} NarrowFits(run: Run, k: nat)
    requires k < |run| && NarrowAccepted(run, k)
    ensures NarrowStampOf(run, k).logical <= U32_MAX
    decreases k, 1
  {
    NarrowClockFits(run, k, run[k].node);
    if run[k].Receive? {
      NarrowFits(run, run[k].message);
    }
  }

  lemma {:induction false} NarrowClockFits(run: Run, k: nat, n: nat)
    requires k <= |run|
    ensures NarrowClockAt(run, k, n).logical <= U32_MAX
    decreases k, 0
  {
    if k > 0 {
      NarrowClockFits(run, k - 1, n);
      if NarrowAccepted(run, k - 1) {
        NarrowFits(run, k - 1);
      }
    }
  }

  /** 32 bits are enough exactly when every unbounded counter fits them. */
  lemma NarrowIsExact(run: Run)
    ensures Exact(run) <==> CountersFit(run)
  {
    if Exact(run) {
      forall k | 0 <= k < |run| && Accepted(run, k) ensures StampOf(run, k).logical <= U32_MAX {
        NarrowFits(run, k);
      }
    }
    if CountersFit(run) {
      forall k | 0 <= k < |run|
        ensures NarrowAccepted(run, k) <==> Accepted(run, k)
        ensures Accepted(run, k) ==> NarrowStampOf(run, k) == StampOf(run, k)
      {
        FitsSoExact(run, k);
      }
    }
  }

  /** How many events of one wall time a 32-bit counter can tell apart along a chain: it starts at 0,
      except at wall time 0, where a clock's first event is 1 already. */
  ghost predicate Fits(run: Run, c: seq<nat>)
    requires IsChain(run, c)
  {
    |c| <= 0x1_0000_0000 - if StampOf(run, c[|c| - 1]).wallMs == 0 then 1 else 0
  }

  /** In causal terms: exactly when no causal chain within one wall time is longer than 2^32 events,
      or 2^32 - 1 at wall time 0. */
  lemma ExactUnlessLongChain(run: Run)
    ensures Exact(run) <==> forall c :: IsChain(run, c) ==> Fits(run, c)
  {
    NarrowIsExact(run);
    if CountersFit(run) {
      forall c | IsChain(run, c) ensures Fits(run, c) {
        ChainFitsCounter(run, c);
      }
    }
    if forall c :: IsChain(run, c) ==> Fits(run, c) {
      forall k | 0 <= k < |run| && Accepted(run, k) ensures StampOf(run, k).logical <= U32_MAX {
        var c := CounterHasChain(run, k);
        assert Fits(run, c);
      }
    }
  }

  /** In particular on every run of fewer than 2^32 events, whatever the clocks read. */
  lemma ShortRunIsExact(run: Run)
    requires |run| < 0x1_0000_0000
    ensures Exact(run)
  {
    forall k | 0 <= k < |run| && Accepted(run, k) ensures StampOf(run, k).logical <= U32_MAX {
      LogicalIsBounded(run, k);
    }
    NarrowIsExact(run);
  }

  /** A node stamping local events against a stopped physical clock. */
  function Stalled(n: nat): Run { seq(n, _ => Local(0, 0)) }

  lemma {:induction false} StalledNarrow(n: nat, k: nat)
    requires k < n && k < U32_MAX
    ensures NarrowStampOf(Stalled(n), k) == Stamp(0, k + 1, 0)
  {
    var run := Stalled(n);
    if k > 0 {
      StalledNarrow(n, k - 1);
      assert NarrowClockAt(run, k, 0) == NarrowStampOf(run, k - 1);
    } else {
      assert NarrowClockAt(run, 0, 0) == Epoch(0);
    }
  }

  /** That bound is tight: against a stopped clock event number 2^32 wraps the
      counter, and its stamp falls below the one before it. */
  lemma NarrowBreaksAt2To32()
    ensures var run := Stalled(0x1_0000_0000);
            && Before(run, U32_MAX - 1, U32_MAX)
            && NarrowAccepted(run, U32_MAX - 1) && NarrowAccepted(run, U32_MAX)
            && Less(NarrowStampOf(run, U32_MAX), NarrowStampOf(run, U32_MAX - 1))
  {
    StalledNarrow(U32_MAX + 1, U32_MAX - 1);
  }
}
