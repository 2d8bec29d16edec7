/** The hybrid logical clock: stamps, their order, and one node's clock. */
module Hlc {
  import opened Options
  import opened Words

  /** A version stamp, ordered by wall time, then logical counter, then node. */
  datatype Stamp = Stamp(wallMs: nat, logical: nat, node: nat)

  predicate Less(a: Stamp, b: Stamp) {
    || a.wallMs < b.wallMs
    || (a.wallMs == b.wallMs && a.logical < b.logical)
    || (a.wallMs == b.wallMs && a.logical == b.logical && a.node < b.node)
  }

  predicate AtMost(a: Stamp, b: Stamp) { a == b || Less(a, b) }

  function Max(a: nat, b: nat): nat { if a < b then b else a }

  function SaturatingAdd(a: nat, b: nat): nat { if a + b > U64_MAX then U64_MAX else a + b }

  function SaturatingSub(a: nat, b: nat): nat { if a < b then 0 else a - b }

  /** How far a stamp runs ahead of a physical reading. */
  function Lead(last: Stamp, physical: nat): (lead: nat)
    ensures physical <= last.wallMs ==> physical + lead == last.wallMs
    ensures last.wallMs <= physical ==> lead == 0
  {
    SaturatingSub(last.wallMs, physical)
  }

  function Epoch(node: nat): Stamp { Stamp(0, 0, node) }

  /** The stamp of a local event. */
  function Tick(last: Stamp, node: nat, physical: nat): Stamp {
    var wall := Max(physical, last.wallMs);
    Stamp(wall, if wall == last.wallMs then last.logical + 1 else 0, node)
  }

  /** The stamp of merging an observed one. */
  function Merge(last: Stamp, node: nat, physical: nat, remote: Stamp): Stamp {
    var wall := Max(Max(physical, last.wallMs), remote.wallMs);
    Stamp(wall,
          if wall == last.wallMs && wall == remote.wallMs then Max(last.logical, remote.logical) + 1
          else if wall == last.wallMs then last.logical + 1
          else if wall == remote.wallMs then remote.logical + 1
          else 0,
          node)
  }

  predicate ExceedsSkew(physical: nat, wall: nat, maxSkew: nat) {
    wall > SaturatingAdd(physical, maxSkew)
  }

  /** A node's clock. Callers serialise access to it. The counter is unbounded here; `HlcMachine`
      shows when a 32-bit one gives the same stamps. */
  class HlcClock {
    const node: nat
    var last: Stamp

    constructor (node: nat)
      ensures this.node == node && last == Epoch(node)
    {
      this.node := node;
      last := Epoch(node);
    }

    method Now(physical: nat) returns (stamp: Stamp)
      modifies this
      ensures stamp == last == Tick(old(last), node, physical)
      ensures Less(old(last), stamp) && stamp.wallMs >= physical
    {
      var wall := Max(physical, last.wallMs);
      var logical := if wall == last.wallMs then last.logical + 1 else 0;
      last := Stamp(wall, logical, node);
      stamp := last;
    }

    method Observe(physical: nat, remote: Stamp) returns (stamp: Stamp)
      modifies this
      ensures stamp == last == Merge(old(last), node, physical, remote)
      ensures Less(old(last), stamp) && Less(remote, stamp) && stamp.wallMs >= physical
    {
      var wall := Max(Max(physical, last.wallMs), remote.wallMs);
      var logical;
      if wall == last.wallMs && wall == remote.wallMs {
        logical := Max(last.logical, remote.logical) + 1;
      } else if wall == last.wallMs {
        logical := last.logical + 1;
      } else if wall == remote.wallMs {
        logical := remote.logical + 1;
      } else {
        logical := 0;
      }
      last := Stamp(wall, logical, node);
      stamp := last;
    }

    /** Merges a stamp no more than `maxSkew` ahead, and refuses one further ahead untouched. */
    method ObserveBounded(physical: nat, remote: Stamp, maxSkew: nat) returns (stamp: Option<Stamp>)
      modifies this
      ensures stamp.None? <==> ExceedsSkew(physical, remote.wallMs, maxSkew)
      ensures remote.wallMs < 0x1_0000_0000_0000_0000 ==> (stamp.Some? <==> remote.wallMs <= physical + maxSkew)
      ensures stamp.None? ==> last == old(last)
      ensures stamp.Some? ==> stamp.value == last == Merge(old(last), node, physical, remote)
      ensures stamp.Some? ==> Less(old(last), last) && Less(remote, last)
    {
      if ExceedsSkew(physical, remote.wallMs, maxSkew) {
        return None;
      }
      var merged := Observe(physical, remote);
      stamp := Some(merged);
    }

    function LeadMs(physical: nat): nat
      reads this
    {
      Lead(last, physical)
    }
  }
}
