/** How many parts each eligible member owns: the counting loop behind an observer's ownership shares. */
module Ownership {
  import opened Options
  import opened Sequences

  type Node = nat

  const PARTS: nat := 65536

  predicate Ascending(s: seq<Node>) { forall i, j :: 0 <= i < j < |s| ==> s[i] < s[j] }

  /** `node` put in its place, once. */
  function Put(s: seq<Node>, node: Node): (r: seq<Node>)
    requires Ascending(s)
    ensures Ascending(r) && forall x :: x in r <==> x in s || x == node
  {
    if s == [] || s[|s| - 1] < node then s + [node]
    else
      var init, last := s[..|s| - 1], s[|s| - 1];
      assert s == init + [last];
      if last == node then s
      else
        var r := Put(init, node);
        assert forall i :: 0 <= i < |r| ==> r[i] in r;
        r + [last]
  }

  /** Sorted and without duplicates. */
  function SortedUnique(s: seq<Node>): (r: seq<Node>)
    ensures Ascending(r) && forall x :: x in r <==> x in s
  {
    if s == [] then []
    else
      assert s == s[..|s| - 1] + [s[|s| - 1]];
      Put(SortedUnique(s[..|s| - 1]), s[|s| - 1])
  }

  /** How many of the first `n` parts `view` gives to `node`. */
  function Owned(view: nat -> seq<Node>, node: Node, n: nat): nat {
    if n == 0 then 0 else Owned(view, node, n - 1) + (if node in view(n - 1) then 1 else 0)
  }

  /** That is the number of those parts that list it. */
  lemma {:induction false} OwnedIsCount(view: nat -> seq<Node>, node: Node, n: nat)
    ensures Owned(view, node, n) == |set p: nat | p < n && node in view(p)|
  {
    if n > 0 {
      OwnedIsCount(view, node, n - 1);
      var before, now := set p: nat | p < n - 1 && node in view(p), set p: nat | p < n && node in view(p);
      assert now == if node in view(n - 1) then before + {n - 1} else before;
    }
  }

  function Min(a: nat, b: nat): nat { if a < b then a else b }

  /** What a computed view promises: each part has as many owners as asked for, or everyone, all of
      them eligible and none twice. */
  ghost predicate IsView(view: nat -> seq<Node>, eligible: seq<Node>, owners: nat) {
    forall p :: 0 <= p < PARTS ==>
      && |view(p)| == Min(owners, |eligible|)
      && NoDup(view(p))
      && forall x :: x in view(p) ==> x in eligible
  }

  // ----- the counts add up

  /** The sum over `eligible` of the parts each owns among the first `n`. */
  function AllOwned(view: nat -> seq<Node>, eligible: seq<Node>, n: nat): nat {
    if eligible == [] then 0
    else AllOwned(view, eligible[..|eligible| - 1], n) + Owned(view, eligible[|eligible| - 1], n)
  }

  /** How many of `eligible` are in `s`. */
  ghost function HowMany(eligible: seq<Node>, s: set<Node>): nat {
    if eligible == [] then 0
    else HowMany(eligible[..|eligible| - 1], s) + (if eligible[|eligible| - 1] in s then 1 else 0)
  }

  lemma {:induction false} HowManyAll(eligible: seq<Node>, s: set<Node>)
    requires Ascending(eligible) && forall x :: x in s ==> x in eligible
    ensures HowMany(eligible, s) == |s|
  {
    if eligible != [] {
      var init, last := eligible[..|eligible| - 1], eligible[|eligible| - 1];
      assert eligible == init + [last];
      HowManyAll(init, s - {last});
      HowManyOthers(init, s, last);
    } else {
      assert s == {};
    }
  }

  lemma {:induction false} HowManyOthers(eligible: seq<Node>, s: set<Node>, x: Node)
    requires x !in eligible
    ensures HowMany(eligible, s - {x}) == HowMany(eligible, s)
  {
    if eligible != [] {
      assert eligible[|eligible| - 1] in eligible;
      HowManyOthers(eligible[..|eligible| - 1], s, x);
    }
  }

  lemma {:induction false} NoDupSize(s: seq<Node>)
    requires NoDup(s)
    ensures |Elems(s)| == |s|
  {
    if s != [] {
      var init, last := s[..|s| - 1], s[|s| - 1];
      NoDupSize(init);
      assert Elems(s) == Elems(init) + {last};
    }
  }

  lemma {:induction false} AllOwnedGrows(view: nat -> seq<Node>, eligible: seq<Node>, n: nat)
    ensures AllOwned(view, eligible, n + 1) == AllOwned(view, eligible, n) + HowMany(eligible, Elems(view(n)))
  {
    if eligible != [] {
      AllOwnedGrows(view, eligible[..|eligible| - 1], n);
    }
  }

  lemma {:induction false} NothingOwned(view: nat -> seq<Node>, eligible: seq<Node>)
    ensures AllOwned(view, eligible, 0) == 0
  {
    if eligible != [] {
      NothingOwned(view, eligible[..|eligible| - 1]);
    }
  }

  lemma OneMore(n: nat, m: nat)
    requires n > 0
    ensures n * m == (n - 1) * m + m
  {}

  /** Counting by node or by part gives the same sum: the counts over the eligible members sum to the
      number of parts times the owners each part has. */
  lemma {:induction false} SharesSum(view: nat -> seq<Node>, eligible: seq<Node>, owners: nat, n: nat)
    requires Ascending(eligible) && IsView(view, eligible, owners) && n <= PARTS
    ensures AllOwned(view, eligible, n) == n * Min(owners, |eligible|)
  {
    hide AllOwned, HowMany, Min;
    if n == 0 {
      NothingOwned(view, eligible);
    } else {
      SharesSum(view, eligible, owners, n - 1);
      AllOwnedGrows(view, eligible, n - 1);
      NoDupSize(view(n - 1));
      HowManyAll(eligible, Elems(view(n - 1)));
      OneMore(n, Min(owners, |eligible|));
    }
  }

  // ----- the loop

  function SumOf(counts: seq<(Node, nat)>): nat {
    if counts == [] then 0 else SumOf(counts[..|counts| - 1]) + counts[|counts| - 1].1
  }

  lemma {:induction false} SumIsAllOwned(view: nat -> seq<Node>, eligible: seq<Node>, counts: seq<(Node, nat)>, n: nat)
    requires |counts| == |eligible|
    requires forall i :: 0 <= i < |counts| ==> counts[i] == (eligible[i], Owned(view, eligible[i], n))
    ensures SumOf(counts) == AllOwned(view, eligible, n)
  {
    if counts != [] {
      SumIsAllOwned(view, eligible[..|eligible| - 1], counts[..|counts| - 1], n);
    }
  }

  method BinarySearch(counts: array<(Node, nat)>, node: Node, eligible: seq<Node>) returns (r: Option<nat>)
    requires Ascending(eligible) && counts.Length == |eligible|
    requires forall i :: 0 <= i < counts.Length ==> counts[i].0 == eligible[i]
    ensures r.Some? ==> r.value < |eligible| && eligible[r.value] == node
    ensures r.None? ==> node !in eligible
  {
    var lo, hi := 0, counts.Length;
    while lo < hi
      invariant 0 <= lo <= hi <= counts.Length
      invariant forall i :: 0 <= i < lo ==> eligible[i] < node
      invariant forall i :: hi <= i < counts.Length ==> node < eligible[i]
    {
      var mid := (lo + hi) / 2;
      if counts[mid].0 == node {
        return Some(mid);
      } else if counts[mid].0 < node {
        lo := mid + 1;
      } else {
        hi := mid;
      }
    }
    r := None;
  }

  /** Adds one part's owners to the counts. */
  method CountPart(counts: array<(Node, nat)>, eligible: seq<Node>, os: seq<Node>)
    requires Ascending(eligible) && NoDup(os) && counts.Length == |eligible|
    requires forall i :: 0 <= i < counts.Length ==> counts[i].0 == eligible[i]
    modifies counts
    ensures forall i :: 0 <= i < counts.Length ==>
              counts[i] == (eligible[i], old(counts[i].1) + (if eligible[i] in os then 1 else 0))
  {
    for k := 0 to |os|
      invariant forall i :: 0 <= i < counts.Length ==>
        counts[i] == (eligible[i], old(counts[i].1) + (if eligible[i] in os[..k] then 1 else 0))
    {
      assert os[..k + 1] == os[..k] + [os[k]];
      assert os[k] !in os[..k];
      var found := BinarySearch(counts, os[k], eligible);
      if found.Some? {
        counts[found.value] := (counts[found.value].0, counts[found.value].1 + 1);
      }
    }
    assert os[..|os|] == os;
  }

  /** The shares of every eligible member, or none when nobody is eligible. */
  method Shares(candidates: seq<Node>, owners: nat, view: nat -> seq<Node>)
    returns (counts: array?<(Node, nat)>)
    requires IsView(view, SortedUnique(candidates), owners)
    ensures counts == null <==> candidates == []
    ensures counts != null ==> fresh(counts) && counts.Length == |SortedUnique(candidates)|
    ensures counts != null ==> forall i :: 0 <= i < counts.Length ==>
              counts[i] == (SortedUnique(candidates)[i], Owned(view, SortedUnique(candidates)[i], PARTS))
    ensures counts != null ==> SumOf(counts[..]) == 65536 * if owners < counts.Length then owners else counts.Length
  {
    hide SortedUnique;
    var eligible := SortedUnique(candidates);
    SomeoneEligible(candidates);
    if eligible == [] {
      return null;
    }
    counts := CountAll(eligible, owners, view);
    SharesSum(view, eligible, owners, PARTS);
    SumIsAllOwned(view, eligible, counts[..], PARTS);
  }

  lemma SomeoneEligible(candidates: seq<Node>)
    ensures SortedUnique(candidates) == [] <==> candidates == []
  {
    if candidates != [] {
      assert candidates[0] in SortedUnique(candidates);
    }
  }

  /** The counting loop: every part's owners, one by one. */
  method CountAll(eligible: seq<Node>, owners: nat, view: nat -> seq<Node>) returns (counts: array<(Node, nat)>)
    requires Ascending(eligible) && IsView(view, eligible, owners)
    ensures fresh(counts) && counts.Length == |eligible|
    ensures forall i :: 0 <= i < counts.Length ==> counts[i] == (eligible[i], Owned(view, eligible[i], PARTS))
  {
    counts := new (Node, nat)[|eligible|](i requires 0 <= i < |eligible| => (eligible[i], 0));
    for p := 0 to PARTS
      invariant forall i :: 0 <= i < counts.Length ==> counts[i] == (eligible[i], Owned(view, eligible[i], p))
    {
      CountPart(counts, eligible, view(p));
    }
  }

  /** The count kept for `node`, or 0 off the eligible set: either way the parts it owns. */
  method PartsOwnedBy(counts: array<(Node, nat)>, eligible: seq<Node>, owners: nat, view: nat -> seq<Node>, node: Node)
    returns (parts: nat)
    requires Ascending(eligible) && IsView(view, eligible, owners) && counts.Length == |eligible|
    requires forall i :: 0 <= i < counts.Length ==> counts[i] == (eligible[i], Owned(view, eligible[i], PARTS))
    ensures parts == Owned(view, node, PARTS)
  {
    var found := BinarySearch(counts, node, eligible);
    if found.Some? {
      parts := counts[found.value].1;
    } else {
      OwnsNothing(view, eligible, owners, node, PARTS);
      parts := 0;
    }
  }

  lemma {:induction false} OwnsNothing(view: nat -> seq<Node>, eligible: seq<Node>, owners: nat, node: Node, n: nat)
    requires IsView(view, eligible, owners) && node !in eligible && n <= PARTS
    ensures Owned(view, node, n) == 0
  {
    if n > 0 {
      OwnsNothing(view, eligible, owners, node, n - 1);
    }
  }
}
