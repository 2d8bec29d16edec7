/** Which differences decode, from where the hashes place their elements. */
module SketchCore {
  import opened Words
  import opened Sequences
  import opened SketchCell
  import opened Sketch
  import opened SketchSums
  import opened SketchPeel

  /** The cells of an element, in the arithmetic of its hashes: one for each partition. */
  lemma OccupiesExactly(sh: Shape, e: Elem, i: nat)
    requires sh.len > 0
    ensures Occupies(sh, e, i) <==> exists p: nat :: p < 3 && i == p * sh.len + sh.mix(sh.check(e), p) % sh.len
  {
    LocationIs(sh, e, 0);
    LocationIs(sh, e, 1);
    LocationIs(sh, e, 2);
  }

  /** The elements from `k` on. */
  ghost function From(order: seq<Elem>, k: nat): set<Elem>
    requires k <= |order|
  {
    Elems(order[k..])
  }

  ghost predicate HasOwnCell(sh: Shape, s: set<Elem>, e: Elem)
    requires sh.len > 0
  {
    exists i: nat :: Alone(sh, s, e, i)
  }

  /** An order in which every element has a cell to itself once those before it are gone. */
  ghost predicate PeelsInOrder(sh: Shape, order: seq<Elem>)
    requires sh.len > 0
  {
    forall k :: 0 <= k < |order| ==> HasOwnCell(sh, From(order, k), order[k])
  }

  /** A stuck set shares no element with an order that peels. */
  lemma {:induction false} StuckMissesOrder(sh: Shape, order: seq<Elem>, t: set<Elem>, k: nat)
    requires sh.len > 0 && PeelsInOrder(sh, order) && Stuck(sh, t) && k <= |order| && t <= From(order, k)
    ensures t == {}
    decreases |order| - k
  {
    hide Stuck, HasOwnCell;
    if k < |order| {
      assert HasOwnCell(sh, From(order, k), order[k]);
      StuckLacks(sh, From(order, k), t, order[k]);
      assert order[k..] == [order[k]] + order[k + 1..];
      forall e | e in t ensures e in From(order, k + 1) {
        assert e in order[k..];
      }
      StuckMissesOrder(sh, order, t, k + 1);
    } else {
      assert order[k..] == [];
    }
  }

  lemma StuckLacks(sh: Shape, s: set<Elem>, t: set<Elem>, e: Elem)
    requires sh.len > 0 && HasOwnCell(sh, s, e) && t <= s && Stuck(sh, t)
    ensures e !in t
  {
    hide Occupies;
    var i: nat :| Alone(sh, s, e, i);
    assert !Alone(sh, t, e, i);
  }

  /** A set with no stuck part but the empty one has an order that peels it. */
  lemma {:induction false} OrderOf(sh: Shape, d: set<Elem>) returns (order: seq<Elem>)
    requires sh.len > 0 && IsCore(sh, d, {})
    ensures Elems(order) == d && PeelsInOrder(sh, order)
    decreases d
  {
    hide Occupies, Elems, PeelsInOrder;
    if d == {} {
      order := [];
      EmptyOrder(sh);
    } else {
      assert !Stuck(sh, d);
      var e, i: nat :| Alone(sh, d, e, i);
      var rest := OrderOf(sh, d - {e});
      order := [e] + rest;
      OrderGrows(sh, d, e, i, rest);
    }
  }

  lemma EmptyOrder(sh: Shape)
    requires sh.len > 0
    ensures Elems<Elem>([]) == {} && PeelsInOrder(sh, [])
  {}

  lemma OrderGrows(sh: Shape, d: set<Elem>, e: Elem, i: nat, rest: seq<Elem>)
    requires sh.len > 0 && Alone(sh, d, e, i) && Elems(rest) == d - {e} && PeelsInOrder(sh, rest)
    ensures Elems([e] + rest) == d && PeelsInOrder(sh, [e] + rest)
  {
    hide Alone;
    var order := [e] + rest;
    assert e in d by {
      AloneIsIn(sh, d, e, i);
    }
    forall x ensures x in Elems(order) <==> x in d {
      assert x in rest <==> x in Elems(rest);
    }
    assert Elems(order) == d;
    forall k | 0 <= k < |order| ensures HasOwnCell(sh, From(order, k), order[k]) {
      if k == 0 {
        assert order[0..] == order;
        assert From(order, 0) == d && order[0] == e;
      } else {
        assert order[k..] == rest[k - 1..];
        assert HasOwnCell(sh, From(rest, k - 1), rest[k - 1]);
      }
    }
  }

  lemma AloneIsIn(sh: Shape, d: set<Elem>, e: Elem, i: nat)
    requires sh.len > 0 && Alone(sh, d, e, i)
    ensures e in d
  {}

  /** A difference has an empty core, and so decodes, exactly if its elements can be put in an order
      in which each has a cell to itself among those still to come. */
  lemma CoreIsEmptyExactly(sh: Shape, d: set<Elem>)
    requires sh.len > 0
    ensures IsCore(sh, d, {}) <==> exists order :: Elems(order) == d && PeelsInOrder(sh, order)
  {
    hide PeelsInOrder, Stuck;
    if IsCore(sh, d, {}) {
      var order := OrderOf(sh, d);
    }
    if order :| Elems(order) == d && PeelsInOrder(sh, order) {
      assert order[0..] == order;
      forall t: set<Elem> | t <= d && Stuck(sh, t) ensures t <= {} {
        StuckMissesOrder(sh, order, t, 0);
      }
      NothingIsStuck(sh);
    }
  }

  lemma NothingIsStuck(sh: Shape)
    requires sh.len > 0
    ensures Stuck(sh, {})
  {}

  /** Two elements share a cell of partition `p` exactly if their mixes for it agree modulo its
      length; they share no cell of different partitions. */
  lemma SharedCell(sh: Shape, e: Elem, f: Elem, p: nat)
    requires sh.len > 0 && p < 3
    ensures Occupies(sh, f, Location(sh, e, p)) <==> sh.mix(sh.check(e), p) % sh.len == sh.mix(sh.check(f), p) % sh.len
  {
    LocationIs(sh, e, p);
    LocationIs(sh, f, p);
  }

  /** Two elements have an empty core exactly if some partition tells them apart. */
  lemma PairCore(sh: Shape, e: Elem, f: Elem)
    requires sh.len > 0 && e != f
    ensures IsCore(sh, {e, f}, {})
            <==> exists p: nat :: p < 3 && sh.mix(sh.check(e), p) % sh.len != sh.mix(sh.check(f), p) % sh.len
  {
    hide Location, Occupies;
    SharedCell(sh, e, f, 0);
    SharedCell(sh, e, f, 1);
    SharedCell(sh, e, f, 2);
    if p: nat :| p < 3 && sh.mix(sh.check(e), p) % sh.len != sh.mix(sh.check(f), p) % sh.len {
      PairPeels(sh, e, f, p);
    } else {
      PairSticks(sh, e, f);
    }
  }

  lemma PairPeels(sh: Shape, e: Elem, f: Elem, p: nat)
    requires sh.len > 0 && e != f && p < 3 && !Occupies(sh, f, Location(sh, e, p))
    ensures IsCore(sh, {e, f}, {})
  {
    assert Alone(sh, {e, f}, e, Location(sh, e, p));
    assert Alone(sh, {e}, e, Location(sh, e, 0));
    assert Alone(sh, {f}, f, Location(sh, f, 0));
    forall t: set<Elem> | t <= {e, f} && t != {} ensures !Stuck(sh, t) {
      assert t == {e, f} || t == {e} || t == {f};
    }
  }

  lemma PairSticks(sh: Shape, e: Elem, f: Elem)
    requires sh.len > 0 && e != f
    requires forall p: nat :: p < 3 ==> Occupies(sh, f, Location(sh, e, p))
    ensures !IsCore(sh, {e, f}, {})
  {
    assert Stuck(sh, {e, f}) by {
      forall g, i: nat ensures !Alone(sh, {e, f}, g, i) {
        assert Occupies(sh, e, i) <==> Occupies(sh, f, i);
      }
    }
  }

  /** So two sets that differ by one element each, told apart by the hashes, decode to those two
      elements exactly if some partition places them apart. */
  lemma PairDecodes(sh: Shape, e: Elem, f: Elem, picks: seq<nat>)
    requires sh.len > 0 && e != f && CollisionFree(sh, {e, f}, {e}) && |picks| >= 3 * sh.len + 6
    ensures
      var v := Verdict(Peeled(sh, [e], [f], picks));
      && (v.Decoded? <==> exists p: nat :: p < 3 && sh.mix(sh.check(e), p) % sh.len != sh.mix(sh.check(f), p) % sh.len)
      && (v.Decoded? ==> Elems(v.left) == {e} && Elems(v.right) == {f})
  {
    hide Run, Start, Sum, SketchOf, IsCore, CollisionFree;
    assert Elems([e]) == {e} && Elems([f]) == {f};
    assert SymDiff({e}, {f}) == {e, f} && |{e, f}| == 2 && {e} - {f} == {e} && {f} - {e} == {f};
    PeelDecodesTheDifference(sh, [e], [f], picks);
    PairCore(sh, e, f);
  }
}
