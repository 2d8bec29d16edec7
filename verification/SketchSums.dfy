/** What a set of elements leaves in a cell, and how the sketches of two sets relate to it. */
module SketchSums {
  import opened Sequences
  import opened SketchCell
  import opened Sketch

  /** `e`'s share of cell `i`. */
  function Term(sh: Shape, e: Elem, positive: bool, i: nat): Cell
    requires sh.len > 0
  {
    if Occupies(sh, e, i) then Single(e, sh.check(e), positive) else EMPTY
  }

  /** Cell `i` of a sketch holding exactly the elements of `s`, those in `pos` on the left side and
      the others on the right. */
  ghost function Sum(sh: Shape, s: set<Elem>, pos: set<Elem>, i: nat): Cell
    requires sh.len > 0
    decreases |s|
  {
    if s == {} then EMPTY
    else
      var e :| e in s;
      Add(Sum(sh, s - {e}, pos, i), Term(sh, e, e in pos, i))
  }

  /** Any element may be taken out first: the sum does not depend on an order. */
  lemma {:induction false} SumRemove(sh: Shape, s: set<Elem>, pos: set<Elem>, i: nat, e: Elem)
    requires sh.len > 0 && e in s
    ensures Sum(sh, s, pos, i) == Add(Sum(sh, s - {e}, pos, i), Term(sh, e, e in pos, i))
    decreases |s|
  {
    var f :| f in s && Sum(sh, s, pos, i) == Add(Sum(sh, s - {f}, pos, i), Term(sh, f, f in pos, i));
    if f != e {
      SumRemove(sh, s - {f}, pos, i, e);
      SumRemove(sh, s - {e}, pos, i, f);
      assert s - {f} - {e} == s - {e} - {f};
      AddSwap(Sum(sh, s - {e} - {f}, pos, i), Term(sh, e, e in pos, i), Term(sh, f, f in pos, i));
    }
  }

  lemma SumInsert(sh: Shape, s: set<Elem>, pos: set<Elem>, i: nat, e: Elem)
    requires sh.len > 0 && e !in s
    ensures Sum(sh, s + {e}, pos, i) == Add(Sum(sh, s, pos, i), Term(sh, e, e in pos, i))
  {
    SumRemove(sh, s + {e}, pos, i, e);
    assert s + {e} - {e} == s;
  }

  /** A cell no element of `s` occupies is empty. */
  lemma {:induction false} SumUnoccupied(sh: Shape, s: set<Elem>, pos: set<Elem>, i: nat)
    requires sh.len > 0
    requires forall e :: e in s ==> !Occupies(sh, e, i)
    ensures Sum(sh, s, pos, i) == EMPTY
    decreases |s|
  {
    if s != {} {
      var e :| e in s;
      SumRemove(sh, s, pos, i, e);
      SumUnoccupied(sh, s - {e}, pos, i);
      AddZero(EMPTY);
    }
  }

  /** Only the signs of the elements summed matter. */
  lemma {:induction false} SumSigns(sh: Shape, s: set<Elem>, pos: set<Elem>, pos': set<Elem>, i: nat)
    requires sh.len > 0
    requires forall e :: e in s ==> (e in pos <==> e in pos')
    ensures Sum(sh, s, pos, i) == Sum(sh, s, pos', i)
    decreases |s|
  {
    if s != {} {
      var e :| e in s;
      SumRemove(sh, s, pos, i, e);
      SumRemove(sh, s, pos', i, e);
      SumSigns(sh, s - {e}, pos, pos', i);
    }
  }

  /** `e` is the one element of `s` in cell `i`. */
  ghost predicate Alone(sh: Shape, s: set<Elem>, e: Elem, i: nat)
    requires sh.len > 0
  {
    e in s && Occupies(sh, e, i) && forall f :: f in s && Occupies(sh, f, i) ==> f == e
  }

  lemma SumAlone(sh: Shape, s: set<Elem>, pos: set<Elem>, e: Elem, i: nat)
    requires sh.len > 0 && Alone(sh, s, e, i)
    ensures Sum(sh, s, pos, i) == Single(e, sh.check(e), e in pos)
  {
    SumRemove(sh, s, pos, i, e);
    SumUnoccupied(sh, s - {e}, pos, i);
    AddZero(Term(sh, e, e in pos, i));
  }

  // ----- sequences of insertions

  /** Cell `i` after folding each of `elems` in, with one sign. */
  function Total(sh: Shape, elems: seq<Elem>, positive: bool, i: nat): Cell
    requires sh.len > 0
  {
    if elems == [] then EMPTY
    else Add(Total(sh, elems[..|elems| - 1], positive, i), Term(sh, elems[|elems| - 1], positive, i))
  }

  lemma TotalAppend(sh: Shape, elems: seq<Elem>, positive: bool, i: nat, e: Elem)
    requires sh.len > 0
    ensures Total(sh, elems + [e], positive, i) == Add(Total(sh, elems, positive, i), Term(sh, e, positive, i))
  {
    assert (elems + [e])[..|elems|] == elems;
  }

  lemma AppliedCell(sh: Shape, cells: seq<Cell>, e: Elem, positive: bool, i: nat)
    requires WellFormed(sh, cells) && i < |cells|
    ensures Applied(sh, cells, e, Sign(positive))[i] == Add(cells[i], Term(sh, e, positive, i))
  {
    FoldIsAdd(cells[i], e, sh.check(e), positive);
    AddZero(cells[i]);
  }

  lemma {:induction false} SketchOfCell(sh: Shape, elems: seq<Elem>, i: nat)
    requires sh.len > 0 && i < 3 * sh.len
    ensures SketchOf(sh, elems)[i] == Total(sh, elems, true, i)
  {
    if elems != [] {
      var init := elems[..|elems| - 1];
      SketchOfCell(sh, init, i);
      AppliedCell(sh, SketchOf(sh, init), elems[|elems| - 1], true, i);
    }
  }

  /** Inserting a set in any order leaves the cells its sum describes. */
  lemma {:induction false} TotalIsSum(sh: Shape, elems: seq<Elem>, i: nat)
    requires sh.len > 0 && NoDup(elems)
    ensures Total(sh, elems, true, i) == Sum(sh, Elems(elems), Elems(elems), i)
  {
    if elems != [] {
      var init, e := elems[..|elems| - 1], elems[|elems| - 1];
      TotalIsSum(sh, init, i);
      assert e !in init;
      assert Elems(elems) == Elems(init) + {e};
      SumSigns(sh, Elems(init), Elems(init), Elems(elems), i);
      SumInsert(sh, Elems(init), Elems(elems), i, e);
    }
  }

  /** The elements of exactly one of two sets. */
  ghost function SymDiff<T>(a: set<T>, b: set<T>): set<T> { (a - b) + (b - a) }

  lemma SymDiffLeft<T>(a: set<T>, b: set<T>, e: T)
    requires e !in a
    ensures SymDiff(a + {e}, b) == if e in b then SymDiff(a, b) - {e} else SymDiff(a, b) + {e}
  {}

  lemma SymDiffRight<T>(b: set<T>, e: T)
    requires e in b
    ensures SymDiff({}, b) == SymDiff({}, b - {e}) + {e}
  {}

  /** Taking `b`'s sums from `a`'s cancels the common elements and keeps the rest, signed. */
  lemma {:induction false} SumDifference(sh: Shape, a: set<Elem>, b: set<Elem>, i: nat)
    requires sh.len > 0
    ensures Minus(Sum(sh, a, a, i), Sum(sh, b, b, i)) == Sum(sh, SymDiff(a, b), a, i)
    decreases |a| + |b|
  {
    hide Sum, Term, Add, Minus;
    SumNothing(sh, a, i);
    SumNothing(sh, b, i);
    MinusNothing();
    if e :| e in a {
      SumDifference(sh, a - {e}, b, i);
      LeftOneMore(sh, a - {e}, b, e, i);
      assert a - {e} + {e} == a;
    } else if e :| e in b {
      SumDifference(sh, a, b - {e}, i);
      SumRemove(sh, b, b, i, e);
      SumSigns(sh, b - {e}, b, b - {e}, i);
      MinusTerm(sh, Sum(sh, a, a, i), Sum(sh, b - {e}, b - {e}, i), e, i);
      SymDiffRight(b, e);
      SumInsert(sh, SymDiff(a, b - {e}), a, i, e);
    } else {
      assert SymDiff(a, b) == {};
    }
  }

  lemma SumNothing(sh: Shape, pos: set<Elem>, i: nat)
    requires sh.len > 0
    ensures Sum(sh, {}, pos, i) == EMPTY
  {}

  lemma MinusNothing()
    ensures Minus(EMPTY, EMPTY) == EMPTY
  {}

  /** One more element on the left joins the difference, or cancels its copy on the right. */
  lemma LeftOneMore(sh: Shape, a: set<Elem>, b: set<Elem>, e: Elem, i: nat)
    requires sh.len > 0 && e !in a
    requires Minus(Sum(sh, a, a, i), Sum(sh, b, b, i)) == Sum(sh, SymDiff(a, b), a, i)
    ensures Minus(Sum(sh, a + {e}, a + {e}, i), Sum(sh, b, b, i)) == Sum(sh, SymDiff(a + {e}, b), a + {e}, i)
  {
    hide Sum, Term, Add, Minus;
    var d, d' := SymDiff(a, b), SymDiff(a + {e}, b);
    SymDiffLeft(a, b, e);
    SumInsert(sh, a, a + {e}, i, e);
    SumSigns(sh, a, a + {e}, a, i);
    MinusTerm(sh, Sum(sh, a, a, i), Sum(sh, b, b, i), e, i);
    if e in b {
      SumRemove(sh, d, a, i, e);
      CancelTerm(sh, Sum(sh, d', a, i), e, i);
      SumSigns(sh, d', a, a + {e}, i);
    } else {
      SumSigns(sh, d, a, a + {e}, i);
      SumInsert(sh, d, a + {e}, i, e);
    }
  }

  lemma MinusTerm(sh: Shape, x: Cell, y: Cell, e: Elem, i: nat)
    requires sh.len > 0
    ensures Minus(Add(x, Term(sh, e, true, i)), y) == Add(Minus(x, y), Term(sh, e, true, i))
    ensures Minus(x, Add(y, Term(sh, e, true, i))) == Add(Minus(x, y), Term(sh, e, false, i))
  {
    MinusAdd(x, y, e, sh.check(e));
    AddZero(x);
    AddZero(y);
    AddZero(Minus(x, y));
  }

  lemma CancelTerm(sh: Shape, x: Cell, e: Elem, i: nat)
    requires sh.len > 0
    ensures Add(Add(x, Term(sh, e, false, i)), Term(sh, e, true, i)) == x
    ensures Add(Add(x, Term(sh, e, true, i)), Term(sh, e, false, i)) == x
  {
    CancelOpposite(x, e, sh.check(e), false);
    CancelOpposite(x, e, sh.check(e), true);
    AddZero(x);
  }

  /** The difference of two sets' sketches holds exactly their symmetric difference: what the two
      sides share cancels, whatever order each side inserted in. */
  lemma DifferenceHoldsSymmetricDifference(sh: Shape, a: seq<Elem>, b: seq<Elem>, i: nat)
    requires sh.len > 0 && NoDup(a) && NoDup(b) && i < 3 * sh.len
    ensures Difference(SketchOf(sh, a), SketchOf(sh, b))[i]
            == Sum(sh, SymDiff(Elems(a), Elems(b)), Elems(a), i)
  {
    SketchOfCell(sh, a, i);
    SketchOfCell(sh, b, i);
    TotalIsSum(sh, a, i);
    TotalIsSum(sh, b, i);
    SumDifference(sh, Elems(a), Elems(b), i);
  }
}
