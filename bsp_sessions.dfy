/**
 * Sessions of `add_leaf` and `remove` calls on a layout: `n` calls to
 * `add_leaf` followed by `n` calls to `remove`, each on a slot that holds a
 * leaf, should give back `empty()`. The code as written does not
 * (`FiveLeavesNotUndone`).
 */
module BspSessions {
  import opened Options
  import opened Bsp
  import opened BspShape

  /** The `add_leaf` calls of a session, in order. */
  function AddedLeaves<W>(t: Layout<W>, adds: seq<(W, Split)>): (r: Layout<W>)
    requires WellSized(t)
    ensures WellSized(r)
    decreases |adds|
  {
    if adds == [] then t else AddedLeaves(AddedLeaf(t, adds[0].0, adds[0].1), adds[1..])
  }

  /**
   * The `remove` calls of a session, as written; `None` as soon as a slot
   * to remove does not hold a leaf.
   */
  function RemovedLeaves<W>(t: Layout<W>, ixs: seq<nat>): (r: Option<Layout<W>>)
    requires WellSized(t)
    ensures r.Some? ==> WellSized(r.value)
    decreases |ixs|
  {
    if ixs == [] then Some(t)
    else if ixs[0] < |t.nodes| && t.nodes[ixs[0]].Leaf? then RemovedLeaves(Removed(t, ixs[0]), ixs[1..])
    else None
  }

  /** The same session with the intended `remove` (`RemovedLifting`). */
  function RemovedLeavesLifting<W>(t: Layout<W>, ixs: seq<nat>): (r: Option<Layout<W>>)
    requires WellSized(t)
    ensures r.Some? ==> WellSized(r.value)
    decreases |ixs|
  {
    if ixs == [] then Some(t)
    else if ixs[0] < |t.nodes| && t.nodes[ixs[0]].Leaf? then RemovedLeavesLifting(RemovedLifting(t, ixs[0]), ixs[1..])
    else None
  }

  // ---------------------------------------------------------------------------
  // The session with the intended `remove`: back to `empty()`
  // ---------------------------------------------------------------------------

  /**
   * The round trip `remove` should make of `add_leaf`, for the intended `remove`: after
   * `n` `add_leaf` calls on `empty()`, `n` removals, each of a slot that
   * holds a leaf at its turn, give back `empty()`.
   */
  lemma SessionRoundTrip<W>(adds: seq<(W, Split)>, ixs: seq<nat>)
    ensures var r := RemovedLeavesLifting(AddedLeaves(EmptyLayout(), adds), ixs);
      |ixs| == |adds| && r.Some? ==> r.value == EmptyLayout()
  {
    EmptyShaped<W>();
    AddedLeavesShaped(EmptyLayout(), adds);
    if |ixs| == |adds| && ixs != [] {
      RemovedLeavesLiftingEmpties(AddedLeaves(EmptyLayout(), adds), ixs);
    }
  }

  /** `add_leaf` keeps the shape and adds one leaf. */
  lemma AddedLeafShaped<W>(t: Layout<W>, e: W, s: Split)
    requires Shaped(t)
    ensures Shaped(AddedLeaf(t, e, s))
    ensures LeafCount(AddedLeaf(t, e, s).nodes, 0) == LeafCount(t.nodes, 0) + 1
  {
    InsertedShaped(t, e, s);
  }

  /** A session of `add_leaf` calls keeps the shape and adds one leaf per call. */
  lemma {:induction false} AddedLeavesShaped<W>(t: Layout<W>, adds: seq<(W, Split)>)
    requires Shaped(t)
    ensures Shaped(AddedLeaves(t, adds))
    ensures LeafCount(AddedLeaves(t, adds).nodes, 0) == LeafCount(t.nodes, 0) + |adds|
    decreases |adds|
  {
    if adds != [] {
      AddedLeafShaped(t, adds[0].0, adds[0].1);
      AddedLeavesShaped(AddedLeaf(t, adds[0].0, adds[0].1), adds[1..]);
    }
  }

  /**
   * On a shaped layout holding `n > 0` leaves, `n` removals of leaves with
   * the intended `remove` end at `empty()`: each takes one leaf away, and
   * the last leaf is always at the root.
   */
  lemma {:induction false} RemovedLeavesLiftingEmpties<W>(t: Layout<W>, ixs: seq<nat>)
    requires Shaped(t) && LeafCount(t.nodes, 0) == |ixs| && ixs != []
    ensures RemovedLeavesLifting(t, ixs).Some? ==> RemovedLeavesLifting(t, ixs).value == EmptyLayout()
    decreases |ixs|
  {
    var ix := ixs[0];
    if ix < |t.nodes| && t.nodes[ix].Leaf? {
      RemovedLiftingShaped(t, ix);
      if |ixs| == 1 {
        if ix > 0 {
          LeafHasCompany(t, ix);
        } else {
          assert ixs[1..] == [];
        }
      } else {
        RemovedLeavesLiftingEmpties(RemovedLifting(t, ix), ixs[1..]);
      }
    }
  }

  // ---------------------------------------------------------------------------
  // The session as written: five leaves in, five leaves out, fifteen empty slots
  // ---------------------------------------------------------------------------

  /**
   * Five `add_leaf` calls, then `remove` at slots 7, 3, 1, 5 and 2, each
   * holding a leaf when it is removed, leave fifteen empty slots with
   * `max_level` 8 instead of `empty()`: `remove(1)` strands two leaves
   * under an empty slot, and the inverted `can_decrease_resolution` never
   * drops the empty levels.
   */
  lemma FiveLeavesNotUndone<W>(a: W, b: W, c: W, d: W, e: W, s: Split)
    ensures var t := AddedLeaves(EmptyLayout(), [(a, s), (b, s), (c, s), (d, s), (e, s)]);
      && t == Layout([Inner(s), Inner(s), Inner(s), Inner(s), Leaf(c), Leaf(b), Leaf(d), Leaf(a), Leaf(e),
                      Empty, Empty, Empty, Empty, Empty, Empty], 8)
      && RemovedLeaves(t, [7, 3, 1, 5, 2]) == Some(Layout(Blank(15), 8))
      && RemovedLeaves(t, [7, 3, 1, 5, 2]) != Some(EmptyLayout())
  {
    var t5 := FiveAdds(a, b, c, d, e, s);
    FiveRemoves(t5, a, b, c, d, e, s);
  }

  /** `n` empty slots. */
  function Blank<W>(n: nat): seq<Node<W>>
  {
    seq(n, _ => Empty)
  }

  /** The layout the five `add_leaf` calls of `FiveLeavesNotUndone` build. */
  function FiveLeafLayout<W>(a: W, b: W, c: W, d: W, e: W, s: Split): Layout<W>
  {
    Layout([Inner(s), Inner(s), Inner(s), Inner(s), Leaf(c), Leaf(b), Leaf(d), Leaf(a), Leaf(e),
            Empty, Empty, Empty, Empty, Empty, Empty], 8)
  }

  lemma FiveAdds<W>(a: W, b: W, c: W, d: W, e: W, s: Split) returns (t5: Layout<W>)
    ensures t5 == FiveLeafLayout(a, b, c, d, e, s)
    ensures AddedLeaves(EmptyLayout(), [(a, s), (b, s), (c, s), (d, s), (e, s)]) == t5
  {
    t5 := FiveLeafLayout(a, b, c, d, e, s);
    var t1 := Layout([Leaf(a)], 1);
    assert AddedLeaf(EmptyLayout(), a, s) == t1 by {
      assert AddTarget<W>([Empty]) == 0;
    }
    var adds := [(a, s), (b, s), (c, s), (d, s), (e, s)];
    AddedLeavesStep(EmptyLayout(), adds, t1);
    assert adds[1..] == [(b, s), (c, s), (d, s), (e, s)];
    AddSecond(t1, a, b, c, d, e, s);
  }

  /** One `add_leaf` call at the head of a session. */
  lemma AddedLeavesStep<W>(t: Layout<W>, adds: seq<(W, Split)>, next: Layout<W>)
    requires WellSized(t) && adds != [] && AddedLeaf(t, adds[0].0, adds[0].1) == next
    ensures AddedLeaves(t, adds) == AddedLeaves(next, adds[1..])
  {
  }

  /** One `remove` call at the head of a session, on a slot holding a leaf. */
  lemma RemovedLeavesStep<W>(t: Layout<W>, ixs: seq<nat>, next: Layout<W>)
    requires WellSized(t) && ixs != [] && ixs[0] < |t.nodes| && t.nodes[ixs[0]].Leaf?
    requires Removed(t, ixs[0]) == next
    ensures RemovedLeaves(t, ixs) == RemovedLeaves(next, ixs[1..])
  {
  }

  /** `insert(ix, e, s)` below the root on a concrete layout, checked slot by slot. */
  lemma InsertedExample<W>(t: Layout<W>, ix: nat, e: W, s: Split, r: seq<Node<W>>, ml: nat)
    requires WellSized(t) && ix > 0 && Parent(ix) < |t.nodes|
    requires ml == (if |t.nodes| <= 2 * Parent(ix) + 1 then 2 * t.maxLevel else t.maxLevel)
    requires |r| == 2 * ml - 1 && 2 * Parent(ix) + 2 < |r|
    requires r[Parent(ix)] == Inner(s) && r[2 * Parent(ix) + 1] == t.nodes[Parent(ix)]
    requires r[2 * Parent(ix) + 2] == Leaf(e)
    requires forall j :: 0 <= j < |r| && j != Parent(ix) && j != 2 * Parent(ix) + 1 && j != 2 * Parent(ix) + 2 ==>
      r[j] == (if j < |t.nodes| then t.nodes[j] else Empty)
    ensures Inserted(t, ix, e, s) == Layout(r, ml)
  {
    InsertedBelowRoot(t, ix, e, s);
    var q := Inserted(t, ix, e, s);
    assert |q.nodes| == 2 * q.maxLevel - 1;
    assert q.nodes == r;
  }

  lemma AddSecond<W>(t1: Layout<W>, a: W, b: W, c: W, d: W, e: W, s: Split)
    requires t1 == Layout([Leaf(a)], 1)
    ensures AddedLeaves(t1, [(b, s), (c, s), (d, s), (e, s)]) == FiveLeafLayout(a, b, c, d, e, s)
  {
    var t2 := Layout([Inner(s), Leaf(a), Leaf(b)], 2);
    SecondLeaf(a, b, s);
    var adds := [(b, s), (c, s), (d, s), (e, s)];
    AddedLeavesStep(t1, adds, t2);
    assert adds[1..] == [(c, s), (d, s), (e, s)];
    AddThird(t2, a, b, c, d, e, s);
  }

  lemma AddThird<W>(t2: Layout<W>, a: W, b: W, c: W, d: W, e: W, s: Split)
    requires t2 == Layout([Inner(s), Leaf(a), Leaf(b)], 2)
    ensures AddedLeaves(t2, [(c, s), (d, s), (e, s)]) == FiveLeafLayout(a, b, c, d, e, s)
  {
    var t3 := Layout([Inner(s), Inner(s), Leaf(b), Leaf(a), Leaf(c), Empty, Empty], 4);
    assert IsPowerOfTwo(2);
    AddTargetUnique(t2.nodes, 3);
    InsertedExample(t2, 3, c, s, t3.nodes, 4);
    var adds := [(c, s), (d, s), (e, s)];
    AddedLeavesStep(t2, adds, t3);
    assert adds[1..] == [(d, s), (e, s)];
    AddFourth(t3, a, b, c, d, e, s);
  }

  lemma AddFourth<W>(t3: Layout<W>, a: W, b: W, c: W, d: W, e: W, s: Split)
    requires t3 == Layout([Inner(s), Inner(s), Leaf(b), Leaf(a), Leaf(c), Empty, Empty], 4)
    ensures AddedLeaves(t3, [(d, s), (e, s)]) == FiveLeafLayout(a, b, c, d, e, s)
  {
    var t4 := Layout([Inner(s), Inner(s), Inner(s), Leaf(a), Leaf(c), Leaf(b), Leaf(d)], 4);
    SevenSlots(t3);
    AddTargetUnique(t3.nodes, 5);
    InsertedExample(t3, 5, d, s, t4.nodes, 4);
    var adds := [(d, s), (e, s)];
    AddedLeavesStep(t3, adds, t4);
    assert adds[1..] == [(e, s)];
    AddFifth(t4, a, b, c, d, e, s);
  }

  lemma AddFifth<W>(t4: Layout<W>, a: W, b: W, c: W, d: W, e: W, s: Split)
    requires t4 == Layout([Inner(s), Inner(s), Inner(s), Leaf(a), Leaf(c), Leaf(b), Leaf(d)], 4)
    ensures AddedLeaves(t4, [(e, s)]) == FiveLeafLayout(a, b, c, d, e, s)
  {
    var t5 := FiveLeafLayout(a, b, c, d, e, s);
    FifthLeaf(t4, t5, a, b, c, d, e, s);
    AddedLeavesStep(t4, [(e, s)], t5);
    assert [(e, s)][1..] == [];
  }

  lemma FifthLeaf<W>(t4: Layout<W>, t5: Layout<W>, a: W, b: W, c: W, d: W, e: W, s: Split)
    requires t4 == Layout([Inner(s), Inner(s), Inner(s), Leaf(a), Leaf(c), Leaf(b), Leaf(d)], 4)
    requires t5 == Layout([Inner(s), Inner(s), Inner(s), Inner(s), Leaf(c), Leaf(b), Leaf(d), Leaf(a), Leaf(e),
                           Empty, Empty, Empty, Empty, Empty, Empty], 8)
    ensures WellSized(t4) && AddedLeaf(t4, e, s) == t5
  {
    SevenSlots(t4);
    AddTargetUnique(t4.nodes, 7);
    assert IsPowerOfTwo(8) by { assert IsPowerOfTwo(4) by { assert IsPowerOfTwo(2); } }
    InsertedExample(t4, 7, e, s, t5.nodes, 8);
  }

  /** Fifteen slots with a last level of eight are well sized. */
  lemma FifteenSlots<W>(t: Layout<W>)
    requires |t.nodes| == 15 && t.maxLevel == 8
    ensures WellSized(t)
  {
    assert IsPowerOfTwo(8) by { assert IsPowerOfTwo(4) by { assert IsPowerOfTwo(2); } }
  }

  /** `remove(ix)` as written on a fifteen-slot layout whose collapse `c` leaves the last level empty. */
  lemma RemovedFifteen<W>(t: Layout<W>, ix: nat, c: seq<Node<W>>)
    requires |t.nodes| == 15 && t.maxLevel == 8 && 0 < ix < 15 && SideLeaf(ix) < 15 && |c| == 15
    requires c[Parent(ix)] == t.nodes[SideLeaf(ix)] && c[ix] == Empty && c[SideLeaf(ix)] == Empty
    requires forall j :: 0 <= j < 15 && j != Parent(ix) && j != ix && j != SideLeaf(ix) ==> c[j] == t.nodes[j]
    requires forall k :: 7 <= k < 15 ==> c[k].Empty?
    ensures WellSized(t) && Removed(t, ix) == Layout(c, 8)
  {
    FifteenSlots(t);
    CollapsedExample(t.nodes, ix, c);
    RemovedTailEmpty(t, ix, c);
  }

  lemma FiveRemoves<W>(t5: Layout<W>, a: W, b: W, c: W, d: W, e: W, s: Split)
    requires t5 == Layout([Inner(s), Inner(s), Inner(s), Inner(s), Leaf(c), Leaf(b), Leaf(d), Leaf(a), Leaf(e),
                           Empty, Empty, Empty, Empty, Empty, Empty], 8)
    ensures WellSized(t5)
    ensures RemovedLeaves(t5, [7, 3, 1, 5, 2]) == Some(Layout(Blank(15), 8))
  {
    var r1 := Layout([Inner(s), Inner(s), Inner(s), Leaf(e), Leaf(c), Leaf(b), Leaf(d),
                      Empty, Empty, Empty, Empty, Empty, Empty, Empty, Empty], 8);
    RemovedFifteen(t5, 7, r1.nodes);
    FourRemoves(r1, b, c, d, e, s);
    RemovedLeavesStep(t5, [7, 3, 1, 5, 2], r1);
    assert [7, 3, 1, 5, 2][1..] == [3, 1, 5, 2];
  }

  lemma FourRemoves<W>(t: Layout<W>, b: W, c: W, d: W, e: W, s: Split)
    requires t == Layout([Inner(s), Inner(s), Inner(s), Leaf(e), Leaf(c), Leaf(b), Leaf(d),
                          Empty, Empty, Empty, Empty, Empty, Empty, Empty, Empty], 8)
    ensures WellSized(t)
    ensures RemovedLeaves(t, [3, 1, 5, 2]) == Some(Layout(Blank(15), 8))
  {
    var r := Layout([Inner(s), Leaf(c), Inner(s), Empty, Empty, Leaf(b), Leaf(d),
                     Empty, Empty, Empty, Empty, Empty, Empty, Empty, Empty], 8);
    RemovedFifteen(t, 3, r.nodes);
    ThreeRemoves(r, b, c, d, s);
    RemovedLeavesStep(t, [3, 1, 5, 2], r);
    assert [3, 1, 5, 2][1..] == [1, 5, 2];
  }

  lemma ThreeRemoves<W>(t: Layout<W>, b: W, c: W, d: W, s: Split)
    requires t == Layout([Inner(s), Leaf(c), Inner(s), Empty, Empty, Leaf(b), Leaf(d),
                          Empty, Empty, Empty, Empty, Empty, Empty, Empty, Empty], 8)
    ensures WellSized(t)
    ensures RemovedLeaves(t, [1, 5, 2]) == Some(Layout(Blank(15), 8))
  {
    var r := Layout([Inner(s), Empty, Empty, Empty, Empty, Leaf(b), Leaf(d),
                     Empty, Empty, Empty, Empty, Empty, Empty, Empty, Empty], 8);
    RemovedFifteen(t, 1, r.nodes);
    TwoRemoves(r, b, d, s);
    RemovedLeavesStep(t, [1, 5, 2], r);
    assert [1, 5, 2][1..] == [5, 2];
  }

  lemma TwoRemoves<W>(t: Layout<W>, b: W, d: W, s: Split)
    requires t == Layout([Inner(s), Empty, Empty, Empty, Empty, Leaf(b), Leaf(d),
                          Empty, Empty, Empty, Empty, Empty, Empty, Empty, Empty], 8)
    ensures WellSized(t)
    ensures RemovedLeaves(t, [5, 2]) == Some(Layout(Blank(15), 8))
  {
    var r := Layout([Inner(s), Empty, Leaf(d), Empty, Empty, Empty, Empty,
                     Empty, Empty, Empty, Empty, Empty, Empty, Empty, Empty], 8);
    RemovedFifteen(t, 5, r.nodes);
    OneRemove(r, d, s);
    RemovedLeavesStep(t, [5, 2], r);
    assert [5, 2][1..] == [2];
  }

  lemma OneRemove<W>(t: Layout<W>, d: W, s: Split)
    requires t == Layout([Inner(s), Empty, Leaf(d), Empty, Empty, Empty, Empty,
                          Empty, Empty, Empty, Empty, Empty, Empty, Empty, Empty], 8)
    ensures WellSized(t)
    ensures RemovedLeaves(t, [2]) == Some(Layout(Blank(15), 8))
  {
    var r := Layout(Blank<W>(15), 8);
    LastRemoved(t, d, s);
    RemovedLeavesStep(t, [2], r);
    assert [2][1..] == [];
  }

  lemma LastRemoved<W>(t: Layout<W>, d: W, s: Split)
    requires t == Layout([Inner(s), Empty, Leaf(d), Empty, Empty, Empty, Empty,
                          Empty, Empty, Empty, Empty, Empty, Empty, Empty, Empty], 8)
    ensures WellSized(t) && t.nodes[2].Leaf? && Removed(t, 2) == Layout(Blank(15), 8)
  {
    var c: seq<Node<W>> := [Empty, Empty, Empty, Empty, Empty, Empty, Empty,
                            Empty, Empty, Empty, Empty, Empty, Empty, Empty, Empty];
    RemovedFifteen(t, 2, c);
    FifteenBlank(c);
  }

  lemma FifteenBlank<W>(c: seq<Node<W>>)
    requires c == [Empty, Empty, Empty, Empty, Empty, Empty, Empty,
                   Empty, Empty, Empty, Empty, Empty, Empty, Empty, Empty]
    ensures c == Blank(15)
  {
  }
}
