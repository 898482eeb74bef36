/**
 * The tiling tree of `bsplayout.rs`: a binary tree stored level by level in a
 * flat sequence of slots. Slot `i` has its children at `2i+1` and `2i+2`.
 *
 * The module has three parts: the index arithmetic, a value-level description
 * of every mutation (the `Layout` datatype and the functions over it), and the
 * `BspLayout` class whose methods update their fields in place and are proved
 * to agree with those functions.
 */
module Bsp {
  import opened Options
  import opened Geometry

  /** The axis of a split: `Horizontal` stacks top and bottom, `Vertical` left and right. */
  datatype Split = Horizontal | Vertical

  /**
   * One slot of the tree. `Inner` is the source's `Node::Node`; the source also
   * stores a proportion, which is created as 1/2 and never changed, so it is
   * left implicit here.
   */
  datatype Node<W> = Inner(split: Split) | Leaf(window: W) | Empty

  /** `is_empty`: the slot holds neither a split nor a window. */
  predicate IsEmpty<W>(n: Node<W>)
  {
    n.Empty?
  }

  /** `is_leaf`: the slot holds a window. */
  predicate IsLeaf<W>(n: Node<W>)
  {
    n.Leaf?
  }

  // ---------------------------------------------------------------------------
  // Index arithmetic
  // ---------------------------------------------------------------------------

  /** `get_parent` exactly as written, on integers: at the root it yields -1. */
  function ParentAsWritten(ix: int): (r: int)
    ensures ix == 0 ==> r == -1
    ensures ix > 0 ==> 0 <= r < ix && (ix == 2 * r + 1 || ix == 2 * r + 2)
  {
    (ix + 1) / 2 - 1
  }

  /** The parent slot; the root has none (the `usize` subtraction underflows there). */
  function Parent(ix: nat): (r: nat)
    requires ix > 0
    ensures r < ix
    ensures ix == 2 * r + 1 || ix == 2 * r + 2
  {
    (ix + 1) / 2 - 1
  }

  /** The other child of the same parent (`get_side_leaf`). */
  function SideLeaf(ix: nat): (r: nat)
    requires ix > 0
    ensures r > 0 && r != ix
    ensures r == (if ix == 2 * Parent(ix) + 1 then 2 * Parent(ix) + 2 else 2 * Parent(ix) + 1)
  {
    if (ix + 1) % 2 == 0 then ix + 1 else ix - 1
  }

  lemma ParentOfChildren(i: nat)
    ensures Parent(2 * i + 1) == i && Parent(2 * i + 2) == i
  {
  }

  lemma SideLeafInvolutive(i: nat)
    requires i > 0
    ensures SideLeaf(SideLeaf(i)) == i
    ensures Parent(SideLeaf(i)) == Parent(i)
  {
    ParentOfChildren(Parent(i));
  }

  /** In a debug build the very first `add_leaf` on a fresh layout panics: it targets slot 0. */
  lemma FirstAddLeafUnderflows()
    ensures AddTarget<int>([Empty]) == 0
    ensures ParentAsWritten(AddTarget<int>([Empty])) < 0
  {
  }

  // ---------------------------------------------------------------------------
  // The layout as a value
  // ---------------------------------------------------------------------------

  /** The fields of `BSPLayout`: the slots and the size of the last level grown. */
  datatype Layout<W> = Layout(nodes: seq<Node<W>>, maxLevel: nat)

  predicate IsPowerOfTwo(n: nat)
  {
    n == 1 || (n >= 2 && n % 2 == 0 && IsPowerOfTwo(n / 2))
  }

  /** The size invariant: one level of each size 1, 2, 4, ..., `maxLevel`. */
  predicate WellSized<W>(t: Layout<W>)
  {
    IsPowerOfTwo(t.maxLevel) && |t.nodes| == 2 * t.maxLevel - 1
  }

  /** What `BSPLayout::empty` builds. */
  function EmptyLayout<W>(): (t: Layout<W>)
    ensures WellSized(t) && |t.nodes| == 1 && t.nodes[0] == Empty
  {
    Layout([Empty], 1)
  }

  /** `increase_resolution`: double `maxLevel` and append that many empty slots. */
  function Expanded<W>(t: Layout<W>): (r: Layout<W>)
    ensures r.maxLevel == 2 * t.maxLevel
    ensures |r.nodes| == |t.nodes| + r.maxLevel
    ensures r.nodes[..|t.nodes|] == t.nodes
    ensures forall i :: |t.nodes| <= i < |r.nodes| ==> r.nodes[i] == Empty
    ensures WellSized(t) ==> WellSized(r)
  {
    var r := Layout(t.nodes + seq(2 * t.maxLevel, _ => Empty), 2 * t.maxLevel);
    assert r.nodes[..|t.nodes|] == t.nodes;
    r
  }

  /** `decrease_resolution`: drop the last `maxLevel` slots and halve `maxLevel`. */
  function Shrunk<W>(t: Layout<W>): (r: Layout<W>)
    requires t.maxLevel <= |t.nodes|
    ensures r.maxLevel == t.maxLevel / 2
    ensures |r.nodes| == |t.nodes| - t.maxLevel
    ensures forall i :: 0 <= i < |r.nodes| ==> r.nodes[i] == t.nodes[i]
    ensures WellSized(t) && t.maxLevel >= 2 ==> WellSized(r)
  {
    Layout(t.nodes[..|t.nodes| - t.maxLevel], t.maxLevel / 2)
  }

  /** Growing one level and shrinking it again gives back the same layout. */
  lemma ShrunkExpanded<W>(t: Layout<W>)
    ensures Shrunk(Expanded(t)) == t
  {
    assert Shrunk(Expanded(t)).nodes == Expanded(t).nodes[..|t.nodes|];
  }

  /** One growth step is enough to give any existing slot both its children. */
  lemma {:induction false} GrowthCoversChildren<W>(t: Layout<W>, p: nat)
    requires WellSized(t) && p < |t.nodes|
    ensures |t.nodes| <= 2 * p + 1 ==> 2 * p + 2 < |Expanded(t).nodes|
    ensures |t.nodes| > 2 * p + 1 ==> 2 * p + 2 < |t.nodes|
  {
  }

  /** True when some slot satisfies `!IsEmpty` (the source's iterator search). */
  function HasNonEmpty<W>(s: seq<Node<W>>): (r: bool)
    ensures r <==> exists i :: 0 <= i < |s| && !s[i].Empty?
  {
    if s == [] then false
    else if !s[0].Empty? then true
    else
      var rest := HasNonEmpty(s[1..]);
      assert forall i :: 1 <= i < |s| ==> s[i] == s[1..][i - 1];
      rest
  }

  /**
   * `can_decrease_resolution` as written: true when some slot of the last
   * level is NOT empty.
   */
  function TailHasNonEmpty<W>(t: Layout<W>): (r: bool)
    requires t.maxLevel <= |t.nodes|
    ensures r <==> exists i :: |t.nodes| - t.maxLevel <= i < |t.nodes| && !t.nodes[i].Empty?
  {
    var tail := t.nodes[|t.nodes| - t.maxLevel..];
    var r := HasNonEmpty(tail);
    assert forall i :: |t.nodes| - t.maxLevel <= i < |t.nodes| ==>
      t.nodes[i] == tail[i - (|t.nodes| - t.maxLevel)];
    r
  }

  /**
   * The first empty slot, or one past the end when there is none: the slot
   * `add_leaf` passes to `insert`.
   */
  function AddTarget<W>(s: seq<Node<W>>): (r: nat)
    ensures r <= |s|
    ensures r < |s| ==> s[r].Empty?
    ensures forall j :: 0 <= j < r ==> !s[j].Empty?
  {
    if s == [] then 0
    else if s[0].Empty? then 0
    else
      var r := 1 + AddTarget(s[1..]);
      assert forall j :: 1 <= j < r ==> s[j] == s[1..][j - 1];
      r
  }

  /**
   * `insert(ix, e, split)`: at the root, overwrite slot 0 with the leaf;
   * elsewhere grow once if the parent has no children yet, move the parent's
   * contents to its first child, put the leaf in the second child and turn
   * the parent into a split.
   */
  function Inserted<W>(t: Layout<W>, ix: nat, e: W, s: Split): (r: Layout<W>)
    requires WellSized(t)
    requires ix > 0 ==> Parent(ix) < |t.nodes|
    ensures WellSized(r)
  {
    if ix == 0 then
      Layout(t.nodes[0 := Leaf(e)], t.maxLevel)
    else
      SplitSlot(GrownFor(t, Parent(ix)), Parent(ix), e, s)
  }

  /** `insert(0, e, _)` overwrites the root with the leaf and changes nothing else. */
  lemma InsertedAtRoot<W>(t: Layout<W>, e: W, s: Split)
    requires WellSized(t)
    ensures var r := Inserted(t, 0, e, s);
      && r.maxLevel == t.maxLevel && |r.nodes| == |t.nodes| && r.nodes[0] == Leaf(e)
      && forall j :: 0 < j < |r.nodes| ==> r.nodes[j] == t.nodes[j]
  {
  }

  /**
   * `insert(ix, e, split)` below the root: the parent becomes a split, its
   * former contents move to the first child, the leaf goes to the second
   * child; every other slot keeps its contents, and growth appends only
   * empty slots.
   */
  lemma InsertedBelowRoot<W>(t: Layout<W>, ix: nat, e: W, s: Split)
    requires WellSized(t) && ix > 0 && Parent(ix) < |t.nodes|
    ensures var r := Inserted(t, ix, e, s); var p := Parent(ix);
      && r.maxLevel == (if |t.nodes| <= 2 * p + 1 then 2 * t.maxLevel else t.maxLevel)
      && 2 * p + 2 < |r.nodes|
      && r.nodes[p] == Inner(s)
      && r.nodes[2 * p + 1] == t.nodes[p]
      && r.nodes[2 * p + 2] == Leaf(e)
      && forall j :: 0 <= j < |r.nodes| && j != p && j != 2 * p + 1 && j != 2 * p + 2 ==>
           r.nodes[j] == (if j < |t.nodes| then t.nodes[j] else Empty)
  {
  }

  /** `add_leaf(e, split)`: `insert` at the first empty slot, or one past the end. */
  function AddedLeaf<W>(t: Layout<W>, e: W, s: Split): (r: Layout<W>)
    requires WellSized(t)
    ensures WellSized(r) && Leaf(e) in r.nodes
  {
    var ix := AddTarget(t.nodes);
    if ix == 0 then
      InsertedAtRoot(t, e, s);
      Inserted(t, 0, e, s)
    else
      InsertedBelowRoot(t, ix, e, s);
      var r := Inserted(t, ix, e, s);
      assert r.nodes[2 * Parent(ix) + 2] == Leaf(e);
      r
  }

  /** The growth step of `insert`: one more level when slot `p` has no children yet. */
  function GrownFor<W>(t: Layout<W>, p: nat): (g: Layout<W>)
    requires WellSized(t) && p < |t.nodes|
    ensures WellSized(g) && 2 * p + 2 < |g.nodes| && |t.nodes| <= |g.nodes|
    ensures g.maxLevel == (if |t.nodes| <= 2 * p + 1 then 2 * t.maxLevel else t.maxLevel)
    ensures forall j :: 0 <= j < |g.nodes| ==> g.nodes[j] == (if j < |t.nodes| then t.nodes[j] else Empty)
  {
    GrowthCoversChildren(t, p);
    if |t.nodes| <= 2 * p + 1 then Expanded(t) else t
  }

  /** The rest of `insert`: swap slot `p` with its first child, fill the second, split `p`. */
  function SplitSlot<W>(g: Layout<W>, p: nat, e: W, s: Split): (r: Layout<W>)
    requires 2 * p + 2 < |g.nodes|
    ensures r.maxLevel == g.maxLevel && |r.nodes| == |g.nodes|
    ensures r.nodes[p] == Inner(s) && r.nodes[2 * p + 1] == g.nodes[p] && r.nodes[2 * p + 2] == Leaf(e)
    ensures forall j :: 0 <= j < |r.nodes| && j != p && j != 2 * p + 1 && j != 2 * p + 2 ==> r.nodes[j] == g.nodes[j]
  {
    var swapped := g.nodes[2 * p + 1 := g.nodes[p]][p := g.nodes[2 * p + 1]];
    Layout(swapped[2 * p + 2 := Leaf(e)][p := Inner(s)], g.maxLevel)
  }

  /**
   * The first half of `remove(ix)` for `ix > 0`: the parent receives the
   * sibling's contents and both children become empty.
   */
  function Collapsed<W>(s: seq<Node<W>>, ix: nat): (r: seq<Node<W>>)
    requires 0 < ix < |s| && SideLeaf(ix) < |s|
    ensures |r| == |s|
    ensures r[Parent(ix)] == s[SideLeaf(ix)]
    ensures r[ix] == Empty && r[SideLeaf(ix)] == Empty
    ensures forall j :: 0 <= j < |s| && j != Parent(ix) && j != ix && j != SideLeaf(ix) ==> r[j] == s[j]
  {
    var p, sib := Parent(ix), SideLeaf(ix);
    s[p := s[sib]][sib := s[p]][ix := Empty][sib := Empty]
  }

  /** In a well-sized layout every non-root slot has its sibling in bounds. */
  lemma SiblingInBounds<W>(t: Layout<W>, ix: nat)
    requires WellSized(t) && 0 < ix < |t.nodes|
    ensures SideLeaf(ix) < |t.nodes|
  {
    var n := |t.nodes|;
    assert n == 2 * t.maxLevel - 1;
    if (ix + 1) % 2 == 0 {
      assert ix + 1 != n;
    }
  }

  /** The layout right after `remove(ix)`'s swap and two writes, before any shrinking. */
  function CollapsedLayout<W>(t: Layout<W>, ix: nat): (c: Layout<W>)
    requires WellSized(t) && 0 < ix < |t.nodes|
    ensures WellSized(c) && c.maxLevel == t.maxLevel
    ensures SideLeaf(ix) < |t.nodes| && c.nodes == Collapsed(t.nodes, ix)
  {
    SiblingInBounds(t, ix);
    Layout(Collapsed(t.nodes, ix), t.maxLevel)
  }

  /**
   * `remove(ix)`: at the root, the layout becomes `empty()`; elsewhere the
   * split collapses into the sibling and, when `can_decrease_resolution`
   * (as written) holds, the last level is dropped.
   */
  function Removed<W>(t: Layout<W>, ix: nat): (r: Layout<W>)
    requires WellSized(t) && ix < |t.nodes|
    ensures WellSized(r)
    ensures ix == 0 ==> r == EmptyLayout()
    ensures ix > 0 ==> Parent(ix) < |r.nodes| && r.nodes[Parent(ix)] == t.nodes[SideLeaf(ix)]
    ensures ix > 0 ==> |r.nodes| <= |t.nodes|
    ensures ix > 0 ==> forall j :: 0 <= j < |r.nodes| ==> r.nodes[j] == CollapsedLayout(t, ix).nodes[j]
    ensures ix > 0 ==> (|r.nodes| < |t.nodes| <==>
      exists i :: |t.nodes| - t.maxLevel <= i < |t.nodes| && !CollapsedLayout(t, ix).nodes[i].Empty?)
    ensures ix > 0 && |r.nodes| < |t.nodes| ==> r == Shrunk(CollapsedLayout(t, ix))
    ensures ix > 0 && |r.nodes| == |t.nodes| ==> r == CollapsedLayout(t, ix)
  {
    if ix == 0 then EmptyLayout()
    else
      var c := CollapsedLayout(t, ix);
      ParentAboveLastLevel(t, ix);
      if TailHasNonEmpty(c) then Shrunk(c) else c
  }

  /** A non-root slot's parent never lies in the last level. */
  lemma ParentAboveLastLevel<W>(t: Layout<W>, ix: nat)
    requires WellSized(t) && 0 < ix < |t.nodes|
    ensures Parent(ix) < |t.nodes| - t.maxLevel
  {
  }

  /** `remove(ix)` on a layout whose collapse `c` leaves something in the last level. */
  lemma RemovedTailOccupied<W>(t: Layout<W>, ix: nat, c: seq<Node<W>>, k: nat)
    requires WellSized(t) && 0 < ix < |t.nodes| && SideLeaf(ix) < |t.nodes| && Collapsed(t.nodes, ix) == c
    requires |c| - t.maxLevel <= k < |c| && !c[k].Empty?
    ensures Removed(t, ix) == Layout(c[..|c| - t.maxLevel], t.maxLevel / 2)
    ensures RemovedReclaiming(t, ix) == Layout(c, t.maxLevel)
  {
    assert CollapsedLayout(t, ix) == Layout(c, t.maxLevel);
    assert !TailAllEmpty(Layout(c, t.maxLevel));
  }

  /** `remove(ix)` on a layout whose collapse `c` leaves the last level empty. */
  lemma RemovedTailEmpty<W>(t: Layout<W>, ix: nat, c: seq<Node<W>>)
    requires WellSized(t) && 0 < ix < |t.nodes| && SideLeaf(ix) < |t.nodes| && Collapsed(t.nodes, ix) == c
    requires forall k :: |c| - t.maxLevel <= k < |c| ==> c[k].Empty?
    ensures Removed(t, ix) == Layout(c, t.maxLevel)
  {
    assert CollapsedLayout(t, ix) == Layout(c, t.maxLevel);
  }

  /** The collapse of `remove(ix)` on a concrete tree, checked slot by slot. */
  lemma CollapsedExample<W>(s: seq<Node<W>>, ix: nat, c: seq<Node<W>>)
    requires 0 < ix < |s| && SideLeaf(ix) < |s| && |c| == |s|
    requires c[Parent(ix)] == s[SideLeaf(ix)] && c[ix] == Empty && c[SideLeaf(ix)] == Empty
    requires forall j :: 0 <= j < |s| && j != Parent(ix) && j != ix && j != SideLeaf(ix) ==> c[j] == s[j]
    ensures Collapsed(s, ix) == c
  {
  }

  /** Seven slots with a last level of four are well sized. */
  lemma SevenSlots<W>(t: Layout<W>)
    requires |t.nodes| == 7 && t.maxLevel == 4
    ensures WellSized(t)
  {
    assert IsPowerOfTwo(4) by { assert IsPowerOfTwo(2); }
  }

  /** The collapse of `remove(6)` on a full four-leaf tree. */
  lemma TruncatingCollapse<W>(s: seq<Node<W>>, w1: W, w2: W, w3: W, w4: W)
    requires s == [Inner(Vertical), Inner(Horizontal), Inner(Horizontal), Leaf(w1), Leaf(w2), Leaf(w3), Leaf(w4)]
    ensures Collapsed(s, 6) == [Inner(Vertical), Inner(Horizontal), Leaf(w3), Leaf(w1), Leaf(w2), Empty, Empty]
    ensures Collapsed(s, 6)[..3] == [Inner(Vertical), Inner(Horizontal), Leaf(w3)]
  {
    var c := [Inner(Vertical), Inner(Horizontal), Leaf(w3), Leaf(w1), Leaf(w2), Empty, Empty];
    CollapsedExample(s, 6, c);
    assert c[..3] == [Inner(Vertical), Inner(Horizontal), Leaf(w3)];
  }

  /** The collapse of `remove(2)` on the tree `[V, H, w2, w1, w3, _, _]`. */
  lemma OrphaningCollapse<W>(s: seq<Node<W>>, w1: W, w2: W, w3: W)
    requires s == [Inner(Vertical), Inner(Horizontal), Leaf(w2), Leaf(w1), Leaf(w3), Empty, Empty]
    ensures Collapsed(s, 2) == [Inner(Horizontal), Empty, Empty, Leaf(w1), Leaf(w3), Empty, Empty]
    ensures Collapsed(s, 2)[..3] == [Inner(Horizontal), Empty, Empty]
  {
    var c := [Inner(Horizontal), Empty, Empty, Leaf(w1), Leaf(w3), Empty, Empty];
    CollapsedExample(s, 2, c);
    assert c[..3] == [Inner(Horizontal), Empty, Empty];
  }

  /**
   * `remove` as written can drop leaves: removing slot 6 from a full
   * four-leaf tree leaves leaves in the last level, so the inverted check
   * truncates them, and slot 1 is left a split whose children are gone.
   */
  lemma RemoveTruncatesLeaves<W>(t: Layout<W>, w1: W, w2: W, w3: W, w4: W)
    requires t == Layout([Inner(Vertical), Inner(Horizontal), Inner(Horizontal),
                          Leaf(w1), Leaf(w2), Leaf(w3), Leaf(w4)], 4)
    ensures WellSized(t)
    ensures Removed(t, 6) == Layout([Inner(Vertical), Inner(Horizontal), Leaf(w3)], 2)
  {
    SevenSlots(t);
    var c := [Inner(Vertical), Inner(Horizontal), Leaf(w3), Leaf(w1), Leaf(w2), Empty, Empty];
    TruncatingCollapse(t.nodes, w1, w2, w3, w4);
    RemovedTailOccupied(t, 6, c, 3);
  }

  /** What the name `can_decrease_resolution` promises: the last level is all empty. */
  predicate TailAllEmpty<W>(t: Layout<W>)
    requires t.maxLevel <= |t.nodes|
  {
    forall i :: |t.nodes| - t.maxLevel <= i < |t.nodes| ==> t.nodes[i].Empty?
  }

  /**
   * `remove` with the intended check: the shrink never truncates a leaf, and
   * it is undone by growing again. The collapse itself is still the one as
   * written, so the children of a split sibling are left behind
   * (`RemoveOrphansSubtree`); `RemovedLifting` corrects that as well.
   */
  function RemovedReclaiming<W>(t: Layout<W>, ix: nat): (r: Layout<W>)
    requires WellSized(t) && ix < |t.nodes|
    ensures WellSized(r)
    ensures ix == 0 ==> r == EmptyLayout()
    ensures ix > 0 ==> forall j :: 0 <= j < |t.nodes| && CollapsedLayout(t, ix).nodes[j].Leaf? ==>
      j < |r.nodes| && r.nodes[j] == CollapsedLayout(t, ix).nodes[j]
    ensures ix > 0 && |r.nodes| < |t.nodes| ==> Expanded(r) == CollapsedLayout(t, ix)
    ensures ix > 0 ==> (|r.nodes| < |t.nodes| <==> TailAllEmpty(CollapsedLayout(t, ix)))
    ensures ix > 0 && |r.nodes| >= |t.nodes| ==> r == CollapsedLayout(t, ix)
    ensures ix > 0 ==> ix >= |r.nodes| || r.nodes[ix].Empty?
  {
    if ix == 0 then EmptyLayout()
    else
      var c := CollapsedLayout(t, ix);
      if TailAllEmpty(c) then
        ShrinkRestores(c);
        Shrunk(c)
      else c
  }

  /** Dropping an all-empty last level keeps every leaf, and growing again undoes it. */
  lemma ShrinkRestores<W>(c: Layout<W>)
    requires WellSized(c) && c.maxLevel >= 2 && TailAllEmpty(c)
    ensures WellSized(Shrunk(c))
    ensures forall j :: 0 <= j < |c.nodes| && c.nodes[j].Leaf? ==> j < |Shrunk(c).nodes|
    ensures Expanded(Shrunk(c)) == c
  {
    var r := Shrunk(c);
    assert c.maxLevel % 2 == 0;
    assert Expanded(r).nodes == c.nodes;
  }

  /**
   * `remove` as written lifts only the sibling's own slot into the parent, so
   * a sibling that is a split leaves its children behind. Three `add_leaf`
   * calls build the tree `[V, H, w2, w1, w3, _, _]` (`ThreeLeaves`);
   * `remove(2)` leaves the split `H`
   * at the root with empty children, and the inverted check then truncates
   * leaves `w1` and `w3`. Even with the intended check they stay in the vector
   * under the empty slot 1, where no split reaches them.
   */
  lemma RemoveOrphansSubtree<W>(t: Layout<W>, w1: W, w2: W, w3: W)
    requires t == Layout([Inner(Vertical), Inner(Horizontal), Leaf(w2), Leaf(w1), Leaf(w3), Empty, Empty], 4)
    ensures WellSized(t)
    ensures Removed(t, 2) == Layout([Inner(Horizontal), Empty, Empty], 2)
    ensures RemovedReclaiming(t, 2) == Layout([Inner(Horizontal), Empty, Empty, Leaf(w1), Leaf(w3), Empty, Empty], 4)
  {
    SevenSlots(t);
    var c := [Inner(Horizontal), Empty, Empty, Leaf(w1), Leaf(w3), Empty, Empty];
    OrphaningCollapse(t.nodes, w1, w2, w3);
    RemovedTailOccupied(t, 2, c, 3);
  }

  /**
   * In the layout `RemovedReclaiming` leaves in `RemoveOrphansSubtree`, the
   * parent of leaves `w1` and `w3` is not a split reached from the root, so
   * `build_squares` gives them no rectangle.
   */
  lemma OrphansUnreached<W>(c: seq<Node<W>>, w1: W, w3: W)
    requires c == [Inner(Horizontal), Empty, Empty, Leaf(w1), Leaf(w3), Empty, Empty]
    ensures c[3] == Leaf(w1) && c[4] == Leaf(w3)
    ensures !Reached(c, 0, Parent(3)) && !Reached(c, 0, Parent(4))
  {
    assert Parent(3) == 1 && Parent(4) == 1;
  }

  /** Three `add_leaf` calls on a fresh layout build the tree of `RemoveOrphansSubtree`. */
  lemma ThreeLeaves()
    ensures
      var t0 := EmptyLayout<int>();
      var t1 := Inserted(t0, AddTarget(t0.nodes), 1, Vertical);
      var t2 := Inserted(t1, AddTarget(t1.nodes), 2, Vertical);
      var t3 := Inserted(t2, AddTarget(t2.nodes), 3, Horizontal);
      t3 == Layout([Inner(Vertical), Inner(Horizontal), Leaf(2), Leaf(1), Leaf(3), Empty, Empty], 4)
  {
    var t0 := EmptyLayout<int>();
    assert AddTarget(t0.nodes) == 0;
    var t1 := Inserted(t0, 0, 1, Vertical);
    assert t1 == Layout([Leaf(1)], 1);
    SecondLeaf(1, 2, Vertical);
    var t2 := Layout([Inner(Vertical), Leaf(1), Leaf(2)], 2);
    ThirdLeaf(t2);
  }

  /** `add_leaf(b, s)` on a layout holding only the leaf `a` splits the root. */
  lemma SecondLeaf<W>(a: W, b: W, s: Split)
    ensures WellSized(Layout([Leaf(a)], 1)) && AddTarget([Leaf(a)]) == 1
    ensures Inserted(Layout([Leaf(a)], 1), 1, b, s) == Layout([Inner(s), Leaf(a), Leaf(b)], 2)
  {
    assert AddTarget([Leaf(a)]) == 1 by { assert [Leaf(a)][1..] == []; }
    var t1 := Layout([Leaf(a)], 1);
    var r := Inserted(t1, 1, b, s);
    InsertedBelowRoot(t1, 1, b, s);
    assert |r.nodes| == 3;
  }

  lemma ThirdLeaf(t2: Layout<int>)
    requires t2 == Layout([Inner(Vertical), Leaf(1), Leaf(2)], 2)
    ensures WellSized(t2) && AddTarget(t2.nodes) == 3 && Parent(3) < |t2.nodes|
    ensures Inserted(t2, 3, 3, Horizontal) ==
      Layout([Inner(Vertical), Inner(Horizontal), Leaf(2), Leaf(1), Leaf(3), Empty, Empty], 4)
  {
    assert IsPowerOfTwo(2);
    assert AddTarget(t2.nodes) == 3 by {
      assert t2.nodes[1..] == [Leaf(1), Leaf(2)] && t2.nodes[1..][1..] == [Leaf(2)];
      assert t2.nodes[1..][1..][1..] == [];
    }
    var r := Inserted(t2, 3, 3, Horizontal);
    InsertedBelowRoot(t2, 3, 3, Horizontal);
    assert |r.nodes| == 7;
  }

  /**
   * The slot at the same place under `to` as `j` is under `from`: follow
   * the path from `from` down to `j`, starting at `to` instead.
   */
  function Moved(j: nat, from: nat, to: nat): (r: nat)
    requires Below(from, j)
    decreases j
  {
    if j == from then to
    else 2 * Moved(Parent(j), from, to) + (if j % 2 == 1 then 1 else 2)
  }

  /** A moved slot other than `to` is a child of the moved parent, on the same side. */
  lemma MovedStep(j: nat, from: nat, to: nat)
    requires Below(from, j) && j != from
    ensures Moved(j, from, to) > Moved(Parent(j), from, to)
    ensures Parent(Moved(j, from, to)) == Moved(Parent(j), from, to)
    ensures Moved(j, from, to) % 2 == j % 2
  {
    ParentOfChildren(Moved(Parent(j), from, to));
  }

  /** A moved slot lies below `to`. */
  lemma {:induction false} MovedBelow(j: nat, from: nat, to: nat)
    requires Below(from, j)
    ensures Below(to, Moved(j, from, to))
    decreases j
  {
    if j != from {
      MovedBelow(Parent(j), from, to);
      MovedStep(j, from, to);
    }
  }

  /** Moving back along the same path returns the slot one started from. */
  lemma {:induction false} MovedBack(j: nat, from: nat, to: nat)
    requires Below(from, j)
    ensures Below(to, Moved(j, from, to))
    ensures Moved(Moved(j, from, to), to, from) == j
    decreases j
  {
    MovedBelow(j, from, to);
    if j != from {
      MovedBack(Parent(j), from, to);
      MovedStep(j, from, to);
      var r := Moved(j, from, to);
      MovedStep(r, to, from);
      ParentOfChildren(Parent(j));
    }
  }

  /** Moving a subtree up never moves a slot to a larger index. */
  lemma {:induction false} MovedUp(j: nat, from: nat, to: nat)
    requires Below(from, j) && to < from
    ensures Moved(j, from, to) < j
    decreases j
  {
    if j != from {
      MovedUp(Parent(j), from, to);
    }
  }

  /**
   * The intended first half of `remove(ix)`: the whole subtree of the
   * sibling `sib` moves up one level to the parent `p`, replacing `p`'s
   * subtree; slots below `p` with nothing to receive become empty.
   */
  function Lifted<W>(s: seq<Node<W>>, p: nat, sib: nat): (r: seq<Node<W>>)
    ensures |r| == |s|
  {
    seq(|s|, j requires 0 <= j < |s| =>
      if Below(p, j) then (var k := Moved(j, p, sib); if k < |s| then s[k] else Empty) else s[j])
  }

  /**
   * Lifting keeps everything outside the parent's subtree, and every slot
   * of the sibling's subtree arrives at its place under the parent.
   */
  lemma LiftedKeepsSubtree<W>(s: seq<Node<W>>, ix: nat)
    requires 0 < ix < |s|
    ensures var p, sib, r := Parent(ix), SideLeaf(ix), Lifted(s, Parent(ix), SideLeaf(ix));
      && (sib < |s| ==> r[p] == s[sib])
      && (forall j :: 0 <= j < |s| && !Below(p, j) ==> r[j] == s[j])
      && (forall q :: 0 <= q < |s| && Below(sib, q) ==>
            Moved(q, sib, p) < |s| && r[Moved(q, sib, p)] == s[q])
  {
    var p, sib := Parent(ix), SideLeaf(ix);
    SideLeafInvolutive(ix);
    assert Below(p, p);
    forall q | 0 <= q < |s| && Below(sib, q)
      ensures Moved(q, sib, p) < |s| && Lifted(s, p, sib)[Moved(q, sib, p)] == s[q]
    {
      MovedBack(q, sib, p);
      MovedUp(q, sib, p);
    }
  }

  /** The subtrees of two siblings share no slot. */
  lemma {:induction false} SiblingsDisjoint(ix: nat, k: nat)
    requires ix > 0 && Below(SideLeaf(ix), k)
    ensures !Below(ix, k)
    decreases k
  {
    var sib := SideLeaf(ix);
    SideLeafInvolutive(ix);
    if k != sib {
      SiblingsDisjoint(ix, Parent(k));
    } else if k > ix {
      assert Parent(k) < ix;
    }
  }

  /**
   * After lifting, every non-empty slot of the parent's subtree holds what
   * its moved place in the sibling's subtree held, so nothing of the
   * removed slot's subtree survives.
   */
  lemma LiftedFromSibling<W>(s: seq<Node<W>>, ix: nat)
    requires 0 < ix < |s|
    ensures forall j :: 0 <= j < |s| && Below(Parent(ix), j) && !Lifted(s, Parent(ix), SideLeaf(ix))[j].Empty? ==>
      var k := Moved(j, Parent(ix), SideLeaf(ix));
      k < |s| && Lifted(s, Parent(ix), SideLeaf(ix))[j] == s[k] && Below(SideLeaf(ix), k) && !Below(ix, k)
  {
    var p, sib := Parent(ix), SideLeaf(ix);
    forall j | 0 <= j < |s| && Below(p, j) && !Lifted(s, p, sib)[j].Empty?
      ensures var k := Moved(j, p, sib); k < |s| && Lifted(s, p, sib)[j] == s[k] && Below(sib, k) && !Below(ix, k)
    {
      MovedBelow(j, p, sib);
      SiblingsDisjoint(ix, Moved(j, p, sib));
    }
  }

  /** Every split reached from the sibling is, after lifting, reached from the parent. */
  lemma {:induction false} LiftedKeepsSplits<W>(s: seq<Node<W>>, ix: nat, q: nat)
    requires 0 < ix < |s| && Reached(s, SideLeaf(ix), q)
    ensures Below(SideLeaf(ix), q)
    ensures Reached(Lifted(s, Parent(ix), SideLeaf(ix)), Parent(ix), Moved(q, SideLeaf(ix), Parent(ix)))
    decreases q
  {
    var p, sib := Parent(ix), SideLeaf(ix);
    LiftedKeepsSubtree(s, ix);
    if q != sib {
      LiftedKeepsSplits(s, ix, Parent(q));
      MovedStep(q, sib, p);
    }
  }

  /**
   * `remove` as intended: lift the sibling's subtree into the parent, then
   * drop the last level only when it is all empty. No leaf of the sibling's
   * subtree and no leaf outside the parent's subtree is lost.
   */
  function RemovedLifting<W>(t: Layout<W>, ix: nat): (r: Layout<W>)
    requires WellSized(t) && ix < |t.nodes|
    ensures WellSized(r)
    ensures ix == 0 ==> r == EmptyLayout()
    ensures ix > 0 ==> forall q :: 0 <= q < |t.nodes| && !Below(Parent(ix), q) && t.nodes[q].Leaf? ==>
      q < |r.nodes| && r.nodes[q] == t.nodes[q]
    ensures ix > 0 ==> forall q :: 0 <= q < |t.nodes| && Below(SideLeaf(ix), q) && !t.nodes[q].Empty? ==>
      Moved(q, SideLeaf(ix), Parent(ix)) < |r.nodes| && r.nodes[Moved(q, SideLeaf(ix), Parent(ix))] == t.nodes[q]
    ensures ix > 0 ==> |r.nodes| <= |t.nodes|
    ensures ix > 0 ==> forall j :: 0 <= j < |r.nodes| && !Below(Parent(ix), j) ==> r.nodes[j] == t.nodes[j]
    ensures ix > 0 ==> forall j :: 0 <= j < |r.nodes| && Below(Parent(ix), j) && !r.nodes[j].Empty? ==>
      var k := Moved(j, Parent(ix), SideLeaf(ix));
      k < |t.nodes| && r.nodes[j] == t.nodes[k] && Below(SideLeaf(ix), k) && !Below(ix, k)
    ensures ix > 0 ==> (|r.nodes| < |t.nodes| <==>
      TailAllEmpty(Layout(Lifted(t.nodes, Parent(ix), SideLeaf(ix)), t.maxLevel)))
    ensures ix > 0 && |r.nodes| < |t.nodes| ==>
      Expanded(r) == Layout(Lifted(t.nodes, Parent(ix), SideLeaf(ix)), t.maxLevel)
  {
    if ix == 0 then EmptyLayout()
    else
      var c := Layout(Lifted(t.nodes, Parent(ix), SideLeaf(ix)), t.maxLevel);
      LiftedKeepsSubtree(t.nodes, ix);
      LiftedFromSibling(t.nodes, ix);
      if TailAllEmpty(c) then
        ShrinkRestores(c);
        Shrunk(c)
      else c
  }

  /** On the tree of `RemoveOrphansSubtree`, lifting keeps leaves `w1` and `w3` under the root split. */
  lemma RemovedLiftingKeepsOrphans<W>(t: Layout<W>, w1: W, w2: W, w3: W)
    requires t == Layout([Inner(Vertical), Inner(Horizontal), Leaf(w2), Leaf(w1), Leaf(w3), Empty, Empty], 4)
    ensures RemovedLifting(t, 2) == Layout([Inner(Horizontal), Leaf(w1), Leaf(w3)], 2)
  {
    assert IsPowerOfTwo(4) by { assert IsPowerOfTwo(2); }
    var l := [Inner(Horizontal), Leaf(w1), Leaf(w3), Empty, Empty, Empty, Empty];
    LiftedExample(t.nodes, l, w1, w2, w3);
    assert TailAllEmpty(Layout(l, 4));
    assert l[..3] == [Inner(Horizontal), Leaf(w1), Leaf(w3)];
  }

  lemma LiftedExample<W>(s: seq<Node<W>>, l: seq<Node<W>>, w1: W, w2: W, w3: W)
    requires s == [Inner(Vertical), Inner(Horizontal), Leaf(w2), Leaf(w1), Leaf(w3), Empty, Empty]
    requires l == [Inner(Horizontal), Leaf(w1), Leaf(w3), Empty, Empty, Empty, Empty]
    ensures Lifted(s, 0, 1) == l
  {
    var r := Lifted(s, 0, 1);
    LiftedExampleTop(s, w1, w2, w3);
    LiftedExampleBottom(s);
    assert forall i :: 0 <= i < 7 ==> r[i] == l[i];
  }

  /** The first three slots after lifting slot 1 into the root of `[V, H, w2, w1, w3, _, _]`. */
  lemma LiftedExampleTop<W>(s: seq<Node<W>>, w1: W, w2: W, w3: W)
    requires s == [Inner(Vertical), Inner(Horizontal), Leaf(w2), Leaf(w1), Leaf(w3), Empty, Empty]
    ensures Lifted(s, 0, 1)[0] == Inner(Horizontal)
    ensures Lifted(s, 0, 1)[1] == Leaf(w1) && Lifted(s, 0, 1)[2] == Leaf(w3)
  {
    assert Below(0, 0) && Below(0, 1) && Below(0, 2);
    assert Moved(1, 0, 1) == 3 && Moved(2, 0, 1) == 4;
  }

  /** Lifting into the root of a seven-slot tree leaves the last level empty. */
  lemma LiftedExampleBottom<W>(s: seq<Node<W>>)
    requires |s| == 7
    ensures forall i :: 3 <= i < 7 ==> Lifted(s, 0, 1)[i] == Empty
  {
    assert Below(0, 3) && Moved(3, 0, 1) == 7;
    assert Below(0, 4) && Moved(4, 0, 1) == 8;
    assert Below(0, 5) && Moved(5, 0, 1) == 9;
    assert Below(0, 6) && Moved(6, 0, 1) == 10;
  }

  /**
   * `interchange_leaf(ix, ix2)` as written: it tests `nodes[ix]` twice, so it
   * swaps whenever slot `ix` holds a leaf, whatever slot `ix2` holds; slot
   * `ix2` is only indexed when it does.
   */
  function Interchanged<W>(s: seq<Node<W>>, ix: nat, ix2: nat): (r: seq<Node<W>>)
    requires ix < |s| && (s[ix].Leaf? ==> ix2 < |s|)
    ensures |r| == |s| && multiset(r) == multiset(s)
    ensures !s[ix].Leaf? ==> r == s
    ensures s[ix].Leaf? ==> r[ix] == s[ix2] && r[ix2] == s[ix]
    ensures s[ix].Leaf? ==> forall k :: 0 <= k < |s| && k != ix && k != ix2 ==> r[k] == s[k]
  {
    if s[ix].Leaf? && s[ix].Leaf? then s[ix := s[ix2]][ix2 := s[ix]] else s
  }

  /** The intended `interchange_leaf`: swap only when both slots hold leaves. */
  function InterchangedLeaves<W>(s: seq<Node<W>>, ix: nat, ix2: nat): (r: seq<Node<W>>)
    requires ix < |s| && ix2 < |s|
    ensures |r| == |s| && multiset(r) == multiset(s)
    ensures forall k :: 0 <= k < |s| ==> (r[k].Leaf? <==> s[k].Leaf?)
    ensures forall k :: 0 <= k < |s| && !s[k].Leaf? ==> r[k] == s[k]
    ensures s[ix].Leaf? && s[ix2].Leaf? ==> r[ix] == s[ix2] && r[ix2] == s[ix]
    ensures !(s[ix].Leaf? && s[ix2].Leaf?) ==> r == s
    ensures forall k :: 0 <= k < |s| && k != ix && k != ix2 ==> r[k] == s[k]
  {
    if s[ix].Leaf? && s[ix2].Leaf? then s[ix := s[ix2]][ix2 := s[ix]] else s
  }

  /** As written, a leaf can be swapped with the root split, breaking the tree's shape. */
  lemma InterchangeMovesInner()
    ensures Interchanged([Inner(Vertical), Leaf(1), Leaf(2)], 1, 0) == [Leaf(1), Inner(Vertical), Leaf(2)]
    ensures InterchangedLeaves([Inner(Vertical), Leaf(1), Leaf(2)], 1, 0) == [Inner(Vertical), Leaf(1), Leaf(2)]
    ensures Interchanged([Inner(Vertical), Leaf(1), Leaf(2)], 0, 7) == [Inner(Vertical), Leaf(1), Leaf(2)]
  {
  }

  // ---------------------------------------------------------------------------
  // Geometry: `map_nodes_from` and the rectangle division of `build_squares`
  // ---------------------------------------------------------------------------

  /** The slots `map_nodes_from(ix, ..)` indexes never go out of bounds. */
  predicate InBounds<W>(nodes: seq<Node<W>>, ix: nat)
    decreases |nodes| - ix
  {
    ix < |nodes| && (nodes[ix].Inner? ==> InBounds(nodes, 2 * ix + 1) && InBounds(nodes, 2 * ix + 2))
  }

  /** `e` is `a` or lies in the subtree below `a`. */
  predicate Below(a: nat, e: nat)
    decreases e
  {
    e == a || (e > a && Below(a, Parent(e)))
  }

  /** `p` is a split reached from `ix` through splits only. */
  predicate Reached<W>(nodes: seq<Node<W>>, ix: nat, p: nat)
    decreases p
  {
    p < |nodes| && nodes[p].Inner? && (p == ix || (p > ix && Reached(nodes, ix, Parent(p))))
  }

  /**
   * The slots `map_nodes_from(ix, mapper)` hands to `mapper`, in order:
   * a split, then everything under its first child, then under its second.
   */
  function Visit<W>(nodes: seq<Node<W>>, ix: nat): (r: seq<nat>)
    requires InBounds(nodes, ix)
    decreases |nodes| - ix
    ensures nodes[ix].Inner? <==> r != []
    ensures r != [] ==> r[0] == ix
  {
    if nodes[ix].Inner? then [ix] + Visit(nodes, 2 * ix + 1) + Visit(nodes, 2 * ix + 2) else []
  }

  /** Only splits are visited, and each has both children in bounds. */
  lemma {:induction false} VisitSplits<W>(nodes: seq<Node<W>>, ix: nat)
    requires InBounds(nodes, ix)
    decreases |nodes| - ix
    ensures forall k :: 0 <= k < |Visit(nodes, ix)| ==>
      2 * Visit(nodes, ix)[k] + 2 < |nodes| && nodes[Visit(nodes, ix)[k]].Inner?
  {
    if nodes[ix].Inner? {
      var a, b := Visit(nodes, 2 * ix + 1), Visit(nodes, 2 * ix + 2);
      VisitSplits(nodes, 2 * ix + 1);
      VisitSplits(nodes, 2 * ix + 2);
      var v := Visit(nodes, ix);
      assert v == [ix] + a + b;
      forall k | 0 <= k < |v| ensures 2 * v[k] + 2 < |nodes| && nodes[v[k]].Inner? {
        if k == 0 {
        } else if k <= |a| {
          assert v[k] == a[k - 1];
        } else {
          assert v[k] == b[k - 1 - |a|];
        }
      }
    }
  }

  lemma {:induction false} BelowChild(ix: nat, c: nat, e: nat)
    requires c > 0 && Parent(c) == ix && Below(c, e)
    ensures Below(ix, e)
    decreases e
  {
    if e != c {
      BelowChild(ix, c, Parent(e));
    }
  }

  /** Two slots with a common descendant are ordered by ancestry. */
  lemma {:induction false} BelowLinear(a: nat, b: nat, e: nat)
    requires Below(a, e) && Below(b, e)
    ensures Below(a, b) || Below(b, a)
    decreases e
  {
    if e != a && e != b {
      BelowLinear(a, b, Parent(e));
    }
  }

  lemma {:induction false} VisitBelow<W>(nodes: seq<Node<W>>, ix: nat)
    requires InBounds(nodes, ix)
    decreases |nodes| - ix
    ensures forall k :: 0 <= k < |Visit(nodes, ix)| ==> Below(ix, Visit(nodes, ix)[k]) && ix <= Visit(nodes, ix)[k]
  {
    if nodes[ix].Inner? {
      var a, b := Visit(nodes, 2 * ix + 1), Visit(nodes, 2 * ix + 2);
      VisitBelow(nodes, 2 * ix + 1);
      VisitBelow(nodes, 2 * ix + 2);
      ParentOfChildren(ix);
      forall k | 0 <= k < |a| ensures Below(ix, a[k]) {
        BelowChild(ix, 2 * ix + 1, a[k]);
      }
      forall k | 0 <= k < |b| ensures Below(ix, b[k]) {
        BelowChild(ix, 2 * ix + 2, b[k]);
      }
    }
  }

  /** `map_nodes_from` never hands the same slot to `mapper` twice. */
  lemma {:induction false} VisitDistinct<W>(nodes: seq<Node<W>>, ix: nat)
    requires InBounds(nodes, ix)
    decreases |nodes| - ix
    ensures forall k, m :: 0 <= k < m < |Visit(nodes, ix)| ==> Visit(nodes, ix)[k] != Visit(nodes, ix)[m]
  {
    if nodes[ix].Inner? {
      var c1, c2 := 2 * ix + 1, 2 * ix + 2;
      var a, b := Visit(nodes, c1), Visit(nodes, c2);
      var r := Visit(nodes, ix);
      assert r == [ix] + a + b;
      VisitDistinct(nodes, c1);
      VisitDistinct(nodes, c2);
      VisitBelow(nodes, c1);
      VisitBelow(nodes, c2);
      ParentOfChildren(ix);
      forall k, m | 0 <= k < m < |r| ensures r[k] != r[m] {
        if k == 0 {
          if m <= |a| { assert Below(c1, r[m]) by { assert r[m] == a[m - 1]; } }
          else { assert Below(c2, r[m]) by { assert r[m] == b[m - 1 - |a|]; } }
        } else if m <= |a| {
          assert r[k] == a[k - 1] && r[m] == a[m - 1];
        } else if k > |a| {
          assert r[k] == b[k - 1 - |a|] && r[m] == b[m - 1 - |a|];
        } else {
          assert r[k] == a[k - 1] && r[m] == b[m - 1 - |a|];
          if r[k] == r[m] {
            BelowLinear(c1, c2, r[k]);
            assert false;
          }
        }
      }
    }
  }

  /** Pre-order: no slot is handed to `mapper` after one of its children. */
  lemma {:induction false} VisitParentFirst<W>(nodes: seq<Node<W>>, ix: nat)
    requires InBounds(nodes, ix)
    decreases |nodes| - ix
    ensures forall m, k :: 0 <= m < k < |Visit(nodes, ix)| && Visit(nodes, ix)[m] > 0 ==>
      Parent(Visit(nodes, ix)[m]) != Visit(nodes, ix)[k]
  {
    if nodes[ix].Inner? {
      var c1, c2 := 2 * ix + 1, 2 * ix + 2;
      var a, b := Visit(nodes, c1), Visit(nodes, c2);
      var r := Visit(nodes, ix);
      assert r == [ix] + a + b;
      VisitParentFirst(nodes, c1);
      VisitParentFirst(nodes, c2);
      VisitBelow(nodes, c1);
      VisitBelow(nodes, c2);
      ParentOfChildren(ix);
      forall m, k | 0 <= m < k < |r| && r[m] > 0 ensures Parent(r[m]) != r[k] {
        if m == 0 {
          assert r[k] >= c1 by {
            if k <= |a| { assert r[k] == a[k - 1]; } else { assert r[k] == b[k - 1 - |a|]; }
          }
        } else if k <= |a| {
          assert r[m] == a[m - 1] && r[k] == a[k - 1];
        } else if m > |a| {
          assert r[m] == b[m - 1 - |a|] && r[k] == b[k - 1 - |a|];
        } else {
          assert r[m] == a[m - 1] && r[k] == b[k - 1 - |a|];
          NotParentAcross(c1, c2, r[m], r[k]);
        }
      }
    }
  }

  /** A slot under the first child never has its parent under the second child. */
  lemma NotParentAcross(c1: nat, c2: nat, e: nat, q: nat)
    requires c1 > 0 && c2 == c1 + 1 && c1 % 2 == 1
    requires Below(c1, e) && Below(c2, q) && e > 0
    ensures Parent(e) != q
  {
    if e != c1 && Parent(e) == q {
      BelowLinear(c1, c2, q);
    }
  }

  lemma {:induction false} ReachedExtend<W>(nodes: seq<Node<W>>, ix: nat, c: nat, p: nat)
    requires c > 0 && Parent(c) == ix && ix < |nodes| && nodes[ix].Inner? && Reached(nodes, c, p)
    ensures Reached(nodes, ix, p)
    decreases p
  {
    if p != c {
      ReachedExtend(nodes, ix, c, Parent(p));
    }
  }

  /** A split child of a visited slot is visited too. */
  lemma {:induction false} VisitClosed<W>(nodes: seq<Node<W>>, ix: nat, q: nat, c: nat)
    requires InBounds(nodes, ix) && q in Visit(nodes, ix)
    requires c == 2 * q + 1 || c == 2 * q + 2
    requires c < |nodes| && nodes[c].Inner?
    ensures c in Visit(nodes, ix)
    decreases |nodes| - ix
  {
    var c1, c2 := 2 * ix + 1, 2 * ix + 2;
    assert Visit(nodes, ix) == [ix] + Visit(nodes, c1) + Visit(nodes, c2);
    if q == ix {
      assert c == Visit(nodes, c)[0];
    } else if q in Visit(nodes, c1) {
      VisitClosed(nodes, c1, q, c);
    } else {
      VisitClosed(nodes, c2, q, c);
    }
  }

  /**
   * `map_nodes_from(ix, ..)` visits exactly the splits reached from `ix`
   * through splits.
   */
  lemma VisitExactlyReached<W>(nodes: seq<Node<W>>, ix: nat, p: nat)
    requires InBounds(nodes, ix)
    ensures p in Visit(nodes, ix) <==> Reached(nodes, ix, p)
  {
    if p in Visit(nodes, ix) {
      VisitOnlyReached(nodes, ix, p);
    }
    if Reached(nodes, ix, p) {
      ReachedBack(nodes, ix, p);
    }
  }

  lemma {:induction false} VisitOnlyReached<W>(nodes: seq<Node<W>>, ix: nat, p: nat)
    requires InBounds(nodes, ix) && p in Visit(nodes, ix)
    ensures Reached(nodes, ix, p)
    decreases |nodes| - ix
  {
    var c1, c2 := 2 * ix + 1, 2 * ix + 2;
    assert Visit(nodes, ix) == [ix] + Visit(nodes, c1) + Visit(nodes, c2);
    ParentOfChildren(ix);
    if p == ix {
    } else if p in Visit(nodes, c1) {
      VisitOnlyReached(nodes, c1, p);
      ReachedExtend(nodes, ix, c1, p);
    } else {
      VisitOnlyReached(nodes, c2, p);
      ReachedExtend(nodes, ix, c2, p);
    }
  }

  lemma {:induction false} ReachedBack<W>(nodes: seq<Node<W>>, ix: nat, p: nat)
    requires InBounds(nodes, ix) && Reached(nodes, ix, p)
    ensures p in Visit(nodes, ix)
    decreases p
  {
    if p == ix {
      assert Visit(nodes, ix)[0] == ix;
    } else {
      ReachedBack(nodes, ix, Parent(p));
      VisitClosed(nodes, ix, Parent(p), p);
    }
  }

  /**
   * The rectangles `build_squares` gives the two children of a split over `r`,
   * as written. With proportion 1/2, `ceil(n * 0.5)` is `(n + 1) / 2` and
   * `floor(n * 0.5)` is `n / 2`. A horizontal split subtracts from the WIDTH
   * in `u32`, so it needs `r.height / 2 <= r.width`.
   */
  predicate NoUnderflow(r: Rectangle, s: Split)
  {
    s == Horizontal ==> r.height / 2 <= r.width
  }

  function SplitRect(r: Rectangle, s: Split): (children: (Rectangle, Rectangle))
    requires NoUnderflow(r, s)
    ensures var (fst, snd) := children;
      s == Vertical ==>
        && fst == Rectangle(r.x, r.y, (r.width + 1) / 2, r.height)
        && snd == Rectangle(r.width - r.width / 2, r.y, (r.width + 1) / 2, r.height)
    ensures var (fst, snd) := children;
      s == Horizontal ==>
        && fst == Rectangle(r.x, (r.height + 1) / 2, r.width, (r.height + 1) / 2)
        && snd == Rectangle(r.x, r.y, r.width, r.width - r.height / 2)
  {
    if s == Horizontal then
      var half := (r.height + 1) / 2;
      (r.(y := half, height := half), r.(height := r.width - r.height / 2))
    else
      var half := (r.width + 1) / 2;
      (r.(width := half), r.(width := half, x := r.width - r.width / 2))
  }

  /**
   * The intended division: the two children tile the parent exactly, the
   * first one taking the larger half.
   */
  function SplitRectTiled(r: Rectangle, s: Split): (children: (Rectangle, Rectangle))
    ensures var (fst, snd) := children;
      s == Horizontal ==>
        && fst.x == snd.x == r.x && fst.width == snd.width == r.width
        && fst.y == r.y && snd.y == fst.y + fst.height
        && fst.height + snd.height == r.height && snd.height <= fst.height <= snd.height + 1
    ensures var (fst, snd) := children;
      s == Vertical ==>
        && fst.y == snd.y == r.y && fst.height == snd.height == r.height
        && fst.x == r.x && snd.x == fst.x + fst.width
        && fst.width + snd.width == r.width && snd.width <= fst.width <= snd.width + 1
  {
    if s == Horizontal then
      var half := (r.height + 1) / 2;
      (r.(height := half), r.(y := r.y + half, height := r.height - half))
    else
      var half := (r.width + 1) / 2;
      (r.(width := half), r.(x := r.x + half, width := r.width - half))
  }

  /**
   * As written, the division does not tile in general. On a 100x100 screen
   * a horizontal split still covers the screen, but with the halves in
   * swapped order: the first at y = 50 and the second at y = 0. On a 200x100
   * screen the second half is 150 high and runs past the screen.
   */
  lemma SplitRectDoesNotTile()
    ensures SplitRect(Rectangle(0, 0, 100, 100), Horizontal) ==
      (Rectangle(0, 50, 100, 50), Rectangle(0, 0, 100, 50))
    ensures SplitRect(Rectangle(0, 0, 200, 100), Horizontal).1.height == 150
    ensures SplitRectTiled(Rectangle(0, 0, 200, 100), Horizontal) ==
      (Rectangle(0, 0, 200, 50), Rectangle(0, 50, 200, 50))
  {
  }

  /** The rectangle a child slot `j` receives from its parent's split over `r`. */
  function ChildRect(r: Rectangle, s: Split, j: nat): Rectangle
    requires NoUnderflow(r, s)
  {
    if j % 2 == 1 then SplitRect(r, s).0 else SplitRect(r, s).1
  }

  /** Slot `j`'s rectangle is its share of its parent's split. */
  predicate HalvedFrom<W>(nodes: seq<Node<W>>, squares: seq<Option<Rectangle>>, j: nat)
    requires 0 < j < |nodes| && |squares| == |nodes|
  {
    var p := Parent(j);
    && squares[p].Some? && nodes[p].Inner? && NoUnderflow(squares[p].value, nodes[p].split)
    && squares[j] == Some(ChildRect(squares[p].value, nodes[p].split, j))
  }

  /**
   * What `build_squares(rect)` demands so as not to panic while walking from
   * slot `ix`: every slot it indexes exists, and no horizontal split
   * underflows its `u32` subtraction.
   */
  predicate Traversable<W>(nodes: seq<Node<W>>, ix: nat, rect: Rectangle)
    decreases |nodes| - ix
  {
    && ix < |nodes|
    && (nodes[ix].Inner? ==>
         && NoUnderflow(rect, nodes[ix].split)
         && Traversable(nodes, 2 * ix + 1, SplitRect(rect, nodes[ix].split).0)
         && Traversable(nodes, 2 * ix + 2, SplitRect(rect, nodes[ix].split).1))
  }

  lemma {:induction false} TraversableInBounds<W>(nodes: seq<Node<W>>, ix: nat, rect: Rectangle)
    requires Traversable(nodes, ix, rect)
    ensures InBounds(nodes, ix)
    decreases |nodes| - ix
  {
    if nodes[ix].Inner? {
      TraversableInBounds(nodes, 2 * ix + 1, SplitRect(rect, nodes[ix].split).0);
      TraversableInBounds(nodes, 2 * ix + 2, SplitRect(rect, nodes[ix].split).1);
    }
  }

  /** The vector `build_squares` starts from, as written: the root's slot only. */
  function SquaresAsAllocated(root: Rectangle): seq<Option<Rectangle>>
  {
    [Some(root)]
  }

  /**
   * As allocated, the first split `map_nodes_from` hands to the closure is
   * the root, whose first child's slot lies past the end of the vector.
   */
  lemma FirstSplitOutOfBounds<W>(nodes: seq<Node<W>>, root: Rectangle)
    requires InBounds(nodes, 0) && nodes[0].Inner?
    ensures Visit(nodes, 0)[0] == 0
    ensures 2 * Visit(nodes, 0)[0] + 1 >= |SquaresAsAllocated(root)|
  {
  }

  // ---------------------------------------------------------------------------
  // The layout object
  // ---------------------------------------------------------------------------

  /** `BSPLayout<W>`: the slots and `max_level`, updated in place. */
  class BspLayout<W> {
    var nodes: seq<Node<W>>
    var maxLevel: nat

    function Model(): Layout<W>
      reads this
    {
      Layout(nodes, maxLevel)
    }

    ghost predicate Valid()
      reads this
    {
      WellSized(Model())
    }

    /** `BSPLayout::empty`: a single empty root. */
    constructor ()
      ensures Valid() && Model() == EmptyLayout()
    {
      nodes := [Empty];
      maxLevel := 1;
    }

    /** `find`: the first slot, in storage order, that satisfies `query` (the source's `predicate`). */
    method Find(query: Node<W> -> bool) returns (found: Option<nat>)
      ensures found.Some? ==> found.value < |nodes| && query(nodes[found.value])
      ensures found.Some? ==> forall j :: 0 <= j < found.value ==> !query(nodes[j])
      ensures found.None? <==> forall j :: 0 <= j < |nodes| ==> !query(nodes[j])
    {
      var ix := 0;
      found := None;
      while ix < |nodes| && found.None?
        invariant ix <= |nodes|
        invariant forall j :: 0 <= j < ix ==> !query(nodes[j])
        invariant found.Some? ==> found.value == ix && ix < |nodes| && query(nodes[ix])
        decreases |nodes| - ix, if found.None? then 1 else 0
      {
        if query(nodes[ix]) {
          found := Some(ix);
        } else {
          ix := ix + 1;
        }
      }
    }

    /** `add_leaf`: insert at the first empty slot, or just past the end. */
    method AddLeaf(elem: W, split: Split)
      requires Valid()
      modifies this
      ensures Valid()
      ensures Model() == AddedLeaf(old(Model()), elem, split)
    {
      var found := Find(IsEmpty);
      var ix := if found.Some? then found.value else |nodes|;
      AddTargetUnique(nodes, ix);
      Insert(ix, elem, split);
    }

    /** `insert`. */
    method Insert(ix: nat, elem: W, split: Split)
      requires Valid()
      requires ix > 0 ==> Parent(ix) < |nodes|
      modifies this
      ensures Valid()
      ensures Model() == Inserted(old(Model()), ix, elem, split)
    {
      if ix == 0 {
        nodes := nodes[0 := Leaf(elem)];
      } else {
        var parent := Parent(ix);
        ghost var grown := GrownFor(Model(), parent);
        GrowthCoversChildren(Model(), parent);
        if |nodes| <= 2 * parent + 1 {
          IncreaseResolution();
        }
        assert Model() == grown;
        nodes := nodes[2 * parent + 1 := nodes[parent]][parent := nodes[2 * parent + 1]];
        nodes := nodes[2 * parent + 2 := Leaf(elem)];
        nodes := nodes[parent := Inner(split)];
        assert Model() == SplitSlot(grown, parent, elem, split);
      }
    }

    /** `remove`. */
    method Remove(ix: nat)
      requires Valid() && ix < |nodes|
      modifies this
      ensures Valid()
      ensures Model() == Removed(old(Model()), ix)
    {
      if ix == 0 {
        nodes := [Empty];
        maxLevel := 1;
      } else {
        SiblingInBounds(Model(), ix);
        var parent := Parent(ix);
        var sibling := SideLeaf(ix);
        nodes := nodes[parent := nodes[sibling]][sibling := nodes[parent]];
        nodes := nodes[ix := Empty];
        nodes := nodes[sibling := Empty];
        if CanDecreaseResolution() {
          DecreaseResolution();
        }
      }
    }

    /** `interchange_leaf`, with its condition as written. */
    method InterchangeLeaf(ix: nat, ix2: nat)
      requires ix < |nodes| && (nodes[ix].Leaf? ==> ix2 < |nodes|)
      modifies this
      ensures nodes == Interchanged(old(nodes), ix, ix2) && maxLevel == old(maxLevel)
      ensures old(Valid()) ==> Valid()
    {
      if IsLeaf(nodes[ix]) && IsLeaf(nodes[ix]) {
        nodes := nodes[ix := nodes[ix2]][ix2 := nodes[ix]];
      }
    }

    /** `increase_resolution`. */
    method IncreaseResolution()
      modifies this
      ensures Model() == Expanded(old(Model()))
    {
      maxLevel := 2 * maxLevel;
      nodes := nodes + seq(maxLevel, _ => Empty);
    }

    /** `decrease_resolution`; the `usize` subtraction needs `maxLevel <= |nodes|`. */
    method DecreaseResolution()
      requires maxLevel <= |nodes|
      modifies this
      ensures Model() == Shrunk(old(Model()))
    {
      nodes := nodes[..|nodes| - maxLevel];
      maxLevel := maxLevel / 2;
    }

    /** `can_decrease_resolution`, as written. */
    function CanDecreaseResolution(): (r: bool)
      reads this
      requires maxLevel <= |nodes|
      ensures r <==> exists i :: |nodes| - maxLevel <= i < |nodes| && !nodes[i].Empty?
    {
      TailHasNonEmpty(Model())
    }

    /**
     * `build_squares(root)`: slot 0 gets `root`; walking the splits in the
     * order of `map_nodes_from(0, ..)`, each split hands its rectangle's two
     * halves to its children. Every other slot stays `None`.
     */
    method BuildSquares(root: Rectangle) returns (squares: seq<Option<Rectangle>>)
      requires Traversable(nodes, 0, root)
      ensures |squares| == |nodes| && squares[0] == Some(root)
      ensures forall j :: 0 <= j < |nodes| && squares[j].Some? ==> Traversable(nodes, j, squares[j].value)
      ensures forall j :: 1 <= j < |nodes| ==> (squares[j].Some? <==> Reached(nodes, 0, Parent(j)))
      ensures forall j :: 1 <= j < |nodes| && Reached(nodes, 0, Parent(j)) ==> HalvedFrom(nodes, squares, j)
      ensures !nodes[0].Inner? ==> forall j :: 1 <= j < |nodes| ==> squares[j] == None
    {
      TraversableInBounds(nodes, 0, root);
      var order := Visit(nodes, 0);
      var n := |nodes|;
      squares := [Some(root)] + seq(n - 1, _ => None);
      FilledStart(nodes, order, squares, root);
      for k := 0 to |order|
        invariant Filled(nodes, order, k, squares, root)
      {
        var q := order[k];
        FillReady(nodes, order, k, squares, root);
        var rect := squares[q].value;
        var (fst, snd) := SplitRect(rect, nodes[q].split);
        ghost var before := squares;
        squares := squares[2 * q + 1 := Some(fst)][2 * q + 2 := Some(snd)];
        FillStep(nodes, order, k, before, squares, root);
      }
      FilledDone(nodes, order, squares, root);
    }
  }

  /**
   * A session on a fresh layout: `add_leaf(a, Vertical)` makes `a` the
   * root, `add_leaf(b, Horizontal)` splits it into `a` above `b`, and
   * `remove(2)` brings `a` back to the root, leaving the grown level empty.
   */
  method AddTwoRemoveOne<W>(a: W, b: W) returns (nodes: seq<Node<W>>, maxLevel: nat)
    ensures nodes == [Leaf(a), Empty, Empty] && maxLevel == 2
  {
    var layout := new BspLayout<W>();
    assert AddTarget(layout.nodes) == 0;
    layout.AddLeaf(a, Vertical);
    assert layout.Model() == Layout([Leaf(a)], 1);
    SecondLeaf(a, b, Horizontal);
    layout.AddLeaf(b, Horizontal);
    assert layout.Model() == Layout([Inner(Horizontal), Leaf(a), Leaf(b)], 2);
    RemovedSecondLeaf(a, b, Horizontal);
    layout.Remove(2);
    nodes, maxLevel := layout.nodes, layout.maxLevel;
  }

  /** `remove(2)` on a root split over `a` and `b` gives back the root leaf `a`. */
  lemma RemovedSecondLeaf<W>(a: W, b: W, s: Split)
    ensures WellSized(Layout([Inner(s), Leaf(a), Leaf(b)], 2))
    ensures Removed(Layout([Inner(s), Leaf(a), Leaf(b)], 2), 2) == Layout([Leaf(a), Empty, Empty], 2)
  {
    var t := Layout([Inner(s), Leaf(a), Leaf(b)], 2);
    assert IsPowerOfTwo(2);
    var c := [Leaf(a), Empty, Empty];
    assert Collapsed(t.nodes, 2) == c by {
      var r := Collapsed(t.nodes, 2);
      assert Parent(2) == 0 && SideLeaf(2) == 1;
      assert r[0] == c[0] && r[1] == c[1] && r[2] == c[2];
    }
    RemovedTailEmpty(t, 2, c);
  }

  /**
   * The intended `remove(2)` on a root split over `a` and `b` also drops
   * the emptied last level, leaving the single leaf `a`.
   */
  lemma RemovedLiftingSecondLeaf<W>(a: W, b: W, s: Split)
    ensures WellSized(Layout([Inner(s), Leaf(a), Leaf(b)], 2))
    ensures RemovedLifting(Layout([Inner(s), Leaf(a), Leaf(b)], 2), 2) == Layout([Leaf(a)], 1)
  {
    var t := Layout([Inner(s), Leaf(a), Leaf(b)], 2);
    assert IsPowerOfTwo(2);
    var l := Lifted(t.nodes, 0, 1);
    assert Parent(2) == 0 && SideLeaf(2) == 1;
    assert l[0] == Leaf(a) by { assert Below(0, 0); }
    assert l[1] == Empty by { assert Below(0, 1) && Moved(1, 0, 1) == 3; }
    assert l[2] == Empty by { assert Below(0, 2) && Moved(2, 0, 1) == 4; }
    assert TailAllEmpty(Layout(l, 2));
    assert l[..1] == [Leaf(a)];
  }

  /** The slot `add_leaf` computes from `find(is_empty)` is `AddTarget`. */
  lemma AddTargetUnique<W>(s: seq<Node<W>>, ix: nat)
    requires ix <= |s|
    requires ix < |s| ==> s[ix].Empty?
    requires forall j :: 0 <= j < ix ==> !s[j].Empty?
    ensures ix == AddTarget(s)
  {
  }

  /** The splits `build_squares` walks are exactly those reached from the root. */
  lemma OrderIsReached<W>(nodes: seq<Node<W>>, order: seq<nat>)
    requires InBounds(nodes, 0) && order == Visit(nodes, 0)
    ensures forall p :: p in order <==> Reached(nodes, 0, p)
  {
    forall p ensures p in order <==> Reached(nodes, 0, p) {
      VisitExactlyReached(nodes, 0, p);
    }
  }

  /**
   * The state of `build_squares` after handling the first `k` splits of
   * `order`: slot 0 holds `root`, every assigned rectangle can be walked
   * without panicking, and exactly the children of handled splits hold
   * their parent's halves.
   */
  predicate Filled<W>(nodes: seq<Node<W>>, order: seq<nat>, k: nat, squares: seq<Option<Rectangle>>, root: Rectangle)
    requires k <= |order|
  {
    && 0 < |nodes| && |squares| == |nodes| && squares[0] == Some(root)
    && (forall j :: 0 <= j < |nodes| && squares[j].Some? ==> Traversable(nodes, j, squares[j].value))
    && (forall j :: 1 <= j < |nodes| ==> (squares[j].Some? <==> Parent(j) in order[..k]))
    && (forall j :: 1 <= j < |nodes| && Parent(j) in order[..k] ==> HalvedFrom(nodes, squares, j))
  }

  lemma FilledStart<W>(nodes: seq<Node<W>>, order: seq<nat>, squares: seq<Option<Rectangle>>, root: Rectangle)
    requires Traversable(nodes, 0, root)
    requires squares == [Some(root)] + seq(|nodes| - 1, _ => None)
    ensures Filled(nodes, order, 0, squares, root)
  {
  }

  /** After the last split, `Filled` is the contract of `build_squares`. */
  lemma FilledDone<W>(nodes: seq<Node<W>>, order: seq<nat>, squares: seq<Option<Rectangle>>, root: Rectangle)
    requires InBounds(nodes, 0) && order == Visit(nodes, 0)
    requires Filled(nodes, order, |order|, squares, root)
    ensures |squares| == |nodes| && squares[0] == Some(root)
    ensures forall j :: 0 <= j < |nodes| && squares[j].Some? ==> Traversable(nodes, j, squares[j].value)
    ensures forall j :: 1 <= j < |nodes| ==> (squares[j].Some? <==> Reached(nodes, 0, Parent(j)))
    ensures forall j :: 1 <= j < |nodes| && Reached(nodes, 0, Parent(j)) ==> HalvedFrom(nodes, squares, j)
    ensures !nodes[0].Inner? ==> forall j :: 1 <= j < |nodes| ==> squares[j] == None
  {
    assert order[..|order|] == order;
    OrderIsReached(nodes, order);
  }

  /** Before `build_squares` handles the `k`-th split, that split already has its rectangle. */
  lemma FillReady<W>(nodes: seq<Node<W>>, order: seq<nat>, k: nat, squares: seq<Option<Rectangle>>, root: Rectangle)
    requires InBounds(nodes, 0) && order == Visit(nodes, 0) && k < |order|
    requires Filled(nodes, order, k, squares, root)
    ensures order[k] < |nodes| && 2 * order[k] + 2 < |nodes| && nodes[order[k]].Inner?
    ensures squares[order[k]].Some? && NoUnderflow(squares[order[k]].value, nodes[order[k]].split)
  {
    var q := order[k];
    VisitSplits(nodes, 0);
    assert 2 * q + 2 < |nodes| && nodes[q].Inner?;
    if q > 0 {
      ParentHandledFirst(nodes, order, k);
    }
    assert squares[q].Some?;
    assert Traversable(nodes, q, squares[q].value);
  }

  /** The parent of a split other than the root is handled before it. */
  lemma ParentHandledFirst<W>(nodes: seq<Node<W>>, order: seq<nat>, k: nat)
    requires InBounds(nodes, 0) && order == Visit(nodes, 0) && k < |order| && order[k] > 0
    ensures Parent(order[k]) in order[..k]
  {
    var q := order[k];
    assert q in order;
    VisitExactlyReached(nodes, 0, q);
    assert Reached(nodes, 0, Parent(q));
    VisitExactlyReached(nodes, 0, Parent(q));
    var m :| 0 <= m < |order| && order[m] == Parent(q);
    VisitParentFirst(nodes, 0);
    assert m < k;
    assert order[..k][m] == Parent(q);
  }

  /** One step of `build_squares` keeps `Filled`. */
  lemma FillStep<W>(nodes: seq<Node<W>>, order: seq<nat>, k: nat,
                    before: seq<Option<Rectangle>>, after: seq<Option<Rectangle>>, root: Rectangle)
    requires InBounds(nodes, 0) && order == Visit(nodes, 0) && k < |order|
    requires Filled(nodes, order, k, before, root)
    requires order[k] < |nodes| && 2 * order[k] + 2 < |nodes| && nodes[order[k]].Inner?
    requires before[order[k]].Some?
    requires var q := order[k]; var r := before[q].value;
      NoUnderflow(r, nodes[q].split) &&
      after == before[2 * q + 1 := Some(SplitRect(r, nodes[q].split).0)]
                     [2 * q + 2 := Some(SplitRect(r, nodes[q].split).1)]
    ensures Filled(nodes, order, k + 1, after, root)
  {
    VisitParentFirst(nodes, 0);
    var q := order[k];
    ParentOfChildren(q);
    FillKeepsTraversable(nodes, q, before, after);
    forall j | 1 <= j < |nodes| ensures (after[j].Some? <==> Parent(j) in order[..k + 1]) {
      PrefixStep(order, k, Parent(j));
      if j != 2 * q + 1 && j != 2 * q + 2 {
        assert after[j] == before[j];
      }
    }
    forall j | 1 <= j < |nodes| && Parent(j) in order[..k + 1] ensures HalvedFrom(nodes, after, j) {
      PrefixStep(order, k, Parent(j));
      if j != 2 * q + 1 && j != 2 * q + 2 {
        FilledParentUntouched(order, k, Parent(j));
      }
      HalvedAfterStep(nodes, q, before, after, j);
    }
  }

  /** After one step, a child of the handled split, or a slot halved earlier, is halved from its parent. */
  lemma HalvedAfterStep<W>(nodes: seq<Node<W>>, q: nat,
                           before: seq<Option<Rectangle>>, after: seq<Option<Rectangle>>, j: nat)
    requires |before| == |nodes| && q < |nodes| && nodes[q].Inner? && 2 * q + 2 < |nodes|
    requires before[q].Some?
    requires var r := before[q].value;
      NoUnderflow(r, nodes[q].split) &&
      after == before[2 * q + 1 := Some(SplitRect(r, nodes[q].split).0)]
                     [2 * q + 2 := Some(SplitRect(r, nodes[q].split).1)]
    requires 0 < j < |nodes|
    requires j == 2 * q + 1 || j == 2 * q + 2 ||
      (j != 2 * q + 1 && j != 2 * q + 2 && Parent(j) != 2 * q + 1 && Parent(j) != 2 * q + 2 &&
       HalvedFrom(nodes, before, j))
    ensures HalvedFrom(nodes, after, j)
  {
    ParentOfChildren(q);
  }

  /** Handing a split's halves to its children keeps every assigned rectangle traversable. */
  lemma FillKeepsTraversable<W>(nodes: seq<Node<W>>, q: nat,
                                before: seq<Option<Rectangle>>, after: seq<Option<Rectangle>>)
    requires |before| == |nodes| && q < |nodes| && nodes[q].Inner? && 2 * q + 2 < |nodes|
    requires forall j :: 0 <= j < |nodes| && before[j].Some? ==> Traversable(nodes, j, before[j].value)
    requires before[q].Some?
    requires var r := before[q].value;
      NoUnderflow(r, nodes[q].split) &&
      after == before[2 * q + 1 := Some(SplitRect(r, nodes[q].split).0)]
                     [2 * q + 2 := Some(SplitRect(r, nodes[q].split).1)]
    ensures forall j :: 0 <= j < |nodes| && after[j].Some? ==> Traversable(nodes, j, after[j].value)
  {
    assert Traversable(nodes, q, before[q].value);
    forall j | 0 <= j < |nodes| && after[j].Some? ensures Traversable(nodes, j, after[j].value) {
      if j != 2 * q + 1 && j != 2 * q + 2 {
        assert after[j] == before[j];
      }
    }
  }

  lemma PrefixStep(order: seq<nat>, k: nat, x: nat)
    requires k < |order|
    ensures x in order[..k + 1] <==> x in order[..k] || x == order[k]
  {
    assert order[..k + 1] == order[..k] + [order[k]];
  }

  /** A split handled before the `k`-th one is never a child of it. */
  lemma FilledParentUntouched(order: seq<nat>, k: nat, p: nat)
    requires k < |order| && p in order[..k]
    requires forall m, i :: 0 <= m < i < |order| && order[m] > 0 ==> Parent(order[m]) != order[i]
    ensures p != 2 * order[k] + 1 && p != 2 * order[k] + 2
  {
    var m :| 0 <= m < k && order[..k][m] == p;
    assert order[m] == p;
    ParentOfChildren(order[k]);
  }
}
