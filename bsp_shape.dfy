/**
 * The shape `add_leaf` and the intended `remove` keep: every non-empty slot
 * below the root hangs from a split, and every split has two non-empty
 * children inside the vector. On a layout of that shape the leaves reached
 * from the root are its windows; `add_leaf` adds one and removing a leaf
 * (with the subtree lift) takes exactly one away.
 */
module BspShape {
  import opened Bsp

  /** Slot `j` is empty, the root, or a child of a split. */
  predicate Hung<W>(s: seq<Node<W>>, j: nat)
    requires j < |s|
  {
    j == 0 || s[j].Empty? || s[Parent(j)].Inner?
  }

  /** Slot `j`, when a split, has both children in the vector and non-empty. */
  predicate Carried<W>(s: seq<Node<W>>, j: nat)
    requires j < |s|
  {
    s[j].Inner? ==> 2 * j + 2 < |s| && !s[2 * j + 1].Empty? && !s[2 * j + 2].Empty?
  }

  predicate Shaped<W>(t: Layout<W>)
  {
    && WellSized(t)
    && (forall j :: 0 <= j < |t.nodes| ==> Hung(t.nodes, j))
    && (forall j :: 0 <= j < |t.nodes| ==> Carried(t.nodes, j))
  }

  /** The leaves reached from slot `a` through splits. */
  function LeafCount<W>(s: seq<Node<W>>, a: nat): nat
    decreases |s| - a
  {
    if a >= |s| then 0
    else match s[a]
      case Leaf(_) => 1
      case Empty => 0
      case Inner(_) => LeafCount(s, 2 * a + 1) + LeafCount(s, 2 * a + 2)
  }

  // ---------------------------------------------------------------------------
  // Counting leaves
  // ---------------------------------------------------------------------------

  lemma {:induction false} BelowRoot(e: nat)
    ensures Below(0, e)
    decreases e
  {
    if e > 0 {
      BelowRoot(Parent(e));
    }
  }

  /** Empty slots past position `n` hold no leaves. */
  lemma {:induction false} CountPrefix<W>(s: seq<Node<W>>, n: nat, a: nat)
    requires n <= |s| && forall i :: n <= i < |s| ==> s[i].Empty?
    ensures LeafCount(s[..n], a) == LeafCount(s, a)
    decreases |s| - a
  {
    if a < n {
      assert s[..n][a] == s[a];
      if s[a].Inner? {
        CountPrefix(s, n, 2 * a + 1);
        CountPrefix(s, n, 2 * a + 2);
      }
    }
  }

  /** Two vectors that agree on the subtree of `a` have the same leaves under `a`. */
  lemma {:induction false} CountAgree<W>(s1: seq<Node<W>>, s2: seq<Node<W>>, a: nat)
    requires |s1| == |s2|
    requires forall j :: 0 <= j < |s1| && Below(a, j) ==> s1[j] == s2[j]
    ensures LeafCount(s1, a) == LeafCount(s2, a)
    decreases |s1| - a
  {
    if a < |s1| {
      assert Below(a, a);
      if s1[a].Inner? {
        ParentOfChildren(a);
        forall j | 0 <= j < |s1| && Below(2 * a + 1, j)
          ensures s1[j] == s2[j]
        {
          BelowChild(a, 2 * a + 1, j);
        }
        forall j | 0 <= j < |s1| && Below(2 * a + 2, j)
          ensures s1[j] == s2[j]
        {
          BelowChild(a, 2 * a + 2, j);
        }
        CountAgree(s1, s2, 2 * a + 1);
        CountAgree(s1, s2, 2 * a + 2);
      }
    }
  }

  /**
   * Changing only the subtree of `p` changes the leaves under an ancestor
   * `a` by exactly the change under `p`, when the slots from `a` down to
   * `p`'s parent are splits.
   */
  lemma {:induction false} CountOutside<W>(s1: seq<Node<W>>, s2: seq<Node<W>>, a: nat, p: nat)
    requires |s1| == |s2| && Below(a, p)
    requires forall j :: 0 <= j < |s1| && !Below(p, j) ==> s1[j] == s2[j]
    requires p != a ==> Reached(s1, a, Parent(p))
    ensures LeafCount(s1, a) + LeafCount(s2, p) == LeafCount(s2, a) + LeafCount(s1, p)
    decreases p
  {
    if p != a {
      var q, sib := Parent(p), SideLeaf(p);
      SideLeafInvolutive(p);
      ParentOfChildren(q);
      assert !Below(p, q);
      forall j | 0 <= j < |s1| && Below(sib, j)
        ensures s1[j] == s2[j]
      {
        SiblingsDisjoint(p, j);
      }
      CountAgree(s1, s2, sib);
      forall j | 0 <= j < |s1| && !Below(q, j)
        ensures s1[j] == s2[j]
      {
        if Below(p, j) {
          BelowChild(q, p, j);
        }
      }
      CountOutside(s1, s2, a, q);
    }
  }

  /** A split's leaves include those of every slot it reaches. */
  lemma {:induction false} CountAncestor<W>(s: seq<Node<W>>, a: nat, p: nat)
    requires Below(a, p) && (p != a ==> Reached(s, a, Parent(p)))
    ensures LeafCount(s, p) <= LeafCount(s, a)
    decreases p
  {
    if p != a {
      ParentOfChildren(Parent(p));
      CountAncestor(s, a, Parent(p));
    }
  }

  // ---------------------------------------------------------------------------
  // Facts about shaped layouts
  // ---------------------------------------------------------------------------

  /** Every ancestor of a non-empty slot is a split reached from the root. */
  lemma {:induction false} AncestorsReached<W>(t: Layout<W>, j: nat)
    requires Shaped(t) && 0 < j < |t.nodes| && !t.nodes[j].Empty?
    ensures Reached(t.nodes, 0, Parent(j))
    decreases j
  {
    var q := Parent(j);
    assert Hung(t.nodes, j);
    if q > 0 {
      AncestorsReached(t, q);
    }
  }

  /** Every non-empty slot of a shaped layout has a leaf under it. */
  lemma {:induction false} NonEmptyHasLeaf<W>(t: Layout<W>, a: nat)
    requires Shaped(t) && a < |t.nodes| && !t.nodes[a].Empty?
    ensures LeafCount(t.nodes, a) >= 1
    decreases |t.nodes| - a
  {
    if t.nodes[a].Inner? {
      assert Carried(t.nodes, a);
      NonEmptyHasLeaf(t, 2 * a + 1);
    }
  }

  /** A leaf below the root of a shaped layout is never its only leaf. */
  lemma LeafHasCompany<W>(t: Layout<W>, ix: nat)
    requires Shaped(t) && 0 < ix < |t.nodes| && t.nodes[ix].Leaf?
    ensures LeafCount(t.nodes, 0) >= 2
  {
    var p, sib := Parent(ix), SideLeaf(ix);
    SiblingInBounds(t, ix);
    ParentOfChildren(p);
    assert Hung(t.nodes, ix) && Carried(t.nodes, p);
    NonEmptyHasLeaf(t, sib);
    assert LeafCount(t.nodes, p) >= 2;
    BelowRoot(p);
    if p > 0 {
      AncestorsReached(t, p);
    }
    CountAncestor(t.nodes, 0, p);
  }

  /** `empty()` is shaped and holds no leaf. */
  lemma EmptyShaped<W>()
    ensures Shaped(EmptyLayout<W>()) && LeafCount(EmptyLayout<W>().nodes, 0) == 0
  {
  }

  // ---------------------------------------------------------------------------
  // `add_leaf`
  // ---------------------------------------------------------------------------

  /** A prefix of a vector keeps the splits reached in it. */
  lemma {:induction false} ReachedGrown<W>(s: seq<Node<W>>, g: seq<Node<W>>, a: nat, q: nat)
    requires |s| <= |g| && g[..|s|] == s && Reached(s, a, q)
    ensures Reached(g, a, q)
    decreases q
  {
    assert g[q] == g[..|s|][q];
    if q != a {
      ReachedGrown(s, g, a, Parent(q));
    }
  }

  /**
   * `add_leaf` keeps the shape and adds exactly one leaf: the first empty
   * slot always hangs from a leaf, which becomes a split over itself and
   * the new window.
   */
  lemma InsertedShaped<W>(t: Layout<W>, e: W, s: Split)
    requires Shaped(t)
    ensures var ix := AddTarget(t.nodes);
      && (ix > 0 ==> Parent(ix) < |t.nodes|)
      && Shaped(Inserted(t, ix, e, s))
      && LeafCount(Inserted(t, ix, e, s).nodes, 0) == LeafCount(t.nodes, 0) + 1
  {
    var ix := AddTarget(t.nodes);
    if ix == 0 {
      InsertedAtRoot(t, e, s);
      var r := Inserted(t, 0, e, s);
      forall j | 0 <= j < |r.nodes|
        ensures Hung(r.nodes, j) && Carried(r.nodes, j)
      {
        assert Hung(t.nodes, j) && Carried(t.nodes, j);
      }
    } else {
      InsertedBelowRoot(t, ix, e, s);
      InsertedBelowRootShaped(t, ix, e, s);
    }
  }

  lemma InsertedBelowRootShaped<W>(t: Layout<W>, ix: nat, e: W, s: Split)
    requires Shaped(t) && ix > 0 && ix == AddTarget(t.nodes)
    ensures Parent(ix) < |t.nodes| && t.nodes[Parent(ix)].Leaf?
    ensures Shaped(Inserted(t, ix, e, s))
    ensures LeafCount(Inserted(t, ix, e, s).nodes, 0) == LeafCount(t.nodes, 0) + 1
  {
    var p := Parent(ix);
    ParentOfChildren(p);
    assert Carried(t.nodes, p);
    assert t.nodes[p].Leaf?;
    var r := Inserted(t, ix, e, s).nodes;
    InsertedSplitsLeaf(t, ix, e, s);
    forall j | 0 <= j < |r|
      ensures Hung(r, j) && Carried(r, j)
    {
      InsertedHung(t, r, p, j);
      InsertedCarried(t, r, p, j);
    }
    InsertedCount(t, ix, e, s);
  }

  /**
   * `r` is `t` grown with empty slots, with the leaf at `p` turned into a
   * split over two leaves.
   */
  ghost predicate SplitLeafAt<W>(r: seq<Node<W>>, t: seq<Node<W>>, p: nat)
  {
    && |t| <= |r| && 2 * p + 2 < |r|
    && r[p].Inner? && r[2 * p + 1].Leaf? && r[2 * p + 2].Leaf?
    && forall x :: 0 <= x < |r| && x != p && x != 2 * p + 1 && x != 2 * p + 2 ==>
         r[x] == (if x < |t| then t[x] else Empty)
  }

  lemma InsertedSplitsLeaf<W>(t: Layout<W>, ix: nat, e: W, s: Split)
    requires WellSized(t) && ix > 0 && Parent(ix) < |t.nodes| && t.nodes[Parent(ix)].Leaf?
    ensures SplitLeafAt(Inserted(t, ix, e, s).nodes, t.nodes, Parent(ix))
  {
    InsertedBelowRoot(t, ix, e, s);
  }

  /** After `insert` splits leaf `p`, every non-empty slot below the root hangs from a split. */
  lemma InsertedHung<W>(t: Layout<W>, r: seq<Node<W>>, p: nat, j: nat)
    requires Shaped(t) && p < |t.nodes| && t.nodes[p].Leaf? && SplitLeafAt(r, t.nodes, p) && j < |r|
    ensures Hung(r, j)
  {
    ParentOfChildren(p);
    if j == p {
      if p > 0 {
        assert Hung(t.nodes, p);
      }
    } else if j != 2 * p + 1 && j != 2 * p + 2 && j > 0 && !r[j].Empty? {
      assert Hung(t.nodes, j);
      assert Hung(t.nodes, Parent(j));
    }
  }

  /** After `insert` splits leaf `p`, every split has two non-empty children. */
  lemma InsertedCarried<W>(t: Layout<W>, r: seq<Node<W>>, p: nat, j: nat)
    requires Shaped(t) && p < |t.nodes| && t.nodes[p].Leaf? && SplitLeafAt(r, t.nodes, p) && j < |r|
    ensures Carried(r, j)
  {
    if j != p && j < |t.nodes| {
      assert Carried(t.nodes, j);
    }
  }

  /** `insert` below the root adds exactly one leaf under the root. */
  lemma InsertedCount<W>(t: Layout<W>, ix: nat, e: W, s: Split)
    requires Shaped(t) && ix > 0 && Parent(ix) < |t.nodes| && t.nodes[Parent(ix)].Leaf?
    ensures LeafCount(Inserted(t, ix, e, s).nodes, 0) == LeafCount(t.nodes, 0) + 1
  {
    var p := Parent(ix);
    ParentOfChildren(p);
    var g := GrownFor(t, p);
    var r := Inserted(t, ix, e, s);
    InsertedSplitsLeaf(t, ix, e, s);
    assert g.nodes[..|t.nodes|] == t.nodes;
    CountPrefix(g.nodes, |t.nodes|, 0);
    CountPrefix(g.nodes, |t.nodes|, p);
    assert Below(p, p) && Below(p, 2 * p + 1) && Below(p, 2 * p + 2);
    forall j | 0 <= j < |g.nodes| && !Below(p, j)
      ensures g.nodes[j] == r.nodes[j]
    {
    }
    BelowRoot(p);
    if p > 0 {
      AncestorsReached(t, p);
      ReachedGrown(t.nodes, g.nodes, 0, Parent(p));
    }
    CountOutside(g.nodes, r.nodes, 0, p);
  }

  // ---------------------------------------------------------------------------
  // `remove` with the subtree lift
  // ---------------------------------------------------------------------------

  /** `c` holds at `q`'s place under `to` what `s` holds at `q`, a slot under `from`. */
  ghost predicate MovedAt<W>(c: seq<Node<W>>, s: seq<Node<W>>, from: nat, to: nat, q: nat)
    requires Below(from, q)
  {
    Moved(q, from, to) < |c| ==> c[Moved(q, from, to)] == (if q < |s| then s[q] else Empty)
  }

  /** `c` holds at each slot under `to` what `s` holds at the same place under `from`. */
  ghost predicate MovedFrom<W>(c: seq<Node<W>>, s: seq<Node<W>>, from: nat, to: nat)
  {
    forall q: nat {:trigger MovedAt(c, s, from, to, q)} :: Below(from, q) ==> MovedAt(c, s, from, to, q)
  }

  lemma LiftedMovedFrom<W>(s: seq<Node<W>>, ix: nat)
    requires 0 < ix < |s|
    ensures MovedFrom(Lifted(s, Parent(ix), SideLeaf(ix)), s, SideLeaf(ix), Parent(ix))
  {
    var p, sib := Parent(ix), SideLeaf(ix);
    forall q: nat | Below(sib, q)
      ensures MovedAt(Lifted(s, p, sib), s, sib, p, q)
    {
      MovedBack(q, sib, p);
    }
  }

  /** A subtree moved up one level keeps its leaves: slot `k` of `s` lands at slot `j` of `c`. */
  lemma {:induction false} CountMoved<W>(c: seq<Node<W>>, s: seq<Node<W>>, from: nat, to: nat, k: nat, j: nat)
    requires |c| == |s| && to < from && Below(from, k) && j == Moved(k, from, to) && MovedFrom(c, s, from, to)
    ensures LeafCount(c, j) == LeafCount(s, k)
    decreases |s| - k
  {
    MovedUp(k, from, to);
    if j < |c| {
      assert MovedAt(c, s, from, to, k);
      if k < |s| && s[k].Inner? {
        MovedChildren(k, from, to);
        CountMoved(c, s, from, to, 2 * k + 1, 2 * j + 1);
        CountMoved(c, s, from, to, 2 * k + 2, 2 * j + 2);
        CountSplit(c, j);
        CountSplit(s, k);
      } else {
        assert c[j] == (if k < |s| then s[k] else Empty);
      }
    }
  }

  /** A split over leaf `ix` holds one leaf more than the sibling of `ix`. */
  lemma CountBesideLeaf<W>(s: seq<Node<W>>, ix: nat)
    requires 0 < ix < |s| && SideLeaf(ix) < |s| && s[ix].Leaf? && s[Parent(ix)].Inner?
    ensures LeafCount(s, Parent(ix)) == 1 + LeafCount(s, SideLeaf(ix))
  {
    ParentOfChildren(Parent(ix));
    CountSplit(s, Parent(ix));
  }

  /** A split holds the leaves of its two children. */
  lemma CountSplit<W>(s: seq<Node<W>>, k: nat)
    requires k < |s| && s[k].Inner?
    ensures LeafCount(s, k) == LeafCount(s, 2 * k + 1) + LeafCount(s, 2 * k + 2)
  {
  }

  /** The children of a moved slot are the moved children. */
  lemma MovedChildren(k: nat, from: nat, to: nat)
    requires Below(from, k)
    ensures Below(from, 2 * k + 1) && Below(from, 2 * k + 2)
    ensures Moved(2 * k + 1, from, to) == 2 * Moved(k, from, to) + 1
    ensures Moved(2 * k + 2, from, to) == 2 * Moved(k, from, to) + 2
  {
    ParentOfChildren(k);
    assert Below(from, 2 * k + 1) && Below(from, 2 * k + 2);
  }

  /** `c` keeps slot `x` of `s` unless `x` lies in the subtree of `p`. */
  ghost predicate KeptAt<W>(c: seq<Node<W>>, s: seq<Node<W>>, p: nat, x: nat)
    requires x < |c| && x < |s|
  {
    !Below(p, x) ==> c[x] == s[x]
  }

  /** `c` keeps every slot of `s` outside the subtree of `p`. */
  ghost predicate KeptOutside<W>(c: seq<Node<W>>, s: seq<Node<W>>, p: nat)
  {
    |c| == |s| && forall x :: 0 <= x < |s| ==> KeptAt(c, s, p, x)
  }

  lemma LiftedKeptOutside<W>(s: seq<Node<W>>, ix: nat)
    requires 0 < ix < |s|
    ensures KeptOutside(Lifted(s, Parent(ix), SideLeaf(ix)), s, Parent(ix))
  {
    var p, sib := Parent(ix), SideLeaf(ix);
    forall x | 0 <= x < |s|
      ensures KeptAt(Lifted(s, p, sib), s, p, x)
    {
    }
  }

  /** After the lift, every non-empty slot below the root still hangs from a split. */
  lemma LiftedHung<W>(t: Layout<W>, c: seq<Node<W>>, ix: nat, j: nat)
    requires Shaped(t) && 0 < ix < |t.nodes| && t.nodes[ix].Leaf? && j < |t.nodes|
    requires KeptOutside(c, t.nodes, Parent(ix)) && MovedFrom(c, t.nodes, SideLeaf(ix), Parent(ix))
    ensures Hung(c, j)
  {
    var p, sib := Parent(ix), SideLeaf(ix);
    SideLeafInvolutive(ix);
    if j > 0 && !c[j].Empty? {
      if !Below(p, j) {
        assert !Below(p, Parent(j));
        assert KeptAt(c, t.nodes, p, j) && KeptAt(c, t.nodes, p, Parent(j));
        assert Hung(t.nodes, j);
      } else if j == p {
        assert !Below(p, Parent(p));
        assert KeptAt(c, t.nodes, p, Parent(p));
        assert Below(sib, sib) && MovedAt(c, t.nodes, sib, p, sib);
        assert Hung(t.nodes, ix);
        SiblingInBounds(t, ix);
        assert Hung(t.nodes, p);
      } else {
        var q := Moved(j, p, sib);
        MovedBack(j, p, sib);
        assert MovedAt(c, t.nodes, sib, p, q);
        assert q != sib;
        assert Below(sib, Parent(q));
        MovedStep(q, sib, p);
        assert MovedAt(c, t.nodes, sib, p, Parent(q));
        assert Hung(t.nodes, q);
      }
    }
  }

  /** After the lift, every split still has two non-empty children in the vector. */
  lemma LiftedCarried<W>(t: Layout<W>, c: seq<Node<W>>, ix: nat, j: nat)
    requires Shaped(t) && 0 < ix < |t.nodes| && t.nodes[ix].Leaf? && j < |t.nodes|
    requires KeptOutside(c, t.nodes, Parent(ix)) && MovedFrom(c, t.nodes, SideLeaf(ix), Parent(ix))
    ensures Carried(c, j)
  {
    if c[j].Inner? {
      if !Below(Parent(ix), j) {
        LiftedCarriedOutside(t, c, ix, j);
      } else {
        LiftedCarriedInside(t, c, ix, j);
      }
    }
  }

  lemma LiftedCarriedOutside<W>(t: Layout<W>, c: seq<Node<W>>, ix: nat, j: nat)
    requires Shaped(t) && 0 < ix < |t.nodes| && t.nodes[ix].Leaf? && j < |t.nodes|
    requires KeptOutside(c, t.nodes, Parent(ix)) && MovedFrom(c, t.nodes, SideLeaf(ix), Parent(ix))
    requires !Below(Parent(ix), j) && c[j].Inner?
    ensures 2 * j + 2 < |c| && !c[2 * j + 1].Empty? && !c[2 * j + 2].Empty?
  {
    ParentOfChildren(j);
    assert KeptAt(c, t.nodes, Parent(ix), j);
    assert Carried(t.nodes, j);
    LiftedOutsideChild(t, c, ix, j, 2 * j + 1);
    LiftedOutsideChild(t, c, ix, j, 2 * j + 2);
  }

  lemma LiftedCarriedInside<W>(t: Layout<W>, c: seq<Node<W>>, ix: nat, j: nat)
    requires Shaped(t) && 0 < ix < |t.nodes| && t.nodes[ix].Leaf? && j < |t.nodes|
    requires KeptOutside(c, t.nodes, Parent(ix)) && MovedFrom(c, t.nodes, SideLeaf(ix), Parent(ix))
    requires Below(Parent(ix), j) && c[j].Inner?
    ensures 2 * j + 2 < |c| && !c[2 * j + 1].Empty? && !c[2 * j + 2].Empty?
  {
    var p, sib := Parent(ix), SideLeaf(ix);
    SideLeafInvolutive(ix);
    var q := Moved(j, p, sib);
    MovedBack(j, p, sib);
    assert MovedAt(c, t.nodes, sib, p, q);
    assert Carried(t.nodes, q);
    LiftedChildren(c, t.nodes, sib, p, q, j);
  }

  /** A non-empty child `ch` of a split `j` outside the parent's subtree stays non-empty. */
  lemma LiftedOutsideChild<W>(t: Layout<W>, c: seq<Node<W>>, ix: nat, j: nat, ch: nat)
    requires Shaped(t) && 0 < ix < |t.nodes| && t.nodes[ix].Leaf?
    requires KeptOutside(c, t.nodes, Parent(ix)) && MovedFrom(c, t.nodes, SideLeaf(ix), Parent(ix))
    requires j < ch < |t.nodes| && Parent(ch) == j && !Below(Parent(ix), j) && !t.nodes[ch].Empty?
    ensures !c[ch].Empty?
  {
    var p, sib := Parent(ix), SideLeaf(ix);
    if ch == p {
      SideLeafInvolutive(ix);
      ParentOfChildren(p);
      SiblingInBounds(t, ix);
      assert Hung(t.nodes, ix) && Carried(t.nodes, p);
      assert Below(sib, sib) && MovedAt(c, t.nodes, sib, p, sib);
    } else {
      assert !Below(p, ch);
      assert KeptAt(c, t.nodes, p, ch);
    }
  }

  /** The children of slot `k` under `from` land at the children of `k`'s moved place `j`. */
  lemma LiftedChildren<W>(c: seq<Node<W>>, s: seq<Node<W>>, from: nat, to: nat, k: nat, j: nat)
    requires |c| == |s| && to < from && Below(from, k) && MovedFrom(c, s, from, to)
    requires j == Moved(k, from, to) && 2 * k + 2 < |s|
    ensures 2 * j + 2 < |c| && c[2 * j + 1] == s[2 * k + 1] && c[2 * j + 2] == s[2 * k + 2]
  {
    MovedChildren(k, from, to);
    MovedUp(2 * k + 2, from, to);
    assert MovedAt(c, s, from, to, 2 * k + 1) && MovedAt(c, s, from, to, 2 * k + 2);
  }

  /** The lift itself keeps the shape and drops exactly the removed leaf. */
  lemma LiftedShaped<W>(t: Layout<W>, ix: nat)
    requires Shaped(t) && 0 < ix < |t.nodes| && t.nodes[ix].Leaf?
    ensures var c := Layout(Lifted(t.nodes, Parent(ix), SideLeaf(ix)), t.maxLevel);
      Shaped(c) && LeafCount(c.nodes, 0) + 1 == LeafCount(t.nodes, 0)
  {
    var p, sib := Parent(ix), SideLeaf(ix);
    var c := Lifted(t.nodes, p, sib);
    LiftedKeptOutside(t.nodes, ix);
    LiftedMovedFrom(t.nodes, ix);
    forall j | 0 <= j < |c|
      ensures Hung(c, j) && Carried(c, j)
    {
      LiftedHung(t, c, ix, j);
      LiftedCarried(t, c, ix, j);
    }
    LiftedCount(t, c, ix);
  }

  /** Moving the sibling's subtree up over its parent drops exactly the removed leaf. */
  lemma LiftedCount<W>(t: Layout<W>, c: seq<Node<W>>, ix: nat)
    requires Shaped(t) && 0 < ix < |t.nodes| && t.nodes[ix].Leaf?
    requires KeptOutside(c, t.nodes, Parent(ix)) && MovedFrom(c, t.nodes, SideLeaf(ix), Parent(ix))
    ensures LeafCount(c, 0) + 1 == LeafCount(t.nodes, 0)
  {
    var p, sib := Parent(ix), SideLeaf(ix);
    assert Hung(t.nodes, ix);
    SideLeafInvolutive(ix);
    SiblingInBounds(t, ix);
    ParentOfChildren(p);
    assert Below(sib, sib);
    CountMoved(c, t.nodes, sib, p, sib, p);
    CountBesideLeaf(t.nodes, ix);
    forall j | 0 <= j < |c| && !Below(p, j)
      ensures t.nodes[j] == c[j]
    {
      assert KeptAt(c, t.nodes, p, j);
    }
    BelowRoot(p);
    if p > 0 {
      AncestorsReached(t, p);
    }
    CountOutside(t.nodes, c, 0, p);
  }

  /**
   * `remove` with the subtree lift, on a slot holding a leaf, keeps the
   * shape and takes exactly that one leaf away.
   */
  lemma RemovedLiftingShaped<W>(t: Layout<W>, ix: nat)
    requires Shaped(t) && ix < |t.nodes| && t.nodes[ix].Leaf?
    ensures Shaped(RemovedLifting(t, ix))
    ensures LeafCount(RemovedLifting(t, ix).nodes, 0) + 1 == LeafCount(t.nodes, 0)
  {
    if ix > 0 {
      var c := Layout(Lifted(t.nodes, Parent(ix), SideLeaf(ix)), t.maxLevel);
      LiftedShaped(t, ix);
      var r := RemovedLifting(t, ix);
      if |r.nodes| < |t.nodes| {
        ShrinkRestores(c);
        ShrunkShaped(c);
      }
    }
  }

  /** Dropping an all-empty last level keeps the shape and every leaf. */
  lemma ShrunkShaped<W>(c: Layout<W>)
    requires Shaped(c) && c.maxLevel >= 2 && TailAllEmpty(c)
    ensures Shaped(Shrunk(c)) && LeafCount(Shrunk(c).nodes, 0) == LeafCount(c.nodes, 0)
  {
    var r := Shrunk(c);
    ShrinkRestores(c);
    assert r.nodes == c.nodes[..|r.nodes|];
    CountPrefix(c.nodes, |r.nodes|, 0);
    forall j | 0 <= j < |r.nodes|
      ensures Hung(r.nodes, j) && Carried(r.nodes, j)
    {
      assert Hung(c.nodes, j) && Carried(c.nodes, j);
    }
  }
}
