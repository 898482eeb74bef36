# A verified model of lanta's tiling tree and screen bookkeeping

lanta is a small X11 tiling window manager written in Rust. This project
models two of its files in Dafny and proves properties of the model.

- `src/bsplayout.rs`: the binary space partitioning layout `BSPLayout<W>`.
  - It is a binary tree stored level by level in one flat vector of slots, so slot `i` has its children at `2i+1` and `2i+2`.
  - The vector grows and shrinks a whole level at a time and keeps a `max_level` counter.
  - `build_squares` walks the splits in pre-order and hands each child a rectangle.
- `src/window_set.rs`: the bookkeeping for screens, docks and workspaces.
  - A screen's viewport is what the docks' struts leave free.
  - Docks are added and removed.
  - `WindowSet::new` pairs screens with workspaces.

Files:

- `options.dfy`: the `Option` datatype.
- `geometry.dfy`: the value types of `src/utils.rs` (`Rectangle`, `Reserved`, `ScreenInfo`), with unbounded naturals for the source's `u32` and `u8`.
- `bsp_layout.dfy`: module `Bsp`, in three parts.
  - Index arithmetic.
  - A value-level description of every mutation: functions over the datatype `Layout(nodes, maxLevel)`.
  - The class `BspLayout`, whose fields `nodes` and `maxLevel` change in place. Every mutating method is proved to leave `Model()` equal to the corresponding function of the old `Model()`.
  - The class methods follow the code as written, with two exceptions where the code as written panics: `build_squares` allocates one slot per layout slot, and `get_parent` is never applied to slot 0. Where the code disagrees with its own comments or with what its names promise, the corrected definition stands beside the as-written one, with the intended property proved (see Findings).
- `bsp_shape.dfy`: module `BspShape`, the shape that `add_leaf` and the intended `remove` keep.
  - Every non-empty slot below the root hangs from a split, and every split has two non-empty children inside the vector.
  - `LeafCount` counts the leaves reached from the root through splits.
  - On a layout of that shape, `add_leaf` adds exactly one leaf, and removing a leaf with the subtree lift takes exactly one away.
- `bsp_sessions.dfy`: module `BspSessions`, sessions of `add_leaf` calls followed by `remove` calls.
  - With the intended `remove`, `n` adds followed by `n` removals of leaves give back `empty()`.
  - With the code as written, a five-leaf session does not.
- `windowsets.dfy`: module `WindowSets`.
  - The strut fold and viewport.
  - The `retain` of `remove_dock`.
  - The zip of screens with workspace indices.
  - The classes `Screen` and `WindowSet`.

How the source's behaviour maps into Dafny:

- Integer arithmetic: a `usize` or `u32` subtraction that would underflow, and so panic or wrap, becomes a precondition.
  - For `build_squares` this precondition is `Traversable`. It says exactly that no index goes out of bounds and no horizontal split subtracts below zero during the walk.
  - For `viewport` it is `StrutsFit`. It says the widest left and right struts fit in the width, and the widest top and bottom struts fit in the height.
- The split proportion is an `f64` that is always created as `0.5` (`src/bsplayout.rs:109`) and never changed. So `ceil(n * 0.5)` is modelled as `(n + 1) / 2` and `floor(n * 0.5)` as `n / 2`.
- The `build_squares` walk: `map_nodes_from` calls the `FnMut` closure in sequence. This is the function `Visit`, the list of slots it hands to the closure. `build_squares` is a loop over that list that fills `squares`.
- `Screen::viewport` is `ViewportOf` applied to the screen's docks. `WindowSet::contains` is membership in the `windowsStatus` map.

## Model

| member | source | states |
|---|---|---|
| `Bsp.IsEmpty` | src/bsplayout.rs:24-29 | no contract of its own: the discriminator `Empty?`; `find(is_empty)` is characterised by `Bsp.AddTargetUnique` and `Bsp.BspLayout.Find` |
| `Bsp.IsLeaf` | src/bsplayout.rs:31-36 | no contract of its own: the discriminator `Leaf?`; its use in `interchange_leaf` is characterised by `Bsp.Interchanged` |
| `Bsp.ParentAsWritten` | src/bsplayout.rs:56-58 | `get_parent` on integers: at slot 0 it yields -1, the value a `usize` cannot hold; for `ix > 0` it is a non-negative index below `ix` of which `ix` is a child |
| `Bsp.Parent` | src/bsplayout.rs:55-58 | defined only for `ix > 0`; the result is below `ix`, and `ix` is one of its two children |
| `Bsp.SideLeaf` | src/bsplayout.rs:47-53 | for `ix > 0`, the result is the other child of `ix`'s parent |
| `Bsp.ParentOfChildren` | src/bsplayout.rs:55-58 | `get_parent(2i+1) == get_parent(2i+2) == i` for every `i` |
| `Bsp.SideLeafInvolutive` | src/bsplayout.rs:47-58 | for `i > 0`, the sibling of the sibling is `i`, and siblings share their parent |
| `Bsp.FirstAddLeafUnderflows` | src/bsplayout.rs:98 | on a fresh layout `add_leaf` targets slot 0, and `get_parent(0)` as written is -1, an unsigned underflow |
| `Bsp.EmptyLayout` | src/bsplayout.rs:61-67 | `empty()` is one empty slot with `max_level` 1, and it meets the size invariant (the vector has `2*max_level - 1` slots, `max_level` a power of two) |
| `Bsp.Expanded` | src/bsplayout.rs:204-207 | `increase_resolution` doubles `max_level`, keeps every slot, appends exactly that many `Empty` slots, and preserves the size invariant |
| `Bsp.Shrunk` | src/bsplayout.rs:209-212 | `decrease_resolution` drops the last `max_level` slots, keeps the rest unchanged and halves `max_level`; it preserves the size invariant when `max_level >= 2` |
| `Bsp.ShrunkExpanded` | src/bsplayout.rs:204-212 | shrinking right after growing gives back the same layout |
| `Bsp.GrowthCoversChildren` | src/bsplayout.rs:102-106 | for a parent inside the vector, one growth step (or none, when not needed) puts slot `2p+2` in bounds |
| `Bsp.HasNonEmpty` | src/bsplayout.rs:216-219 | the iterator search is true exactly when some slot is not `Empty` |
| `Bsp.TailHasNonEmpty` | src/bsplayout.rs:214-220 | `can_decrease_resolution` as written is true exactly when some slot of the last level is NOT empty |
| `Bsp.AddTarget` | src/bsplayout.rs:86-93 | the slot `add_leaf` passes to `insert` is the first `Empty` slot, or `nodes.len()` when there is none |
| `Bsp.AddedLeaf` | src/bsplayout.rs:86-93 | `add_leaf` keeps the size invariant and puts the new window into a leaf |
| `Bsp.Inserted` | src/bsplayout.rs:95-112 | `insert` keeps the size invariant |
| `Bsp.InsertedAtRoot` | src/bsplayout.rs:99-100 | `insert(0, e, _)` overwrites slot 0 with `Leaf(e)` and changes nothing else |
| `Bsp.InsertedBelowRoot` | src/bsplayout.rs:101-111 | `insert(ix, e, s)` for `ix > 0`: the parent becomes a split on `s`, its old contents move to `2p+1`, `Leaf(e)` goes to `2p+2`, every other slot is unchanged, and growth adds only `Empty` slots |
| `Bsp.GrownFor` | src/bsplayout.rs:102-104 | the growth step of `insert`: `max_level` doubles exactly when the parent had no children in bounds, and existing slots are kept |
| `Bsp.SplitSlot` | src/bsplayout.rs:105-110 | the swap and the two assignments of `insert`, slot by slot |
| `Bsp.Collapsed` | src/bsplayout.rs:121-124 | `remove(ix)` for `ix > 0` before shrinking: the parent holds the sibling's old contents, `ix` and the sibling are `Empty`, and other slots are unchanged |
| `Bsp.SiblingInBounds` | src/bsplayout.rs:121-122 | in a well-sized layout the sibling of an in-bounds slot is in bounds |
| `Bsp.Removed` | src/bsplayout.rs:114-129 | `remove(0)` gives `empty()`; for `ix > 0` the result is a prefix of the collapsed slots, and it is shorter exactly when the inverted check finds a non-empty slot in the last level; when shorter it is the collapsed layout with its last level dropped, and otherwise the collapsed layout itself |
| `Bsp.RemoveTruncatesLeaves` | src/bsplayout.rs:125-127 | removing slot 6 from the full tree `[V, H, H, w1, w2, w3, w4]` gives `[V, H, w3]` with `max_level` 2: the vector is truncated to three slots, and leaves `w1` and `w2` are lost to the truncation |
| `Bsp.RemovedReclaiming` | src/bsplayout.rs:214 | with the check its name promises: for `ix > 0` the result shrinks exactly when the collapsed layout's last level is all empty, and is otherwise the collapsed layout itself; slot `ix` is emptied or dropped; every leaf of the collapsed layout is kept, and when it shrinks, growing again restores that layout exactly |
| `Bsp.ThreeLeaves` | src/bsplayout.rs:86-112 | `add_leaf(1, Vertical)`, `add_leaf(2, Vertical)`, `add_leaf(3, Horizontal)` on a fresh layout build `[V, H, Leaf 2, Leaf 1, Leaf 3, _, _]` with `max_level` 4 |
| `Bsp.RemoveOrphansSubtree` | src/bsplayout.rs:121-127 | for any leaves `w1`, `w2`, `w3`, on `[V, H, w2, w1, w3, _, _]`, `remove(2)` as written lifts only the split `H` into the root, leaving `[H, _, _]` once the inverted check has truncated leaves `w1` and `w3`; with the intended check they stay at slots 3 and 4, under the empty slot 1 |
| `Bsp.OrphansUnreached` | src/bsplayout.rs:121-124 | in that layout the parent of leaves `w1` and `w3` is not a split reached from the root, so `build_squares` gives them no rectangle |
| `Bsp.LiftedKeepsSubtree` | src/bsplayout.rs:121-124 | the intended collapse moves the sibling's whole subtree up one level: the parent receives the sibling, every slot of the sibling's subtree lands at the same place under the parent, and every slot outside the parent's subtree is unchanged |
| `Bsp.SiblingsDisjoint` | src/bsplayout.rs:47-53 | the subtrees of two siblings share no slot |
| `Bsp.LiftedFromSibling` | src/bsplayout.rs:121-124 | after the intended collapse, every non-empty slot of the parent's subtree holds what its moved place in the sibling's subtree held, and that place is not in the removed slot's subtree |
| `Bsp.LiftedKeepsSplits` | src/bsplayout.rs:121-124 | after the intended collapse, every split reached from the sibling through splits is reached from the parent through splits, at its moved place |
| `Bsp.RemovedLifting` | src/bsplayout.rs:116-128 | `remove` as intended (subtree lifted, last level dropped only when all empty): `remove(0)` gives `empty()`; the size invariant holds; the result is never longer, and shrinks exactly when the lifted layout's last level is all empty; every slot outside the parent's subtree is unchanged; every non-empty slot of the sibling's subtree (leaf or split) is kept at its moved place; every non-empty slot of the parent's subtree holds what its moved place in the sibling's subtree held, so nothing of `ix`'s subtree survives; and when it shrinks it drops exactly one level, since one `increase_resolution` gives back the lifted layout |
| `Bsp.RemovedLiftingSecondLeaf` | src/bsplayout.rs:116-128 | the intended `remove(2)` on `[split, a, b]` gives the one-slot layout `[a]` with `max_level` 1, where the code as written keeps `[a, _, _]` |
| `Bsp.RemovedLiftingKeepsOrphans` | src/bsplayout.rs:116-128 | on the tree of `Bsp.RemoveOrphansSubtree`, the intended `remove(2)` gives `[H, w1, w3]` with `max_level` 2 |
| `Bsp.ShrinkRestores` | src/bsplayout.rs:209-214 | dropping an all-empty last level keeps every leaf and the size invariant, and one `increase_resolution` restores the layout |
| `Bsp.Interchanged` | src/bsplayout.rs:131-137 | `interchange_leaf` as written swaps the two slots exactly when slot `ix` holds a leaf, whatever slot `ix2` holds, and otherwise changes nothing (then `ix2` need not be in bounds, since it is never indexed); the multiset of slots is preserved |
| `Bsp.InterchangedLeaves` | src/bsplayout.rs:132 | the intended swap: when both slots hold leaves they trade places, otherwise nothing changes; every other slot is unchanged, and every non-leaf slot stays where it is |
| `Bsp.InterchangeMovesInner` | src/bsplayout.rs:134 | as written, `interchange_leaf(1, 0)` moves the root split into a leaf's slot, while the corrected swap leaves the tree alone; `interchange_leaf(0, 7)` on a split root changes nothing, though slot 7 does not exist |
| `Bsp.Visit` | src/bsplayout.rs:168-180 | `map_nodes_from(ix)` calls the closure at least once exactly when slot `ix` is a split, and calls it first on `ix` |
| `Bsp.VisitSplits` | src/bsplayout.rs:172-177 | only splits are handed to the closure, and each has both children in bounds |
| `Bsp.VisitBelow` | src/bsplayout.rs:172-177 | every slot visited from `ix` lies in `ix`'s subtree |
| `Bsp.VisitDistinct` | src/bsplayout.rs:168-180 | no slot is handed to the closure twice |
| `Bsp.VisitParentFirst` | src/bsplayout.rs:172-177 | pre-order: a slot is never visited after one of its children |
| `Bsp.VisitExactlyReached` | src/bsplayout.rs:168-180 | a slot is visited from `ix` if and only if it is a split reached from `ix` through splits only |
| `Bsp.VisitOnlyReached` | src/bsplayout.rs:172-177 | every visited slot is a split reached through splits |
| `Bsp.ReachedBack` | src/bsplayout.rs:172-177 | every split reached through splits is visited |
| `Bsp.SplitRect` | src/bsplayout.rs:143-160 | as written: a vertical split gives both children width `ceil(w/2)` and the second `x = w - floor(w/2)`; a horizontal split gives the first child `y = height = ceil(h/2)` and the second `height = width - floor(h/2)`; the other fields are copied |
| `Bsp.SplitRectTiled` | src/bsplayout.rs:139-140 | the intended division: the two children tile the parent exactly, and the first takes the larger half |
| `Bsp.SplitRectDoesNotTile` | src/bsplayout.rs:148-152 | on 100x100 the horizontal halves still cover the screen, but in swapped order (`y = 50`, then `y = 0`); on 200x100 the second is 150 high and runs past the screen, where the tiled division gives 50 and 50 |
| `Bsp.SquaresAsAllocated` | src/bsplayout.rs:142 | no contract of its own: the one-entry vector `[Some(root)]`; `Bsp.FirstSplitOutOfBounds` proves the root split's first write lies past its end |
| `Bsp.FirstSplitOutOfBounds` | src/bsplayout.rs:142 | with the one-slot vector as allocated, the first split written (the root's) targets slot 1, past its end |
| `Bsp.TraversableInBounds` | src/bsplayout.rs:164-176 | a walk that does not panic never indexes outside the vector |
| `Bsp.BspLayout.constructor` | src/bsplayout.rs:61-67 | a new layout is `empty()` |
| `Bsp.BspLayout.Find` | src/bsplayout.rs:69-84 | `Some(ix)` only for a slot satisfying the query with no earlier slot satisfying it; `None` exactly when no slot does |
| `Bsp.BspLayout.AddLeaf` | src/bsplayout.rs:86-93 | the new state is `AddedLeaf` of the old: `insert` at the first empty slot (or the end), and the size invariant holds |
| `Bsp.BspLayout.Insert` | src/bsplayout.rs:95-112 | the new state is `Inserted` of the old, and the size invariant holds |
| `Bsp.BspLayout.Remove` | src/bsplayout.rs:114-129 | the new state is `Removed` of the old, and the size invariant holds |
| `Bsp.BspLayout.InterchangeLeaf` | src/bsplayout.rs:131-137 | the new slots are `Interchanged` of the old, and `max_level` is unchanged |
| `Bsp.BspLayout.IncreaseResolution` | src/bsplayout.rs:204-207 | the new state is `Expanded` of the old |
| `Bsp.BspLayout.DecreaseResolution` | src/bsplayout.rs:209-212 | the new state is `Shrunk` of the old |
| `Bsp.BspLayout.CanDecreaseResolution` | src/bsplayout.rs:214-220 | true exactly when some slot of the last level is not empty |
| `Bsp.BspLayout.BuildSquares` | src/bsplayout.rs:139-166 | one entry per slot; slot 0 holds the root; a child slot holds a rectangle exactly when its parent is a split reached from the root through splits, and then it holds its share of its parent's rectangle; a non-split root yields only the root |
| `Bsp.FillReady` | src/bsplayout.rs:145 | when the closure reaches a split, that split already has its rectangle, so the `expect` never fails |
| `Bsp.FillStep` | src/bsplayout.rs:159-160 | one closure call keeps the loop's description of `squares` |
| `Bsp.AddTwoRemoveOne` | src/bsplayout.rs:88-129 | `add_leaf(a, Vertical)`, then `add_leaf(b, Horizontal)`, then `remove(2)` on a fresh layout leaves `[Leaf(a), Empty, Empty]` with `max_level` 2 |
| `Bsp.AddTargetUnique` | src/bsplayout.rs:89-91 | the index `find(is_empty)` yields, or the length when it yields `None`, is the first empty slot |
| `BspShape.EmptyShaped` | src/bsplayout.rs:61-67 | `empty()` has the shape and holds no leaf |
| `BspShape.InsertedShaped` | src/bsplayout.rs:86-112 | on a layout of the shape, `add_leaf` targets either slot 0 or a slot whose parent is in bounds; it keeps the shape and adds exactly one leaf reached from the root |
| `BspShape.InsertedBelowRootShaped` | src/bsplayout.rs:101-111 | the first empty slot below the root always hangs from a leaf, which `insert` turns into a split over that leaf and the new window (the slots written are stated by `Bsp.InsertedBelowRoot`); the shape is kept and the leaf count grows by one |
| `BspShape.InsertedHung` | src/bsplayout.rs:105-110 | after `insert` splits a leaf, every non-empty slot below the root still has a split for a parent |
| `BspShape.InsertedCarried` | src/bsplayout.rs:105-110 | after `insert` splits a leaf, every split still has two non-empty children inside the vector |
| `BspShape.InsertedCount` | src/bsplayout.rs:101-111 | `insert` below the root adds exactly one leaf reached from the root |
| `BspShape.RemovedLiftingShaped` | src/bsplayout.rs:114-129 | on a layout of the shape, the intended `remove` of a slot holding a leaf keeps the shape and takes away exactly one leaf reached from the root |
| `BspShape.LiftedShaped` | src/bsplayout.rs:121-124 | the subtree lift alone keeps the shape and drops exactly the removed leaf |
| `BspShape.LiftedCount` | src/bsplayout.rs:121-124 | moving the sibling's subtree over its parent leaves one leaf fewer reached from the root |
| `BspShape.LiftedHung` | src/bsplayout.rs:121-124 | after the lift, every non-empty slot below the root has a split for a parent |
| `BspShape.LiftedCarried` | src/bsplayout.rs:121-124 | after the lift, every split has two non-empty children inside the vector |
| `BspShape.ShrunkShaped` | src/bsplayout.rs:209-212 | dropping an all-empty last level keeps the shape and every leaf |
| `BspShape.LeafHasCompany` | src/bsplayout.rs:114-129 | on a layout of the shape, a leaf below the root is never the only leaf, so the last leaf of a session always sits at slot 0 |
| `BspShape.NonEmptyHasLeaf` | src/bsplayout.rs:168-180 | every non-empty slot of a layout of the shape has at least one leaf reached from it |
| `BspShape.CountMoved` | src/bsplayout.rs:121-124 | a subtree moved up one level holds the same number of leaves at its new place |
| `BspShape.CountOutside` | src/bsplayout.rs:121-124 | changing only the subtree of `p` changes the leaves reached from an ancestor by exactly the change under `p` |
| `BspShape.AncestorsReached` | src/bsplayout.rs:168-180 | in a layout of the shape, the parent of every non-empty slot below the root is a split reached from the root |
| `BspSessions.AddedLeaves` | src/bsplayout.rs:86-93 | a sequence of `add_leaf` calls keeps the size invariant |
| `BspSessions.RemovedLeaves` | src/bsplayout.rs:114-129 | a sequence of `remove` calls as written, each on a slot holding a leaf, keeps the size invariant |
| `BspSessions.RemovedLeavesLifting` | src/bsplayout.rs:114-129 | the same sequence with the intended `remove` keeps the size invariant |
| `BspSessions.AddedLeafShaped` | src/bsplayout.rs:86-112 | `add_leaf` keeps the shape and adds exactly one leaf |
| `BspSessions.AddedLeavesShaped` | src/bsplayout.rs:86-112 | `n` `add_leaf` calls keep the shape and add exactly `n` leaves |
| `BspSessions.RemovedLeavesLiftingEmpties` | src/bsplayout.rs:114-129 | on a layout of the shape with `n` leaves, `n` intended removals, each of a slot holding a leaf at its turn, end in `empty()` |
| `BspSessions.SessionRoundTrip` | src/bsplayout.rs:86-129 | for any `n` `add_leaf` calls on `empty()` and any `n` intended removals, each of a slot holding a leaf at its turn, the result is `empty()` |
| `BspSessions.FiveLeavesNotUndone` | src/bsplayout.rs:86-129 | five `add_leaf` calls build `[S, S, S, S, L3, L2, L4, L1, L5, _ x6]` with `max_level` 8; `remove` as written at slots 7, 3, 1, 5, 2 (each a leaf at its turn) leaves fifteen empty slots with `max_level` 8, not `empty()` |
| `WindowSets.Fold` | src/window_set.rs:174-186 | on each edge the fold's result is at least every dock's strut |
| `WindowSets.FoldIsMax` | src/window_set.rs:174-186 | on every edge, the fold computes the widest strut of all docks, or 0 when there are none |
| `WindowSets.MaxOfUnique` | src/window_set.rs:177-186 | the widest strut depends only on which docks are present |
| `WindowSets.FoldOrderIndependent` | src/window_set.rs:174-186 | docks listed in any order give the same struts |
| `WindowSets.ViewportOf` | src/window_set.rs:171-195 | the viewport lies inside the screen; its `x` and `y` are the widest left and top struts; what is left to its right and below it is the widest right and bottom strut |
| `WindowSets.ViewportWithoutDocks` | src/window_set.rs:173-192 | with no docks the viewport is `{0, 0, w, h}` |
| `WindowSets.ViewportOrderIndependent` | src/window_set.rs:173-192 | the viewport does not depend on the order of the docks |
| `WindowSets.ViewportShrinksWithDock` | src/window_set.rs:159-192 | adding a dock never increases the viewport's width or height, and never moves it up or left |
| `WindowSets.Without` | src/window_set.rs:166-169 | `retain` yields no more docks than it had; which docks it keeps is stated by `WindowSets.WithoutMembers` |
| `WindowSets.WithoutMembers` | src/window_set.rs:166-169 | a dock survives `retain` exactly when it was there and its window is not the removed one |
| `WindowSets.WithoutAbsent` | src/window_set.rs:166-169 | removing an id that no dock has changes nothing |
| `WindowSets.WithoutIdempotent` | src/window_set.rs:166-169 | removing the same id twice is removing it once |
| `WindowSets.WithoutAppend` | src/window_set.rs:166-169 | `retain` works dock by dock and keeps the original order |
| `WindowSets.Range` | src/window_set.rs:62 | `lo..hi` has `hi - lo` elements (none when `hi <= lo`), the `i`-th being `lo + i` |
| `WindowSets.Zip` | src/window_set.rs:60-63 | `zip` yields as many pairs as the shorter side has elements, the `i`-th pairing the two `i`-th elements |
| `WindowSets.ScreenPairing` | src/window_set.rs:60-64 | there are `min(screens, max(workspaces, 1) - 1)` pairs, and screen `i` gets workspace `i + 1` |
| `WindowSets.Names` | src/window_set.rs:118-123 | one name per workspace, in workspace order |
| `WindowSets.Screen.constructor` | src/window_set.rs:151-157 | a new screen has the given workspace and info and no docks |
| `WindowSets.Screen.AddDock` | src/window_set.rs:159-164 | exactly one dock is appended at the end; earlier docks are unchanged |
| `WindowSets.Screen.RemoveDock` | src/window_set.rs:166-169 | the docks become those whose window is not the given one, in order |
| `WindowSets.Screen.Viewport` | src/window_set.rs:173-195 | the viewport lies inside the screen, and no dock's strut overlaps it on any edge |
| `WindowSets.NewWorkspace` | src/window_set.rs:220-230 | the configured name, no floating or minimized windows, nothing maximized or focused, and a fresh empty layout |
| `WindowSets.NewWorkspaces` | src/window_set.rs:44-45 | one new workspace per configuration entry, in order, each with its own fresh empty layout (no two workspaces share one) |
| `WindowSets.NewScreens` | src/window_set.rs:60-64 | `min(screens, max(workspaces, 1) - 1)` screens are created, screen `i` with the `i`-th screen info and workspace `i + 1`, each fresh and distinct, with no docks |
| `WindowSets.NewScreensZip` | src/window_set.rs:60-64 | screens built that way are exactly the zip of the screen infos with `1..workspaces`, pair by pair |
| `WindowSets.WindowSet.constructor` | src/window_set.rs:43-72 | `min(screens, max(workspaces, 1) - 1)` visible screens, screen `i` showing workspace `i + 1`; workspace names as configured; each workspace with its own fresh empty layout; `currentScreen` 0; no window statuses |
| `WindowSets.WindowSet.Contains` | src/window_set.rs:91-93 | no contract of its own: the map lookup of `.get(..).is_some()`; its promise is proved by `WindowSets.AddedWindowsStayUnmanaged` |
| `WindowSets.WindowSet.AddWindow` | src/window_set.rs:96-104 | the window statuses are unchanged |
| `WindowSets.WindowSet.GetWorkspaceNames` | src/window_set.rs:118-123 | one name per workspace, the `i`-th being workspace `i`'s |
| `WindowSets.WindowSet.FocusedWorkspace` | src/window_set.rs:125-129 | the result is a valid index into `get_workspace_names()`, and never 0 |
| `WindowSets.StartupFocus` | src/window_set.rs:60-71 | with at least one screen and two workspaces, a new window set focuses workspace 1 |
| `WindowSets.AddedWindowsStayUnmanaged` | src/window_set.rs:91-104 | after any number of `add_window` calls, `contains` is false for every window |

## Left out

- Unsigned overflow: `u32` and `usize` values are unbounded naturals. The model does not let `max_level << 1` overflow, and a `u32` coordinate or size has no upper bound.
- Unsigned underflow: a subtraction that would underflow is excluded by a precondition rather than modelled as a panic or a wrap.
  - `Bsp.Parent`: requires `ix > 0`. With `ix == 0`, `(ix + 1) / 2 - 1` underflows. `insert` and `remove` compute it before their `ix == 0` test; a release build wraps there and never uses the value, which is what the model assumes (see Findings).
  - `Bsp.BspLayout.BuildSquares`: requires `Traversable`, the exact condition under which `build_squares` does not panic.
  - `WindowSets.ViewportOf`: requires `StrutsFit`, the exact condition under which the `u32` subtractions do not underflow.
- Index out of bounds: a vector index that would panic is excluded by a precondition rather than modelled as a panic.
  - `Bsp.BspLayout.Remove` and `Bsp.Removed`: require `ix < nodes.len()` (the swap and the two writes of src/bsplayout.rs:121-124).
  - `Bsp.BspLayout.Insert` and `Bsp.Inserted`: require the parent slot to be in bounds (the swap at src/bsplayout.rs:105).
  - `Bsp.BspLayout.InterchangeLeaf` and `Bsp.Interchanged`: require `ix < nodes.len()`, and `ix2 < nodes.len()` only when slot `ix` holds a leaf, since only then is `nodes[ix2]` read.
  - `WindowSets.WindowSet.FocusedWorkspace`: requires `currentScreen < visible.len()` (src/window_set.rs:128).
- `Bsp.BspLayout.BuildSquares`: allocates one `None` slot per layout slot. The source allocates a one-element vector, which cannot hold a child's rectangle (see Findings).
- Proportion: the `f64` proportion is fixed at 1/2. This is the only value the code ever stores, so IEEE rounding is not modelled.
- Logging: the `log` macro calls (`error!`, `debug!`) have no observable state and are not modelled. These include the two warnings in `WindowSet::new` and the one in `add_window`.
- Window statuses: the `HashMap` of statuses is a Dafny `map`, and its hashing is not modelled.
- `WindowSet::remove_window`, `focus`, `switch_workspace` and `move_focused_to_workspace`: these are stubs with no effect on state (`remove_window` only reads the map and logs), so they are not modelled.
- Workspace fields: nothing in the modelled code changes a `Workspace` after `Workspace::new`, so `Workspace` is a datatype that holds a reference to its `BspLayout` object.
- Window ids: `WindowId` is an opaque type parameter with equality.
- `Default`: the derived `Default` of `Screen` and `Workspace` (src/window_set.rs:143 and :203) is not modelled. `BSPLayout`'s hand-written `Default` (src/bsplayout.rs:10-14) returns `empty()`, which is what `Bsp.BspLayout.constructor` models.
- Commented-out code: the commented-out helpers of `BSPLayout` (`leaf_move_*`, `look_upwards_until`) are not code.
- Other files: `src/core.rs` (the X connection and event loop), `src/lib.rs` (logger setup and macros), `src/window.rs` (forwarding to the X connection) and `src/config.rs` (plain data) are not part of this model. The one exception is `WorkspaceConfig.name`, which is modelled.

## Findings

| source | as written | input that shows it | evidently intended | confidence | as-written member | corrected member |
|---|---|---|---|---|---|---|
| src/bsplayout.rs:214-220 | `can_decrease_resolution` is true when the last level holds a non-empty slot | `remove(6)` on `[Split V, Split H, Split H, Leaf 1, Leaf 2, Leaf 3, Leaf 4]` with `max_level` 4 truncates to three slots and loses leaves 1 and 2; and five `add_leaf` calls followed by `remove` at slots 7, 3, 1, 5, 2 never shrink the all-empty fifteen-slot tree back to `empty()` (`BspSessions.FiveLeavesNotUndone`) | shrink only when the last level is all empty, as the name `can_decrease_resolution` promises | not executed | `Bsp.RemoveTruncatesLeaves` | `Bsp.RemovedReclaiming` |
| src/bsplayout.rs:134 | `interchange_leaf` tests `nodes[ix].is_leaf()` twice and never tests `nodes[ix2]` | `interchange_leaf(1, 0)` on `[Split V, Leaf 1, Leaf 2]` moves the split into slot 1 | swap only when both slots hold leaves | not executed | `Bsp.InterchangeMovesInner` | `Bsp.InterchangedLeaves` |
| src/bsplayout.rs:148-157 | a horizontal split sets the first child's `y` to `ceil(h/2)` and the second child's height to `width - floor(h/2)`; on a vertical split the second child's `x` ignores the parent's `x`, and both halves get `ceil(w/2)` | a horizontal split of 200x100 at the origin gives a second child 150 high, starting at `y = 0`, which runs past the screen (on 100x100 the halves only swap places and still cover it) | the first child at the parent's offset with the larger half, the second right after it with the rest | not executed | `Bsp.SplitRectDoesNotTile` | `Bsp.SplitRectTiled` |
| src/bsplayout.rs:98 | `insert` (and `remove`, line 117) computes `get_parent(ix)` before testing `ix == 0`, and `get_parent(0)` underflows `usize` | the first `add_leaf` on `empty()` calls `insert(0, ..)`, which panics in a debug build | compute the parent only when `ix > 0` | not executed | `Bsp.FirstAddLeafUnderflows` | `Bsp.Parent` |
| src/bsplayout.rs:142 | `build_squares` starts from `vec![Some(root)]`, a single slot, though its comment says it has the capacity of `nodes` | any layout whose root is a split: the closure writes `squares[1]` out of bounds | one slot per layout slot | not executed | `Bsp.FirstSplitOutOfBounds` | `Bsp.BspLayout.BuildSquares` |
| src/bsplayout.rs:121-124 | `remove` swaps only the sibling's own slot into the parent, so a sibling that is a split leaves its children behind, under a slot that is now `Empty` | after `add_leaf(1, Vertical)`, `add_leaf(2, Vertical)`, `add_leaf(3, Horizontal)` the tree is `[V, H, Leaf 2, Leaf 1, Leaf 3, _, _]`; `remove(2)` leaves the split `H` at the root with two empty children, and leaves 1 and 3 are truncated (or, with an all-empty check, unreachable); five `add_leaf` calls followed by `remove` at slots 7, 3, 1, 5, 2 strand two leaves at the `remove(1)` step and end in fifteen empty slots instead of `empty()` (`BspSessions.FiveLeavesNotUndone`) | the sibling's whole subtree moves up into the parent's place, so that `n` adds followed by `n` removals of leaves give back `empty()` (`BspSessions.SessionRoundTrip`) | not executed | `Bsp.RemoveOrphansSubtree` | `Bsp.RemovedLifting` |

The class `BspLayout` follows the code as written for the first three rows and the last one, which is what the program does. The corrected functions have their intended properties proved beside it. For the fourth and fifth rows the class uses the corrected behaviour, because the code as written panics there.
