/**
 * `window_set.rs`: the screens, their docks and the workspaces a window
 * manager keeps. A window id is an opaque type with equality.
 */
module WindowSets {
  import opened Options
  import opened Geometry
  import Bsp

  /** A dock window and the strut it reserves. */
  datatype Dock<Id> = Dock(windowId: Id, reserved: Reserved)

  /** What the manager knows about a window; `Docked` is the source's `Status::Dock`. */
  datatype Status = Tiled(pos: nat) | Floating | Minimized | Maximized | FullScreen | Docked

  /** The one part of a workspace's configuration this model reads. */
  datatype WorkspaceConfig = WorkspaceConfig(name: string)

  // ---------------------------------------------------------------------
  // The strut fold of `viewport`
  // ---------------------------------------------------------------------

  /** The accumulator of the fold: the widest strut seen so far on each edge. */
  datatype Struts = Struts(left: nat, right: nat, top: nat, bottom: nat)

  datatype Edge = Left | Right | Top | Bottom

  function Reach(r: Reserved, e: Edge): nat
  {
    match e
    case Left => r.left
    case Right => r.right
    case Top => r.top
    case Bottom => r.bottom
  }

  function Side(s: Struts, e: Edge): nat
  {
    match e
    case Left => s.left
    case Right => s.right
    case Top => s.top
    case Bottom => s.bottom
  }

  function Max(a: nat, b: nat): nat
  {
    if a < b then b else a
  }

  function Min(a: nat, b: nat): nat
  {
    if a < b then a else b
  }

  /** One step of the fold: take the wider strut on every edge. */
  function Widen<Id>(acc: Struts, d: Dock<Id>): Struts
  {
    Struts(Max(acc.left, d.reserved.left), Max(acc.right, d.reserved.right),
           Max(acc.top, d.reserved.top), Max(acc.bottom, d.reserved.bottom))
  }

  /** `docks.iter().fold((0, 0, 0, 0), ..)`, a left fold over the docks in order. */
  function Fold<Id>(docks: seq<Dock<Id>>): (r: Struts)
    ensures forall d :: d in docks ==>
      && d.reserved.left <= r.left && d.reserved.right <= r.right
      && d.reserved.top <= r.top && d.reserved.bottom <= r.bottom
  {
    if |docks| == 0 then Struts(0, 0, 0, 0)
    else
      var init := docks[..|docks| - 1];
      assert forall d :: d in docks ==> d in init || d == docks[|docks| - 1];
      Widen(Fold(init), docks[|docks| - 1])
  }

  /** `v` is the largest strut on edge `e` among `docks`, or 0 when there are none. */
  ghost predicate IsMaxOf<Id>(docks: seq<Dock<Id>>, e: Edge, v: nat)
  {
    && (forall d :: d in docks ==> Reach(d.reserved, e) <= v)
    && (v == 0 || exists d :: d in docks && Reach(d.reserved, e) == v)
  }

  /** On every edge the fold computes the widest strut of all docks. */
  lemma {:induction false} FoldIsMax<Id>(docks: seq<Dock<Id>>, e: Edge)
    ensures IsMaxOf(docks, e, Side(Fold(docks), e))
  {
    if |docks| > 0 {
      var init, last := docks[..|docks| - 1], docks[|docks| - 1];
      assert docks == init + [last];
      FoldIsMax(init, e);
      var v := Side(Fold(init), e);
      assert Side(Fold(docks), e) == Max(v, Reach(last.reserved, e));
      forall d | d in docks ensures Reach(d.reserved, e) <= Side(Fold(docks), e) {
        if d != last {
          assert d in init;
        }
      }
      if Side(Fold(docks), e) != 0 && Side(Fold(docks), e) == v {
        var d :| d in init && Reach(d.reserved, e) == v;
        assert d in docks;
      }
    }
  }

  /** The widest strut depends only on which docks there are. */
  lemma MaxOfUnique<Id>(a: seq<Dock<Id>>, b: seq<Dock<Id>>, e: Edge, va: nat, vb: nat)
    requires forall d :: d in a <==> d in b
    requires IsMaxOf(a, e, va) && IsMaxOf(b, e, vb)
    ensures va == vb
  {
    if va != 0 {
      var d :| d in a && Reach(d.reserved, e) == va;
      assert d in b;
    }
    if vb != 0 {
      var d :| d in b && Reach(d.reserved, e) == vb;
      assert d in a;
    }
  }

  /** Docks listed in any order give the same struts. */
  lemma FoldOrderIndependent<Id>(a: seq<Dock<Id>>, b: seq<Dock<Id>>)
    requires multiset(a) == multiset(b)
    ensures Fold(a) == Fold(b)
  {
    forall d ensures d in a <==> d in b {
      assert d in a <==> d in multiset(a);
      assert d in b <==> d in multiset(b);
    }
    forall e: Edge ensures Side(Fold(a), e) == Side(Fold(b), e) {
      FoldIsMax(a, e);
      FoldIsMax(b, e);
      MaxOfUnique(a, b, e, Side(Fold(a), e), Side(Fold(b), e));
    }
    assert Side(Fold(a), Left) == Side(Fold(b), Left);
    assert Side(Fold(a), Right) == Side(Fold(b), Right);
    assert Side(Fold(a), Top) == Side(Fold(b), Top);
    assert Side(Fold(a), Bottom) == Side(Fold(b), Bottom);
  }

  // ---------------------------------------------------------------------
  // The viewport
  // ---------------------------------------------------------------------

  /** The `u32` subtractions of `viewport` do not wrap. */
  predicate StrutsFit<Id>(docks: seq<Dock<Id>>, w: nat, h: nat)
  {
    var s := Fold(docks);
    s.left + s.right <= w && s.top + s.bottom <= h
  }

  /**
   * `viewport(w, h)`: the part of a `w` by `h` screen that no dock's strut
   * covers. Its left and top offsets are the widest left and top struts,
   * and what remains to its right and below it is the widest right and
   * bottom strut.
   */
  function ViewportOf<Id>(docks: seq<Dock<Id>>, w: nat, h: nat): (r: Rectangle)
    requires StrutsFit(docks, w, h)
    ensures r.x + r.width <= w && r.y + r.height <= h
    ensures IsMaxOf(docks, Left, r.x) && IsMaxOf(docks, Top, r.y)
    ensures IsMaxOf(docks, Right, w - r.x - r.width) && IsMaxOf(docks, Bottom, h - r.y - r.height)
  {
    FoldIsMax(docks, Left);
    FoldIsMax(docks, Right);
    FoldIsMax(docks, Top);
    FoldIsMax(docks, Bottom);
    var s := Fold(docks);
    Rectangle(s.left, s.top, w - s.left - s.right, h - s.top - s.bottom)
  }

  /** Without docks the viewport is the whole screen. */
  lemma ViewportWithoutDocks<Id>(w: nat, h: nat)
    ensures StrutsFit<Id>([], w, h)
    ensures ViewportOf<Id>([], w, h) == Rectangle(0, 0, w, h)
  {
  }

  /** The viewport does not depend on the order of the docks. */
  lemma ViewportOrderIndependent<Id>(a: seq<Dock<Id>>, b: seq<Dock<Id>>, w: nat, h: nat)
    requires multiset(a) == multiset(b) && StrutsFit(a, w, h)
    ensures StrutsFit(b, w, h) && ViewportOf(b, w, h) == ViewportOf(a, w, h)
  {
    FoldOrderIndependent(a, b);
  }

  /** Adding a dock never widens or heightens the viewport, nor moves it up or left. */
  lemma ViewportShrinksWithDock<Id>(docks: seq<Dock<Id>>, d: Dock<Id>, w: nat, h: nat)
    requires StrutsFit(docks + [d], w, h)
    ensures StrutsFit(docks, w, h)
    ensures var before, after := ViewportOf(docks, w, h), ViewportOf(docks + [d], w, h);
      && after.width <= before.width && after.height <= before.height
      && before.x <= after.x && before.y <= after.y
  {
    assert (docks + [d])[..|docks|] == docks;
  }

  // ---------------------------------------------------------------------
  // `retain` of `remove_dock`
  // ---------------------------------------------------------------------

  /** The docks whose window is not `id`, in their original order. */
  function Without<Id(==)>(docks: seq<Dock<Id>>, id: Id): (r: seq<Dock<Id>>)
    ensures |r| <= |docks|
  {
    if |docks| == 0 then []
    else (if docks[0].windowId == id then [] else [docks[0]]) + Without(docks[1..], id)
  }

  lemma {:induction false} WithoutMembers<Id>(docks: seq<Dock<Id>>, id: Id, d: Dock<Id>)
    ensures d in Without(docks, id) <==> d in docks && d.windowId != id
  {
    if |docks| > 0 {
      WithoutMembers(docks[1..], id, d);
      assert docks == [docks[0]] + docks[1..];
    }
  }

  /** Removing an id no dock has changes nothing. */
  lemma {:induction false} WithoutAbsent<Id>(docks: seq<Dock<Id>>, id: Id)
    requires forall d :: d in docks ==> d.windowId != id
    ensures Without(docks, id) == docks
  {
    if |docks| > 0 {
      assert docks[0] in docks;
      forall d | d in docks[1..] ensures d.windowId != id {
        assert d in docks;
      }
      WithoutAbsent(docks[1..], id);
      assert docks == [docks[0]] + docks[1..];
    }
  }

  /** Removing the same id twice is removing it once. */
  lemma WithoutIdempotent<Id>(docks: seq<Dock<Id>>, id: Id)
    ensures Without(Without(docks, id), id) == Without(docks, id)
  {
    forall d | d in Without(docks, id) ensures d.windowId != id {
      WithoutMembers(docks, id, d);
    }
    WithoutAbsent(Without(docks, id), id);
  }

  /** `retain` works dock by dock: it keeps the relative order of what it keeps. */
  lemma {:induction false} WithoutAppend<Id>(a: seq<Dock<Id>>, b: seq<Dock<Id>>, id: Id)
    ensures Without(a + b, id) == Without(a, id) + Without(b, id)
  {
    if |a| > 0 {
      var head := if a[0].windowId == id then [] else [a[0]];
      assert (a + b)[0] == a[0] && (a + b)[1..] == a[1..] + b;
      assert Without(a + b, id) == head + Without(a[1..] + b, id);
      WithoutAppend(a[1..], b, id);
      assert Without(a, id) == head + Without(a[1..], id);
    } else {
      assert a + b == b;
    }
  }

  // ---------------------------------------------------------------------
  // The pairing of screens with workspaces in `WindowSet::new`
  // ---------------------------------------------------------------------

  /** The Rust range `lo..hi`. */
  function Range(lo: nat, hi: nat): (r: seq<nat>)
    decreases hi - lo
    ensures |r| == if hi <= lo then 0 else hi - lo
    ensures forall i :: 0 <= i < |r| ==> r[i] == lo + i
  {
    if hi <= lo then [] else [lo] + Range(lo + 1, hi)
  }

  /** `a.into_iter().zip(b)`: pairs up to the shorter of the two. */
  function Zip<A, B>(a: seq<A>, b: seq<B>): (r: seq<(A, B)>)
    ensures |r| == Min(|a|, |b|)
    ensures forall i :: 0 <= i < |r| ==> r[i] == (a[i], b[i])
  {
    if |a| == 0 || |b| == 0 then [] else [(a[0], b[0])] + Zip(a[1..], b[1..])
  }

  /**
   * `screens.zip(1..workspaces.len())`: the `i`-th screen shows workspace
   * `i + 1`, and there are as many screens as the shorter side allows.
   */
  lemma ScreenPairing(screens: seq<ScreenInfo>, workspaces: nat)
    ensures var z := Zip(screens, Range(1, workspaces));
      && |z| == Min(|screens|, Max(workspaces, 1) - 1)
      && forall i :: 0 <= i < |z| ==> z[i] == (screens[i], i + 1)
  {
  }

  /** `get_workspace_names`: the workspaces' names, one each, in order. */
  function Names<Id>(ws: seq<Workspace<Id>>): (r: seq<string>)
    ensures |r| == |ws|
    ensures forall i :: 0 <= i < |ws| ==> r[i] == ws[i].name
  {
    if |ws| == 0 then [] else [ws[0].name] + Names(ws[1..])
  }

  // ---------------------------------------------------------------------
  // Screens, workspaces and the window set
  // ---------------------------------------------------------------------

  /** A screen: the workspace it shows, its size and its docks. */
  class Screen<Id(==)> {
    const workspace: nat
    const info: ScreenInfo
    var docks: seq<Dock<Id>>

    /** `Screen::new`. */
    constructor (workspace: nat, info: ScreenInfo)
      ensures this.workspace == workspace && this.info == info && docks == []
    {
      this.workspace := workspace;
      this.info := info;
      docks := [];
    }

    /** `add_dock`: one dock more, at the end. */
    method AddDock(windowId: Id, reserved: Reserved)
      modifies this
      ensures docks == old(docks) + [Dock(windowId, reserved)]
    {
      docks := docks + [Dock(windowId, reserved)];
    }

    /** `remove_dock`. */
    method RemoveDock(windowId: Id)
      modifies this
      ensures docks == Without(old(docks), windowId)
    {
      docks := Without(docks, windowId);
    }

    /** `viewport`: a rectangle of the screen that no dock's strut overlaps. */
    function Viewport(w: nat, h: nat): (r: Rectangle)
      reads this
      requires StrutsFit(docks, w, h)
      ensures r.x + r.width <= w && r.y + r.height <= h
      ensures forall d :: d in docks ==>
        && d.reserved.left <= r.x && r.x + r.width + d.reserved.right <= w
        && d.reserved.top <= r.y && r.y + r.height + d.reserved.bottom <= h
    {
      ViewportOf(docks, w, h)
    }
  }

  /**
   * A workspace. Its `layout` is a `BspLayout` object; nothing in the
   * modelled code changes the other fields after `Workspace::new`.
   */
  datatype Workspace<Id> = Workspace(
    name: string,
    floats: seq<Id>,
    minimized: seq<Id>,
    maximized: Option<Id>,
    focused: Option<nat>,
    layout: Bsp.BspLayout<Id>)

  /** `Workspace::new`: the configured name, no windows, an empty layout. */
  method NewWorkspace<Id>(config: WorkspaceConfig) returns (w: Workspace<Id>)
    ensures w.name == config.name && w.floats == [] && w.minimized == []
    ensures w.maximized == None && w.focused == None
    ensures fresh(w.layout) && w.layout.Model() == Bsp.EmptyLayout()
  {
    var layout := new Bsp.BspLayout();
    w := Workspace(config.name, [], [], None, None, layout);
  }

  /** `workspaces_config.into_iter().map(Workspace::new).collect()`. */
  method NewWorkspaces<Id>(configs: seq<WorkspaceConfig>) returns (ws: seq<Workspace<Id>>)
    ensures |ws| == |configs|
    ensures forall i :: 0 <= i < |ws| ==> ws[i].name == configs[i].name
    ensures forall i :: 0 <= i < |ws| ==> ws[i].floats == [] && ws[i].minimized == []
    ensures forall i :: 0 <= i < |ws| ==> ws[i].maximized == None && ws[i].focused == None
    ensures forall i :: 0 <= i < |ws| ==> fresh(ws[i].layout) && ws[i].layout.Model() == Bsp.EmptyLayout()
    ensures forall i, j :: 0 <= i < j < |ws| ==> ws[i].layout != ws[j].layout
  {
    ws := [];
    for i := 0 to |configs|
      invariant |ws| == i
      invariant forall j :: 0 <= j < i ==> ws[j].name == configs[j].name
      invariant forall j :: 0 <= j < i ==> ws[j].floats == [] && ws[j].minimized == []
      invariant forall j :: 0 <= j < i ==> ws[j].maximized == None && ws[j].focused == None
      invariant forall j :: 0 <= j < i ==> fresh(ws[j].layout) && ws[j].layout.Model() == Bsp.EmptyLayout()
      invariant forall j, k :: 0 <= j < k < i ==> ws[j].layout != ws[k].layout
    {
      var w := NewWorkspace(configs[i]);
      ws := ws + [w];
    }
  }

  /** The (screen, workspace) pairs of a list of screens. */
  function Pairs<Id(==)>(vs: seq<Screen<Id>>): seq<(ScreenInfo, nat)>
  {
    seq(|vs|, i requires 0 <= i < |vs| => (vs[i].info, vs[i].workspace))
  }

  /** The `zip(..).map(Screen::new).collect()` of `WindowSet::new`. */
  method NewScreens<Id(==)>(screens: seq<ScreenInfo>, workspaces: nat) returns (vs: seq<Screen<Id>>)
    ensures |vs| == Min(|screens|, Max(workspaces, 1) - 1)
    ensures forall i :: 0 <= i < |vs| ==> vs[i].workspace == i + 1 && vs[i].info == screens[i]
    ensures forall i :: 0 <= i < |vs| ==> fresh(vs[i]) && vs[i].docks == []
    ensures forall i, j :: 0 <= i < j < |vs| ==> vs[i] != vs[j]
  {
    var n := Min(|screens|, Max(workspaces, 1) - 1);
    vs := [];
    for i := 0 to n
      invariant |vs| == i
      invariant forall j :: 0 <= j < i ==> vs[j].workspace == j + 1 && vs[j].info == screens[j]
      invariant forall j :: 0 <= j < i ==> fresh(vs[j]) && vs[j].docks == []
      invariant forall j, k :: 0 <= j < k < i ==> vs[j] != vs[k]
    {
      var s := new Screen(i + 1, screens[i]);
      vs := vs + [s];
    }
  }

  /** The screens `NewScreens` builds are the zip of the screen infos with `1..workspaces`. */
  lemma NewScreensZip<Id>(screens: seq<ScreenInfo>, workspaces: nat, vs: seq<Screen<Id>>)
    requires |vs| == Min(|screens|, Max(workspaces, 1) - 1)
    requires forall i :: 0 <= i < |vs| ==> vs[i].workspace == i + 1 && vs[i].info == screens[i]
    ensures Pairs(vs) == Zip(screens, Range(1, workspaces))
  {
    ScreenPairing(screens, workspaces);
  }

  /** The window manager's bookkeeping, after XMonad's `StackSet`. */
  class WindowSet<Id(==)> {
    /** The focused screen, an index into `visible`. */
    var currentScreen: nat
    var visible: seq<Screen<Id>>
    var workspaces: seq<Workspace<Id>>
    var windowsStatus: map<Id, Status>

    /** Every visible screen shows a workspace that exists, and never workspace 0. */
    ghost predicate Valid()
      reads this
    {
      forall i :: 0 <= i < |visible| ==> 1 <= visible[i].workspace < |workspaces|
    }

    /** `WindowSet::new`: screens after the pairing `ScreenPairing` describes, no windows. */
    constructor (workspacesConfig: seq<WorkspaceConfig>, screens: seq<ScreenInfo>)
      ensures Valid()
      ensures |visible| == Min(|screens|, Max(|workspacesConfig|, 1) - 1)
      ensures forall i :: 0 <= i < |visible| ==> visible[i].workspace == i + 1 && visible[i].info == screens[i]
      ensures forall i :: 0 <= i < |visible| ==> fresh(visible[i]) && visible[i].docks == []
      ensures forall i, j :: 0 <= i < j < |visible| ==> visible[i] != visible[j]
      ensures |workspaces| == |workspacesConfig|
      ensures forall i :: 0 <= i < |workspaces| ==> workspaces[i].name == workspacesConfig[i].name
      ensures forall i :: 0 <= i < |workspaces| ==> fresh(workspaces[i].layout) && workspaces[i].layout.Model() == Bsp.EmptyLayout()
      ensures forall i, j :: 0 <= i < j < |workspaces| ==> workspaces[i].layout != workspaces[j].layout
      ensures currentScreen == 0 && windowsStatus == map[]
    {
      var ws := NewWorkspaces(workspacesConfig);
      var vs := NewScreens(screens, |workspacesConfig|);
      currentScreen := 0;
      visible := vs;
      workspaces := ws;
      windowsStatus := map[];
    }

    /** `contains`: whether the window has a status. */
    function Contains(windowId: Id): bool
      reads this
    {
      windowId in windowsStatus
    }

    /** `add_window`: it only reports an already managed window; no state changes. */
    method AddWindow(windowId: Id)
      ensures windowsStatus == old(windowsStatus)
    {
      if Contains(windowId) {
        // the source only logs that the window is already managed
        return;
      }
    }

    /** `get_workspace_names`: one name per workspace, in order. */
    function GetWorkspaceNames(): (r: seq<string>)
      reads this
      ensures |r| == |workspaces|
      ensures forall i :: 0 <= i < |r| ==> r[i] == workspaces[i].name
    {
      Names(workspaces)
    }

    /**
     * `focused_workspace`: the workspace of the focused screen, a valid
     * index into `get_workspace_names()`.
     */
    function FocusedWorkspace(): (ix: nat)
      reads this
      requires Valid() && currentScreen < |visible|
      ensures 1 <= ix < |GetWorkspaceNames()|
    {
      visible[currentScreen].workspace
    }
  }

  /** With at least one screen and two workspaces, a new window set focuses workspace 1. */
  method StartupFocus<Id(==)>(workspacesConfig: seq<WorkspaceConfig>, screens: seq<ScreenInfo>)
    returns (focused: nat)
    requires |screens| >= 1 && |workspacesConfig| >= 2
    ensures focused == 1
  {
    var windows := new WindowSet<Id>(workspacesConfig, screens);
    focused := windows.FocusedWorkspace();
  }

  /** `add_window` never records a window, so after any number of them nothing is contained. */
  method AddedWindowsStayUnmanaged<Id(==)>(workspacesConfig: seq<WorkspaceConfig>, screens: seq<ScreenInfo>,
                                           added: seq<Id>, probe: Id)
    returns (managed: bool)
    ensures !managed
  {
    var windows := new WindowSet<Id>(workspacesConfig, screens);
    for i := 0 to |added|
      invariant windows.windowsStatus == map[]
    {
      windows.AddWindow(added[i]);
    }
    managed := windows.Contains(probe);
  }
}
