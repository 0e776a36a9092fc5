/**
 * The split/tab workspace as a value: a row of splits, each a row of tabs
 * holding one view, the active tab of every split (`TabbedState::selected`),
 * the selected split, and the tab recorded with it by
 * `establish_active_split`.
 *
 * The functions here specify `SplitTab.SplitTabState`, whose methods change
 * the same state in place; the lemmas are the properties the workspace keeps.
 */
module Workspace {
  import opened Wrappers
  import opened Paths
  import opened Document

  type Pos = (nat, nat)

  datatype Arena = Arena(
    tabs: seq<seq<View>>,
    tabbed: seq<Option<nat>>,
    selSplit: Option<nat>,
    selTab: Option<nat>)

  /**
   * The invariant every reachable workspace keeps: one tab strip per split,
   * no empty split, an active tab inside every split, and a selected split
   * that exists.
   */
  predicate Valid(a: Arena) {
    && |a.tabbed| == |a.tabs|
    && (forall s :: 0 <= s < |a.tabs| ==>
          |a.tabs[s]| > 0 && a.tabbed[s].Some? && a.tabbed[s].value < |a.tabs[s]|)
    && (a.selSplit.Some? ==> a.selSplit.value < |a.tabs|)
  }

  /** `SplitTabState::default`. */
  const Empty := Arena([], [], None, None)

  predicate IsPos(a: Arena, pos: Pos) {
    pos.0 < |a.tabs| && pos.1 < |a.tabs[pos.0]|
  }

  function At(a: Arena, pos: Pos): View
    requires IsPos(a, pos)
  {
    a.tabs[pos.0][pos.1]
  }

  /** The view shown in split `s`. */
  function ActiveView(a: Arena, s: nat): View
    requires Valid(a) && s < |a.tabs|
  {
    a.tabs[s][a.tabbed[s].value]
  }

  function Insert<T>(xs: seq<T>, i: nat, x: T): (r: seq<T>)
    requires i <= |xs|
    ensures |r| == |xs| + 1 && r[i] == x
    ensures forall k :: 0 <= k < i ==> r[k] == xs[k]
    ensures forall k :: i < k < |r| ==> r[k] == xs[k - 1]
  {
    xs[..i] + [x] + xs[i..]
  }

  function RemoveAt<T>(xs: seq<T>, i: nat): (r: seq<T>)
    requires i < |xs|
    ensures |r| == |xs| - 1
    ensures forall k :: 0 <= k < i ==> r[k] == xs[k]
    ensures forall k :: i <= k < |r| ==> r[k] == xs[k + 1]
  {
    xs[..i] + xs[i + 1..]
  }

  /** Same splits, same tab counts, same active tabs and the same selection. */
  predicate SameLayout(a: Arena, b: Arena) {
    && |b.tabs| == |a.tabs|
    && (forall s :: 0 <= s < |a.tabs| ==> |b.tabs[s]| == |a.tabs[s]|)
    && b.tabbed == a.tabbed && b.selSplit == a.selSplit && b.selTab == a.selTab
  }

  /**
   * A view written back through the `&mut` reference that `selected_mut`
   * and `for_path_mut` hand out: that tab holds `v`, nothing else changes.
   */
  function Update(a: Arena, pos: Pos, v: View): (r: Arena)
    requires Valid(a) && IsPos(a, pos)
    ensures Valid(r) && SameLayout(a, r) && At(r, pos) == v
    ensures forall q :: IsPos(a, q) && q != pos ==> At(r, q) == At(a, q)
  {
    a.(tabs := a.tabs[pos.0 := a.tabs[pos.0][pos.1 := v]])
  }

  // ---------------------------------------------------------------------------
  // Queries

  /** `selected_pos`: the selected split and its active tab. */
  function SelectedPos(a: Arena): (r: Option<Pos>)
    requires Valid(a)
    ensures r.Some? ==> IsPos(a, r.value)
    ensures r.Some? <==> a.selSplit.Some?
    ensures r.Some? ==> r.value == (a.selSplit.value, a.tabbed[a.selSplit.value].value)
  {
    match a.selSplit
    case None => None
    case Some(s) =>
      match a.tabbed[s]
      case Some(t) => Some((s, t))
      case None => None
  }

  /** `selected`: the selected position with its view. */
  function Selected(a: Arena): (r: Option<(Pos, View)>)
    requires Valid(a)
    ensures r.Some? <==> SelectedPos(a).Some?
    ensures r.Some? ==> r.value.0 == SelectedPos(a).value && r.value.1 == At(a, r.value.0)
  {
    match SelectedPos(a)
    case None => None
    case Some(pos) => Some((pos, At(a, pos)))
  }

  /** Position `x` comes before `y` in split-then-tab order. */
  predicate Before(x: Pos, y: Pos) {
    x.0 < y.0 || (x.0 == y.0 && x.1 < y.1)
  }

  /** The first tab of `vs`, from `t` on, showing path `p`. */
  function IndexOfPath(vs: seq<View>, p: Path, t: nat): (r: Option<nat>)
    requires t <= |vs|
    ensures r.Some? ==> t <= r.value < |vs| && vs[r.value].path == p
    ensures r.Some? ==> forall k :: t <= k < r.value ==> vs[k].path != p
    ensures r.None? ==> forall k :: t <= k < |vs| ==> vs[k].path != p
    decreases |vs| - t
  {
    if t == |vs| then None
    else if vs[t].path == p then Some(t)
    else IndexOfPath(vs, p, t + 1)
  }

  /** The first position, from split `s` on, whose view shows path `p`. */
  function FindPath(tabs: seq<seq<View>>, p: Path, s: nat): (r: Option<Pos>)
    requires s <= |tabs|
    ensures r.Some? ==> s <= r.value.0 < |tabs| && r.value.1 < |tabs[r.value.0]|
    ensures r.Some? ==> tabs[r.value.0][r.value.1].path == p
    ensures r.Some? ==> forall i, j :: s <= i < |tabs| && 0 <= j < |tabs[i]| && Before((i, j), r.value) ==> tabs[i][j].path != p
    ensures r.None? ==> forall i, j :: s <= i < |tabs| && 0 <= j < |tabs[i]| ==> tabs[i][j].path != p
    decreases |tabs| - s
  {
    if s == |tabs| then None
    else
      match IndexOfPath(tabs[s], p, 0)
      case Some(t) => Some((s, t))
      case None => FindPath(tabs, p, s + 1)
  }

  /** `for_path`: the first view showing `p`, in split-then-tab order. */
  function ForPath(a: Arena, p: Path): (r: Option<Pos>)
    ensures r.Some? ==> IsPos(a, r.value) && At(a, r.value).path == p
    ensures r.Some? ==> forall q :: IsPos(a, q) && Before(q, r.value) ==> At(a, q).path != p
    ensures r.None? <==> forall q :: IsPos(a, q) ==> At(a, q).path != p
  {
    FindPath(a.tabs, p, 0)
  }

  // ---------------------------------------------------------------------------
  // Opening and closing tabs

  predicate CanOpen(a: Arena, pos: Pos) {
    pos.0 <= |a.tabs| && pos.1 <= (if pos.0 < |a.tabs| then |a.tabs[pos.0]| else 0)
  }

  /**
   * `open`: a position one past the last split first adds an empty split.
   * The view is inserted at `pos.1`; the split's active tab moves up by one
   * when it sits at or after the insertion point, and a split without
   * one makes the new tab active.
   */
  function Open(a: Arena, pos: Pos, v: View): (r: Arena)
    requires Valid(a) && CanOpen(a, pos)
    ensures Valid(r)
  {
    var a1 := if pos.0 == |a.tabs| then a.(tabs := a.tabs + [[]], tabbed := a.tabbed + [None]) else a;
    var active := match a1.tabbed[pos.0]
      case Some(t) => if t >= pos.1 then Some(t + 1) else Some(t)
      case None => Some(0);
    var r := a1.(tabbed := a1.tabbed[pos.0 := active],
                 tabs := a1.tabs[pos.0 := Insert(a1.tabs[pos.0], pos.1, v)]);
    assert forall s :: 0 <= s < |r.tabs| && s != pos.0 ==> r.tabs[s] == a.tabs[s] && r.tabbed[s] == a.tabbed[s];
    r
  }

  /** The active tab of split `pos.0` after the tab at `pos.1` was removed from it. */
  function ActiveAfterRemove(sel: Option<nat>, removed: nat, newLen: nat): Option<nat> {
    match sel
    case None => None
    case Some(t) =>
      if t >= removed then
        (if t > 0 then Some(t - 1) else if newLen > 0 then Some(0) else None)
      else
        (if t == 0 then (if newLen > 0 then Some(0) else None) else Some(t))
  }

  /**
   * The removal step of `close`: the tab goes, the active tab is adjusted,
   * and a split left empty goes too, with the selected split adjusted by
   * the same rule.
   */
  function Remove(a: Arena, pos: Pos): (r: Arena)
    requires Valid(a) && IsPos(a, pos)
    ensures Valid(r)
  {
    var split := RemoveAt(a.tabs[pos.0], pos.1);
    var active := ActiveAfterRemove(a.tabbed[pos.0], pos.1, |split|);
    if |split| > 0 then
      a.(tabs := a.tabs[pos.0 := split], tabbed := a.tabbed[pos.0 := active])
    else
      var tabbed := RemoveAt(a.tabbed, pos.0);
      a.(tabs := RemoveAt(a.tabs, pos.0), tabbed := tabbed,
         selSplit := ActiveAfterRemove(a.selSplit, pos.0, |tabbed|))
  }

  /**
   * `close`: nothing happens for a position that holds no tab. Otherwise
   * the tab's view is saved first; when that fails the error is returned
   * and nothing is removed.
   */
  function Close(a: Arena, pos: Pos, d: Disk): (r: (Result<()>, Arena, Disk))
    requires Valid(a)
    ensures Valid(r.1)
  {
    if !IsPos(a, pos) then (Ok(()), a, d)
    else
      var (res, _, d2) := SaveView(At(a, pos), d);
      if res.Err? then (res, a, d2) else (Ok(()), Remove(a, pos), d2)
  }

  // ---------------------------------------------------------------------------
  // Selection

  /** `select`: selects the split and makes the tab its active one; ignored for a missing tab. */
  function Select(a: Arena, pos: Pos): (r: Arena)
    requires Valid(a)
    ensures Valid(r)
  {
    if IsPos(a, pos) then a.(selSplit := Some(pos.0), tabbed := a.tabbed[pos.0 := Some(pos.1)]) else a
  }

  /** `select_next`: the split to the right, at its own active tab. */
  function SelectNext(a: Arena): (r: (bool, Arena))
    requires Valid(a)
    ensures Valid(r.1)
  {
    match a.selSplit
    case Some(s) =>
      if s + 1 < |a.tabs| then (true, Select(a, (s + 1, a.tabbed[s + 1].GetOr(0)))) else (false, a)
    case None => (false, a)
  }

  /** `select_prev`: the split to the left, at its own active tab. */
  function SelectPrev(a: Arena): (r: (bool, Arena))
    requires Valid(a)
    ensures Valid(r.1)
  {
    match a.selSplit
    case Some(s) =>
      if s > 0 then (true, Select(a, (s - 1, a.tabbed[s - 1].GetOr(0)))) else (false, a)
    case None => (false, a)
  }

  /** The first split, from `s` on, whose active view carries the focus. */
  function FirstFocused(a: Arena, focused: nat, s: nat): (r: Option<nat>)
    requires Valid(a) && s <= |a.tabs|
    ensures r.Some? ==> s <= r.value < |a.tabs| && ActiveView(a, r.value).id == focused
    ensures r.Some? ==> forall k :: s <= k < r.value ==> ActiveView(a, k).id != focused
    ensures r.None? ==> forall k :: s <= k < |a.tabs| ==> ActiveView(a, k).id != focused
    decreases |a.tabs| - s
  {
    if s == |a.tabs| then None
    else if ActiveView(a, s).id == focused then Some(s)
    else FirstFocused(a, focused, s + 1)
  }

  /**
   * `establish_active_split`: the first split whose active view holds the
   * focus becomes the selected split, with its active tab; the result says
   * whether that changed anything.
   */
  function EstablishActiveSplit(a: Arena, focused: nat): (r: (bool, Arena))
    requires Valid(a)
    ensures Valid(r.1)
    ensures r.0 <==> r.1 != a
  {
    match FirstFocused(a, focused, 0)
    case None => (false, a)
    case Some(s) =>
      var r := a.(selSplit := Some(s), selTab := a.tabbed[s]);
      (a.selSplit != r.selSplit || a.selTab != r.selTab, r)
  }

  // ---------------------------------------------------------------------------
  // Saving and replaying

  /**
   * Saving views left to right, stopping at the first failure: the views
   * before it are saved, it and those after it are left as they were, and
   * the disk is as the failed save left it.
   */
  function SaveSeq(vs: seq<View>, d: Disk): (r: (Result<()>, seq<View>, Disk))
    ensures |r.1| == |vs|
    decreases |vs|
  {
    if |vs| == 0 then (Ok(()), vs, d)
    else
      var (res, v0, d0) := SaveView(vs[0], d);
      if res.Err? then (res, vs, d0)
      else
        var (res1, rest, d1) := SaveSeq(vs[1..], d0);
        (res1, [v0] + rest, d1)
  }

  /** The views of every split in turn, stopping at the first failure. */
  function SaveTabs(tabs: seq<seq<View>>, d: Disk): (r: (Result<()>, seq<seq<View>>, Disk))
    ensures |r.1| == |tabs|
    decreases |tabs|
  {
    if |tabs| == 0 then (Ok(()), tabs, d)
    else
      var (res, vs, d0) := SaveSeq(tabs[0], d);
      if res.Err? then (res, [vs] + tabs[1..], d0)
      else
        var (res1, rest, d1) := SaveTabs(tabs[1..], d0);
        (res1, [vs] + rest, d1)
  }

  /** Saving keeps every split's length. */
  lemma {:induction false} SaveTabsShape(tabs: seq<seq<View>>, d: Disk)
    ensures var ts := SaveTabs(tabs, d).1;
      forall s :: 0 <= s < |tabs| ==> |ts[s]| == |tabs[s]|
    decreases |tabs|
  {
    if |tabs| > 0 {
      var (res0, vs, d0) := SaveSeq(tabs[0], d);
      if res0.Ok? {
        SaveTabsShape(tabs[1..], d0);
      }
    }
  }

  /** `save`: every view of the workspace, split by split. */
  function SaveAll(a: Arena, d: Disk): (r: (Result<()>, Arena, Disk))
    requires Valid(a)
    ensures Valid(r.1)
  {
    SaveTabsShape(a.tabs, d);
    var (res, tabs, d2) := SaveTabs(a.tabs, d);
    (res, a.(tabs := tabs), d2)
  }

  /** A view after another view's edits were replayed into it; its timer restarts. */
  function Replayed(v: View, log: seq<Edit>): View {
    v.(buf := ReplayLog(v.buf, log), timer := true)
  }

  function ReplayAt(a: Arena, id: Pos, p: Path, log: seq<Edit>, s: nat, t: nat): View
    requires s < |a.tabs| && t < |a.tabs[s]|
  {
    var v := a.tabs[s][t];
    if (s, t) != id && v.path == p then Replayed(v, log) else v
  }

  /** `replay`: the log goes to every view of path `p` except the one at `id`. */
  function Replay(a: Arena, id: Pos, p: Path, log: seq<Edit>): (r: Arena)
    requires Valid(a)
    ensures Valid(r)
    ensures |r.tabs| == |a.tabs| && forall s :: 0 <= s < |a.tabs| ==> |r.tabs[s]| == |a.tabs[s]|
  {
    a.(tabs := seq(|a.tabs|, s requires 0 <= s < |a.tabs| =>
                 seq(|a.tabs[s]|, t requires 0 <= t < |a.tabs[s]| => ReplayAt(a, id, p, log, s, t))))
  }

  // ---------------------------------------------------------------------------
  // Properties

  /** The default workspace is valid, so every workspace the operations reach is. */
  lemma EmptyValid()
    ensures Valid(Empty) && SelectedPos(Empty).None?
  {
  }

  /**
   * `open` grows the target split by exactly the new tab, inserted at
   * `pos.1`; every other split, every other active tab and the selection
   * stay as they were.
   */
  lemma OpenShape(a: Arena, pos: Pos, v: View)
    requires Valid(a) && CanOpen(a, pos)
    ensures var r := Open(a, pos, v);
      && |r.tabs| == |a.tabs| + (if pos.0 == |a.tabs| then 1 else 0)
      && r.tabs[pos.0] == Insert(if pos.0 < |a.tabs| then a.tabs[pos.0] else [], pos.1, v)
      && (forall s :: 0 <= s < |a.tabs| && s != pos.0 ==> r.tabs[s] == a.tabs[s] && r.tabbed[s] == a.tabbed[s])
      && r.selSplit == a.selSplit && r.selTab == a.selTab
  {
  }

  /** Opening a view and selecting it: it is the selected view, and the other splits are as before. */
  lemma OpenSelects(a: Arena, pos: Pos, v: View)
    requires Valid(a) && CanOpen(a, pos)
    ensures var r := Select(Open(a, pos, v), pos);
      && SelectedPos(r) == Some(pos) && Selected(r).value.1 == v
      && |r.tabs[pos.0]| == (if pos.0 < |a.tabs| then |a.tabs[pos.0]| else 0) + 1
      && forall q :: IsPos(a, q) && q.0 != pos.0 ==> IsPos(r, q) && At(r, q) == At(a, q)
  {
    OpenShape(a, pos, v);
    var o := Open(a, pos, v);
    assert IsPos(o, pos) && At(o, pos) == v;
    SelectSelects(o, pos);
  }

  /**
   * `open` keeps the view every existing split shows, because its active
   * tab moves with the insertion; a new split shows the new view.
   */
  lemma OpenKeepsActive(a: Arena, pos: Pos, v: View)
    requires Valid(a) && CanOpen(a, pos)
    ensures var r := Open(a, pos, v);
      && (forall s :: 0 <= s < |a.tabs| ==> ActiveView(r, s) == ActiveView(a, s))
      && (pos.0 == |a.tabs| ==> ActiveView(r, pos.0) == v)
      && (pos.0 < |a.tabs| ==>
            var t := a.tabbed[pos.0].value;
            r.tabbed[pos.0] == Some(if t >= pos.1 then t + 1 else t))
      && (Selected(a).Some? ==> Selected(r).Some? && Selected(r).value.1 == Selected(a).value.1)
  {
    var r := Open(a, pos, v);
    OpenShape(a, pos, v);
    forall s | 0 <= s < |a.tabs| ensures ActiveView(r, s) == ActiveView(a, s) {
      if s == pos.0 {
        var t := a.tabbed[s].value;
        if t >= pos.1 {
          assert r.tabs[s][t + 1] == a.tabs[s][t];
        } else {
          assert r.tabs[s][t] == a.tabs[s][t];
        }
      }
    }
    if Selected(a).Some? {
      var s := a.selSplit.value;
      assert Selected(a).value.1 == ActiveView(a, s);
      assert Selected(r).value.1 == ActiveView(r, s);
    }
  }

  /** A file opened where no view showed it is found where it was opened. */
  lemma OpenThenForPath(a: Arena, pos: Pos, v: View)
    requires Valid(a) && CanOpen(a, pos) && ForPath(a, v.path).None?
    ensures ForPath(Open(a, pos, v), v.path) == Some(pos)
  {
    var r := Open(a, pos, v);
    OpenShape(a, pos, v);
    assert IsPos(r, pos) && At(r, pos).path == v.path;
    forall q: Pos | IsPos(r, q) && q != pos ensures At(r, q).path != v.path {
      if q.0 == pos.0 {
        if q.1 < pos.1 {
          assert IsPos(a, q);
        } else {
          assert q.1 > pos.1;
          var q1: Pos := (q.0, q.1 - 1);
          assert IsPos(a, q1) && At(r, q) == At(a, q1);
        }
      } else {
        assert IsPos(a, q);
      }
    }
  }

  /** `close` of a position that holds no tab changes nothing. */
  lemma CloseMissing(a: Arena, pos: Pos, d: Disk)
    requires Valid(a) && !IsPos(a, pos)
    ensures Close(a, pos, d) == (Ok(()), a, d)
  {
  }

  /** When saving the tab fails, `close` returns the error and removes nothing. */
  lemma CloseSaveFails(a: Arena, pos: Pos, d: Disk)
    requires Valid(a) && IsPos(a, pos)
    requires At(a, pos).changed && At(a, pos).path in d.faults
    ensures Close(a, pos, d).0.Err? && Close(a, pos, d).1 == a
    ensures Close(a, pos, d).2 == SaveView(At(a, pos), d).2
  {
  }

  /** A successful `close` of a tab removes exactly it, with its split when that became empty. */
  lemma CloseRemoves(a: Arena, pos: Pos, d: Disk)
    requires Valid(a) && IsPos(a, pos)
    requires !At(a, pos).changed || At(a, pos).path !in d.faults
    ensures Close(a, pos, d).0.Ok? && Close(a, pos, d).1 == Remove(a, pos)
    ensures Close(a, pos, d).2 == SaveView(At(a, pos), d).2
  {
  }

  /**
   * The removal keeps every other tab in order; the split disappears,
   * together with its tab strip, exactly when its last tab went. In a
   * split that stays, the active tab still shows the same view, unless
   * that view was the one removed: then its left neighbour, or the new
   * first tab, becomes active.
   */
  lemma RemoveShape(a: Arena, pos: Pos)
    requires Valid(a) && IsPos(a, pos)
    ensures var r := Remove(a, pos);
      && r.selTab == a.selTab
      && (|a.tabs[pos.0]| == 1 ==>
            && r.tabs == RemoveAt(a.tabs, pos.0) && r.tabbed == RemoveAt(a.tabbed, pos.0)
            && r.selSplit == ActiveAfterRemove(a.selSplit, pos.0, |a.tabs| - 1))
      && (|a.tabs[pos.0]| > 1 ==>
            && r.tabs == a.tabs[pos.0 := RemoveAt(a.tabs[pos.0], pos.1)] && r.selSplit == a.selSplit
            && |r.tabbed| == |a.tabbed|
            && (forall s :: 0 <= s < |a.tabbed| && s != pos.0 ==> r.tabbed[s] == a.tabbed[s])
            && r.tabbed[pos.0].Some? && r.tabbed[pos.0].value < |r.tabs[pos.0]|
            && (a.tabbed[pos.0].value != pos.1 ==>
                  r.tabs[pos.0][r.tabbed[pos.0].value] == a.tabs[pos.0][a.tabbed[pos.0].value])
            && (a.tabbed[pos.0].value == pos.1 ==>
                  r.tabbed[pos.0].value == if pos.1 > 0 then pos.1 - 1 else 0))
  {
  }

  /**
   * After the removal a selected split is gone only when no split is left;
   * otherwise the selection points at an existing split.
   */
  lemma RemoveSelection(a: Arena, pos: Pos)
    requires Valid(a) && IsPos(a, pos) && a.selSplit.Some?
    ensures var r := Remove(a, pos);
      (r.selSplit.None? <==> |r.tabs| == 0) && (r.selSplit.Some? ==> r.selSplit.value < |r.tabs|)
  {
  }

  /**
   * Closing any tab but the selected one leaves the same view selected:
   * the active tab and the selected split shift with the removal.
   */
  lemma RemoveKeepsSelected(a: Arena, pos: Pos)
    requires Valid(a) && IsPos(a, pos)
    requires SelectedPos(a).Some? && SelectedPos(a).value != pos
    ensures Selected(Remove(a, pos)).Some?
    ensures Selected(Remove(a, pos)).value.1 == Selected(a).value.1
  {
    var r := Remove(a, pos);
    var (s, t) := SelectedPos(a).value;
    var n := |a.tabs[pos.0]|;
    if n > 1 {
      if s == pos.0 {
        var t2 := r.tabbed[s].value;
        if t > pos.1 {
          assert t2 == t - 1;
          assert r.tabs[s][t2] == a.tabs[s][t];
        } else {
          assert t < pos.1;
          assert t2 == t;
        }
      }
    } else {
      assert s != pos.0;
      if s > pos.0 {
        assert r.selSplit == Some(s - 1);
        assert r.tabs[s - 1] == a.tabs[s] && r.tabbed[s - 1] == a.tabbed[s];
      } else {
        assert r.selSplit == Some(s);
        assert r.tabs[s] == a.tabs[s] && r.tabbed[s] == a.tabbed[s];
      }
    }
  }

  /** `select` selects exactly the given tab, and ignores a position that holds none. */
  lemma SelectSelects(a: Arena, pos: Pos)
    requires Valid(a)
    ensures var r := Select(a, pos);
      if IsPos(a, pos) then
        && SelectedPos(r) == Some(pos) && Selected(r).value.1 == At(a, pos)
        && r.tabs == a.tabs && r.selTab == a.selTab
        && (forall s :: 0 <= s < |a.tabs| && s != pos.0 ==> r.tabbed[s] == a.tabbed[s])
      else r == a
  {
  }

  /**
   * `select_next` moves the selection one split to the right and keeps that
   * split's own active tab; at the last split, or with nothing selected, it
   * reports false and changes nothing.
   */
  lemma SelectNextMoves(a: Arena)
    requires Valid(a)
    ensures var (moved, r) := SelectNext(a);
      && (moved <==> a.selSplit.Some? && a.selSplit.value + 1 < |a.tabs|)
      && (moved ==> r == a.(selSplit := Some(a.selSplit.value + 1)))
      && (!moved ==> r == a)
  {
    if a.selSplit.Some? && a.selSplit.value + 1 < |a.tabs| {
      var s := a.selSplit.value + 1;
      assert a.tabbed[s := a.tabbed[s]] == a.tabbed;
    }
  }

  /** The mirror image of `SelectNextMoves`. */
  lemma SelectPrevMoves(a: Arena)
    requires Valid(a)
    ensures var (moved, r) := SelectPrev(a);
      && (moved <==> a.selSplit.Some? && a.selSplit.value > 0)
      && (moved ==> r == a.(selSplit := Some(a.selSplit.value - 1)))
      && (!moved ==> r == a)
  {
    if a.selSplit.Some? && a.selSplit.value > 0 {
      var s := a.selSplit.value - 1;
      assert a.tabbed[s := a.tabbed[s]] == a.tabbed;
    }
  }

  /** Moving right and then left comes back to the same workspace. */
  lemma SelectNextPrev(a: Arena)
    requires Valid(a) && SelectNext(a).0
    ensures SelectPrev(SelectNext(a).1) == (true, a)
  {
    SelectNextMoves(a);
    var r := SelectNext(a).1;
    SelectPrevMoves(r);
  }

  /**
   * `establish_active_split` selects the first split whose shown view holds
   * the focus, and does nothing when no shown view does; a second call
   * reports no change.
   */
  lemma EstablishSelectsFocused(a: Arena, focused: nat)
    requires Valid(a)
    ensures var (_, r) := EstablishActiveSplit(a, focused);
      && r.tabs == a.tabs && r.tabbed == a.tabbed
      && (FirstFocused(a, focused, 0).Some? ==>
            r.selSplit == FirstFocused(a, focused, 0) && Selected(r).value.1.id == focused
            && r.selTab == Some(SelectedPos(r).value.1))
      && (FirstFocused(a, focused, 0).None? ==> r == a)
    ensures !EstablishActiveSplit(EstablishActiveSplit(a, focused).1, focused).0
  {
    var r := EstablishActiveSplit(a, focused).1;
    if FirstFocused(a, focused, 0).Some? {
      FirstFocusedSame(a, r, focused, 0);
    }
  }

  lemma {:induction false} FirstFocusedSame(a: Arena, b: Arena, focused: nat, s: nat)
    requires Valid(a) && Valid(b) && a.tabs == b.tabs && a.tabbed == b.tabbed && s <= |a.tabs|
    ensures FirstFocused(a, focused, s) == FirstFocused(b, focused, s)
    decreases |a.tabs| - s
  {
    if s < |a.tabs| {
      FirstFocusedSame(a, b, focused, s + 1);
    }
  }

  /** The views of `vs` that `save` would fail on. */
  predicate SeqSavable(vs: seq<View>, d: Disk) {
    forall k :: 0 <= k < |vs| && vs[k].changed ==> vs[k].path !in d.faults
  }

  /**
   * Saving a row of views succeeds exactly when no dirty view sits on a
   * path that cannot be written; then every view is clean, and in any case
   * every view is either untouched or only marked clean.
   */
  lemma {:induction false} SaveSeqContract(vs: seq<View>, d: Disk)
    ensures var (res, ws, d2) := SaveSeq(vs, d);
      && d2.faults == d.faults
      && (res.Ok? <==> SeqSavable(vs, d))
      && (res.Ok? ==> forall k :: 0 <= k < |vs| ==> ws[k] == vs[k].(changed := false))
      && (forall k :: 0 <= k < |vs| ==> ws[k] == vs[k] || ws[k] == vs[k].(changed := false))
    decreases |vs|
  {
    if |vs| > 0 {
      var (res0, v0, d0) := SaveView(vs[0], d);
      if res0.Ok? {
        SaveSeqContract(vs[1..], d0);
        var (res, ws, d2) := SaveSeq(vs, d);
        assert ws[1..] == SaveSeq(vs[1..], d0).1;
        assert d0.faults == d.faults;
        assert forall k :: 1 <= k < |vs| ==> ws[k] == SaveSeq(vs[1..], d0).1[k - 1] && vs[k] == vs[1..][k - 1];
        if !SeqSavable(vs, d) {
          var k :| 0 <= k < |vs| && vs[k].changed && vs[k].path in d.faults;
          assert k > 0 && vs[1..][k - 1] == vs[k];
        }
      }
    }
  }

  /** Every view of the workspace that `save` would fail on. */
  predicate Savable(tabs: seq<seq<View>>, d: Disk) {
    forall s :: 0 <= s < |tabs| ==> SeqSavable(tabs[s], d)
  }

  /**
   * What saving the splits promises: every split keeps its length, the locks
   * stay, it succeeds exactly when every split is savable, and then every
   * view is clean; in any case every view is untouched or only marked clean.
   */
  predicate SavedTabs(tabs: seq<seq<View>>, d: Disk, r: (Result<()>, seq<seq<View>>, Disk)) {
    var (res, ts, d2) := r;
    && |ts| == |tabs|
    && (forall s :: 0 <= s < |tabs| ==> |ts[s]| == |tabs[s]|)
    && d2.faults == d.faults
    && (res.Ok? <==> Savable(tabs, d))
    && (res.Ok? ==> forall s, k :: 0 <= s < |tabs| && 0 <= k < |tabs[s]| ==> ts[s][k] == tabs[s][k].(changed := false))
    && (forall s, k :: 0 <= s < |tabs| && 0 <= k < |tabs[s]| ==> ts[s][k] == tabs[s][k] || ts[s][k] == tabs[s][k].(changed := false))
  }

  lemma {:induction false} SaveTabsContract(tabs: seq<seq<View>>, d: Disk)
    ensures SavedTabs(tabs, d, SaveTabs(tabs, d))
    decreases |tabs|
  {
    if |tabs| > 0 {
      var (res0, vs, d0) := SaveSeq(tabs[0], d);
      if res0.Ok? {
        SaveTabsContract(tabs[1..], d0);
      }
      SaveTabsCons(tabs, d);
    }
  }

  /** The step of `SaveTabsContract`: the first split, then the rest as promised. */
  lemma SaveTabsCons(tabs: seq<seq<View>>, d: Disk)
    requires |tabs| > 0
    requires var (res0, vs, d0) := SaveSeq(tabs[0], d);
      res0.Ok? ==> SavedTabs(tabs[1..], d0, SaveTabs(tabs[1..], d0))
    ensures SavedTabs(tabs, d, SaveTabs(tabs, d))
  {
    SaveTabsShape(tabs, d);
    SaveSeqContract(tabs[0], d);
    var (res0, vs, d0) := SaveSeq(tabs[0], d);
    var (res, ts, d2) := SaveTabs(tabs, d);
    if res0.Ok? {
      var tl := SaveTabs(tabs[1..], d0);
      assert ts == [vs] + tl.1 && res == tl.0;
      forall s, k | 0 <= s < |tabs| && 0 <= k < |tabs[s]|
        ensures ts[s][k] == tabs[s][k] || ts[s][k] == tabs[s][k].(changed := false)
        ensures res.Ok? ==> ts[s][k] == tabs[s][k].(changed := false)
      {
        if s > 0 {
          assert ts[s] == tl.1[s - 1] && tabs[s] == tabs[1..][s - 1];
        }
      }
      if !Savable(tabs, d) {
        var s :| 0 <= s < |tabs| && !SeqSavable(tabs[s], d);
        assert s > 0 && tabs[1..][s - 1] == tabs[s];
      }
    } else {
      assert forall s :: 1 <= s < |tabs| ==> ts[s] == tabs[s];
    }
  }




  /**
   * `save` of the workspace succeeds exactly when no dirty view sits on a
   * path that cannot be written, and then leaves every view clean and
   * otherwise as it was; whatever happens, no view changes but its flag,
   * and the layout and selection stay.
   */
  lemma SaveAllContract(a: Arena, d: Disk)
    requires Valid(a)
    ensures var (res, r, d2) := SaveAll(a, d);
      && (res.Ok? <==> Savable(a.tabs, d))
      && (res.Ok? ==> forall q :: IsPos(a, q) ==> IsPos(r, q) && At(r, q) == At(a, q).(changed := false))
      && (forall q :: IsPos(a, q) ==> IsPos(r, q) && (At(r, q) == At(a, q) || At(r, q) == At(a, q).(changed := false)))
      && r.tabbed == a.tabbed && r.selSplit == a.selSplit && r.selTab == a.selTab
  {
    SaveTabsContract(a.tabs, d);
  }

  /**
   * The fan-out of `replay`: when every view of `p` except the originator
   * at `id` holds text `T`, afterwards each of them holds `T` with the log
   * applied once; the originator and the views of other files are
   * untouched, and so are the layout and the selection.
   */
  lemma ReplayFansOut(a: Arena, id: Pos, p: Path, log: seq<Edit>, text: string)
    requires Valid(a)
    requires forall q :: IsPos(a, q) && q != id && At(a, q).path == p ==> At(a, q).buf.text == text
    ensures var r := Replay(a, id, p, log);
      && (forall q :: IsPos(a, q) ==> IsPos(r, q) && At(r, q).path == At(a, q).path)
      && (forall q :: IsPos(a, q) && q != id && At(a, q).path == p ==>
            At(r, q).buf.text == ApplyEdits(text, log) && At(r, q).buf.log == At(a, q).buf.log)
      && (IsPos(a, id) ==> At(r, id) == At(a, id))
      && (forall q :: IsPos(a, q) && At(a, q).path != p ==> At(r, q) == At(a, q))
      && r.tabbed == a.tabbed && r.selSplit == a.selSplit && r.selTab == a.selTab
  {
  }
}
