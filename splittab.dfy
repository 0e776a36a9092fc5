/**
 * `SplitTabState` of `split_tab.rs`: the workspace as the source keeps it,
 * fields changed in place. Every method is proved to leave the state (and
 * the disk) the corresponding `Workspace` function computes, so the
 * properties proved there hold for the object.
 */
module SplitTab {
  import opened Wrappers
  import opened Paths
  import opened Document
  import W = Workspace

  type Pos = W.Pos

  /** A finished save of the views after `done`, with `done` put back in front. */
  function PrependSeq(done: seq<View>, r: (Result<()>, seq<View>, Disk)): (Result<()>, seq<View>, Disk) {
    (r.0, done + r.1, r.2)
  }

  function PrependTabs(done: seq<seq<View>>, r: (Result<()>, seq<seq<View>>, Disk)): (Result<()>, seq<seq<View>>, Disk) {
    (r.0, done + r.1, r.2)
  }

  lemma SaveSeqUnfold(vs: seq<View>, i: nat, d: Disk)
    requires i < |vs|
    ensures var (res, v, d2) := SaveView(vs[i], d);
      W.SaveSeq(vs[i..], d) == (if res.Err? then (res, vs[i..], d2) else PrependSeq([v], W.SaveSeq(vs[i + 1..], d2)))
  {
    assert vs[i..][0] == vs[i];
    assert vs[i..][1..] == vs[i + 1..];
  }

  lemma SaveTabsUnfold(tabs: seq<seq<View>>, i: nat, d: Disk)
    requires i < |tabs|
    ensures var (res, vs, d2) := W.SaveSeq(tabs[i], d);
      W.SaveTabs(tabs[i..], d) == (if res.Err? then (res, [vs] + tabs[i + 1..], d2) else PrependTabs([vs], W.SaveTabs(tabs[i + 1..], d2)))
  {
    assert tabs[i..][0] == tabs[i];
    assert tabs[i..][1..] == tabs[i + 1..];
  }

  /** The view at a removed position makes no difference to what is left. */
  lemma RemoveUpdated(a: W.Arena, pos: Pos, v: View)
    requires W.Valid(a) && W.IsPos(a, pos)
    ensures W.Remove(W.Update(a, pos, v), pos) == W.Remove(a, pos)
  {
    assert W.RemoveAt(a.tabs[pos.0][pos.1 := v], pos.1) == W.RemoveAt(a.tabs[pos.0], pos.1);
  }

  /** The first match of `for_path` is the only position with no earlier match. */
  lemma ForPathIs(a: W.Arena, p: Path, q: Pos)
    requires W.IsPos(a, q) && W.At(a, q).path == p
    requires forall x: Pos :: W.IsPos(a, x) && W.Before(x, q) ==> W.At(a, x).path != p
    ensures W.ForPath(a, p) == Some(q)
  {
    var r := W.ForPath(a, p).value;
    assert !W.Before(r, q);
    assert !W.Before(q, r);
  }

  lemma FirstFocusedIs(a: W.Arena, focused: nat, s: nat)
    requires W.Valid(a) && s < |a.tabs| && W.ActiveView(a, s).id == focused
    requires forall k :: 0 <= k < s ==> W.ActiveView(a, k).id != focused
    ensures W.FirstFocused(a, focused, 0) == Some(s)
  {
  }

  /** One step of saving a split's views; the rest of the split is still to do. */
  lemma SaveSeqStep(row: seq<View>, t: nat, prefix: seq<View>, d: Disk, dT: Disk)
    requires t < |row| && W.SaveSeq(row, d) == PrependSeq(prefix, W.SaveSeq(row[t..], dT))
    ensures var (res, saved, d2) := SaveView(row[t], dT);
      W.SaveSeq(row, d) == if res.Err? then (res, prefix + row[t..], d2)
                           else PrependSeq(prefix + [saved], W.SaveSeq(row[t + 1..], d2))
  {
    SaveSeqUnfold(row, t, dT);
    var (res, saved, d2) := SaveView(row[t], dT);
    if res.Ok? {
      var rest := W.SaveSeq(row[t + 1..], d2);
      assert prefix + ([saved] + rest.1) == (prefix + [saved]) + rest.1;
    }
  }

  /** One step of saving split after split: `all` is the outcome of saving every split. */
  lemma SaveTabsStep(tabs: seq<seq<View>>, s: nat, done: seq<seq<View>>, all: (Result<()>, seq<seq<View>>, Disk),
                     dS: Disk, res: Result<()>, vs: seq<View>, d2: Disk)
    requires s < |tabs| && all == PrependTabs(done, W.SaveTabs(tabs[s..], dS))
    requires (res, vs, d2) == W.SaveSeq(tabs[s], dS)
    ensures res.Err? ==> all == (res, done + [vs] + tabs[s + 1..], d2)
    ensures res.Ok? ==> all == PrependTabs(done + [vs], W.SaveTabs(tabs[s + 1..], d2))
  {
    SaveTabsUnfold(tabs, s, dS);
    var tail := tabs[s + 1..];
    if res.Err? {
      assert done + ([vs] + tail) == done + [vs] + tail;
    } else {
      var rest := W.SaveTabs(tail, d2);
      assert done + ([vs] + rest.1) == (done + [vs]) + rest.1;
    }
  }

  /** The views of one split in turn, stopping at the first failure. */
  method SaveViews(row: seq<View>, d: Disk) returns (res: Result<()>, vs: seq<View>, d2: Disk)
    ensures (res, vs, d2) == W.SaveSeq(row, d)
  {
    vs := [];
    d2 := d;
    assert row[0..] == row && [] + W.SaveSeq(row, d).1 == W.SaveSeq(row, d).1;
    var t := 0;
    while t < |row|
      invariant 0 <= t <= |row| && |vs| == t
      invariant W.SaveSeq(row, d) == PrependSeq(vs, W.SaveSeq(row[t..], d2))
    {
      SaveSeqStep(row, t, vs, d, d2);
      var saved;
      res, saved, d2 := Save(row[t], d2);
      if res.Err? {
        vs := vs + row[t..];
        return;
      }
      vs := vs + [saved];
      t := t + 1;
    }
    assert row[t..] == [] && vs + [] == vs;
    res := Ok(());
  }

  class SplitTabState {
    var tabs: seq<seq<View>>
    var tabbed: seq<Option<nat>>
    var selSplit: Option<nat>
    var selTab: Option<nat>

    function State(): W.Arena
      reads this
    {
      W.Arena(tabs, tabbed, selSplit, selTab)
    }

    predicate Valid()
      reads this
    {
      W.Valid(State())
    }

    /** `SplitTabState::default`: no split, nothing selected. */
    constructor ()
      ensures State() == W.Empty && Valid()
    {
      tabs, tabbed, selSplit, selTab := [], [], None, None;
    }

    /** `establish_active_split`: the first split whose shown view has the focus is selected. */
    method EstablishActiveSplit(focused: nat) returns (changed: bool)
      requires Valid()
      modifies this
      ensures (changed, State()) == W.EstablishActiveSplit(old(State()), focused)
    {
      ghost var a := State();
      var oldSplit, oldTab := selSplit, selTab;
      var s := 0;
      while s < |tabbed|
        invariant 0 <= s <= |tabbed| && State() == a
        invariant forall k :: 0 <= k < s ==> W.ActiveView(a, k).id != focused
      {
        match tabbed[s] {
          case Some(t) =>
            if tabs[s][t].id == focused {
              selSplit, selTab := Some(s), Some(t);
              FirstFocusedIs(a, focused, s);
              break;
            }
          case None =>
        }
        s := s + 1;
      }
      changed := oldSplit != selSplit || oldTab != selTab;
    }

    /** `open`: inserts the view at `pos`, adding a split when `pos.0` is one past the last. */
    method Open(pos: Pos, v: View)
      requires Valid() && W.CanOpen(State(), pos)
      modifies this
      ensures State() == W.Open(old(State()), pos, v)
    {
      if pos.0 == |tabs| {
        tabs := tabs + [[]];
        tabbed := tabbed + [None];
      }
      match tabbed[pos.0] {
        case Some(t) =>
          if t >= pos.1 {
            tabbed := tabbed[pos.0 := Some(t + 1)];
          }
        case None =>
          tabbed := tabbed[pos.0 := Some(0)];
      }
      tabs := tabs[pos.0 := tabs[pos.0][..pos.1] + [v] + tabs[pos.0][pos.1..]];
    }

    /**
     * `close`: saves the tab's view, then removes the tab, adjusts the
     * active tab, and removes a split left empty, adjusting the selected
     * split the same way.
     */
    method Close(pos: Pos, d: Disk) returns (res: Result<()>, d2: Disk)
      requires Valid()
      modifies this
      ensures (res, State(), d2) == W.Close(old(State()), pos, d)
    {
      ghost var a := State();
      res, d2 := Ok(()), d;
      if pos.0 < |tabs| {
        if pos.1 < |tabs[pos.0]| {
          var saved;
          res, saved, d2 := Save(tabs[pos.0][pos.1], d);
          tabs := tabs[pos.0 := tabs[pos.0][pos.1 := saved]];
          if res.Err? {
            assert tabs[pos.0] == a.tabs[pos.0];
            assert tabs == a.tabs;
            return;
          }
          RemoveUpdated(a, pos, saved);
          RemoveTab(pos);
        }
      }
    }

    /** The removal step of `close`: the tab goes, then the split when it is left empty. */
    method RemoveTab(pos: Pos)
      requires Valid() && W.IsPos(State(), pos)
      modifies this
      ensures State() == W.Remove(old(State()), pos)
    {
      ghost var a := State();
      tabs := tabs[pos.0 := tabs[pos.0][..pos.1] + tabs[pos.0][pos.1 + 1..]];
      assert tabs[pos.0] == W.RemoveAt(a.tabs[pos.0], pos.1);
      match tabbed[pos.0] {
        case Some(sel) =>
          var newTab;
          if sel >= pos.1 {
            if sel > 0 {
              newTab := Some(sel - 1);
            } else if |tabs[pos.0]| > 0 {
              newTab := Some(0);
            } else {
              newTab := None;
            }
          } else {
            if sel == 0 {
              if |tabs[pos.0]| > 0 {
                newTab := Some(0);
              } else {
                newTab := None;
              }
            } else {
              newTab := Some(sel);
            }
          }
          tabbed := tabbed[pos.0 := newTab];
        case None =>
      }
      assert tabbed[pos.0] == W.ActiveAfterRemove(a.tabbed[pos.0], pos.1, |tabs[pos.0]|);

      if |tabs[pos.0]| == 0 {
        tabs := tabs[..pos.0] + tabs[pos.0 + 1..];
        tabbed := tabbed[..pos.0] + tabbed[pos.0 + 1..];
        match selSplit {
          case Some(sel) =>
            var newSplit;
            if sel >= pos.0 {
              if sel > 0 {
                newSplit := Some(sel - 1);
              } else if |tabbed| > 0 {
                newSplit := Some(0);
              } else {
                newSplit := None;
              }
            } else {
              if sel == 0 {
                if |tabbed| > 0 {
                  newSplit := Some(0);
                } else {
                  newSplit := None;
                }
              } else {
                newSplit := Some(sel);
              }
            }
            selSplit := newSplit;
          case None =>
        }
        assert selSplit == W.ActiveAfterRemove(a.selSplit, pos.0, |tabbed|);
      }
    }

    /** `select`: the split becomes the selected one and the tab its active tab. */
    method Select(pos: Pos)
      requires Valid()
      modifies this
      ensures State() == W.Select(old(State()), pos)
    {
      if pos.0 < |tabs| {
        if pos.1 < |tabs[pos.0]| {
          selSplit := Some(pos.0);
          tabbed := tabbed[pos.0 := Some(pos.1)];
        }
      }
    }

    /** `select_next`. */
    method SelectNext() returns (moved: bool)
      requires Valid()
      modifies this
      ensures (moved, State()) == W.SelectNext(old(State()))
    {
      match selSplit {
        case Some(s) =>
          if s + 1 < |tabs| {
            var newSplit := s + 1;
            var newTab := tabbed[newSplit].GetOr(0);
            Select((newSplit, newTab));
            return true;
          }
        case None =>
      }
      return false;
    }

    /** `select_prev`. */
    method SelectPrev() returns (moved: bool)
      requires Valid()
      modifies this
      ensures (moved, State()) == W.SelectPrev(old(State()))
    {
      match selSplit {
        case Some(s) =>
          if s > 0 {
            var newSplit := s - 1;
            var newTab := tabbed[newSplit].GetOr(0);
            Select((newSplit, newTab));
            return true;
          }
        case None =>
      }
      return false;
    }

    /** `for_path`: the nested search, split by split and tab by tab. */
    method ForPath(p: Path) returns (r: Option<Pos>)
      ensures r == W.ForPath(State(), p)
    {
      for s := 0 to |tabs|
        invariant forall x: Pos :: W.IsPos(State(), x) && x.0 < s ==> W.At(State(), x).path != p
      {
        for t := 0 to |tabs[s]|
          invariant forall x: Pos :: W.IsPos(State(), x) && (x.0 < s || (x.0 == s && x.1 < t)) ==> W.At(State(), x).path != p
        {
          if tabs[s][t].path == p {
            ForPathIs(State(), p, (s, t));
            return Some((s, t));
          }
        }
      }
      return None;
    }

    /** Writes `v` to the tab at `pos`, as a caller does through `selected_mut` or `for_path_mut`. */
    method Update(pos: Pos, v: View)
      requires Valid() && W.IsPos(State(), pos)
      modifies this
      ensures State() == W.Update(old(State()), pos, v)
    {
      tabs := tabs[pos.0 := tabs[pos.0][pos.1 := v]];
    }

    /** `save`: every view in turn, stopping at the first failure. */
    method SaveAll(d: Disk) returns (res: Result<()>, d2: Disk)
      requires Valid()
      modifies this
      ensures (res, State(), d2) == W.SaveAll(old(State()), d)
    {
      ghost var a := State();
      var done: seq<seq<View>> := [];
      d2 := d;
      var s := 0;
      assert a.tabs[0..] == a.tabs && [] + W.SaveTabs(a.tabs, d).1 == W.SaveTabs(a.tabs, d).1;
      while s < |tabs|
        invariant 0 <= s <= |tabs| == |a.tabs| && |done| == s
        invariant tabs == a.tabs && tabbed == a.tabbed && selSplit == a.selSplit && selTab == a.selTab
        invariant W.SaveTabs(a.tabs, d) == PrependTabs(done, W.SaveTabs(a.tabs[s..], d2))
      {
        ghost var dS := d2;
        var row;
        res, row, d2 := SaveViews(tabs[s], d2);
        SaveTabsStep(a.tabs, s, done, W.SaveTabs(a.tabs, d), dS, res, row, d2);
        if res.Err? {
          tabs := done + [row] + tabs[s + 1..];
          return;
        }
        done := done + [row];
        s := s + 1;
      }
      assert a.tabs[s..] == [] && done + [] == done;
      tabs := done;
      res := Ok(());
    }

    /** `replay`: the edit log goes to every view of `p` but the one at `id`. */
    method Replay(id: Pos, p: Path, log: seq<Edit>)
      requires Valid()
      modifies this
      ensures State() == W.Replay(old(State()), id, p, log)
    {
      ghost var a := State();
      ghost var target := W.Replay(a, id, p, log);
      for s := 0 to |tabs|
        invariant |tabs| == |a.tabs| && tabbed == a.tabbed && selSplit == a.selSplit && selTab == a.selTab
        invariant forall i :: 0 <= i < s ==> tabs[i] == target.tabs[i]
        invariant forall i :: s <= i < |tabs| ==> tabs[i] == a.tabs[i]
      {
        for t := 0 to |tabs[s]|
          invariant |tabs| == |a.tabs| && tabbed == a.tabbed && selSplit == a.selSplit && selTab == a.selTab
          invariant forall i :: 0 <= i < s ==> tabs[i] == target.tabs[i]
          invariant forall i :: s < i < |tabs| ==> tabs[i] == a.tabs[i]
          invariant |tabs[s]| == |a.tabs[s]|
          invariant forall j :: 0 <= j < t ==> tabs[s][j] == target.tabs[s][j]
          invariant forall j :: t <= j < |tabs[s]| ==> tabs[s][j] == a.tabs[s][j]
        {
          if id != (s, t) && tabs[s][t].path == p {
            var tab := tabs[s][t];
            tab := tab.(buf := ReplayLog(tab.buf, log));
            tab := tab.(timer := true);
            tabs := tabs[s := tabs[s][t := tab]];
          }
        }
        assert tabs[s] == target.tabs[s];
      }
      assert tabs == target.tabs;
    }
  }
}
