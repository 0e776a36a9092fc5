/**
 * `MDEditState` of `editor.rs`: the editor's workspace commands, each
 * changing the split/tab state in place through its methods. Every method
 * is proved to leave the workspace the `EditorOps` function computes, so
 * the properties proved there hold for the object.
 */
module Editor {
  import opened Wrappers
  import opened Paths
  import opened Document
  import W = Workspace
  import EF = EditorFile
  import Ops = EditorOps
  import ST = SplitTab

  type Pos = W.Pos

  class MDEditState {
    const splitTab: ST.SplitTabState

    function State(): W.Arena
      reads splitTab
    {
      splitTab.State()
    }

    predicate Valid()
      reads splitTab
    {
      splitTab.Valid()
    }

    constructor ()
      ensures Valid() && State() == W.Empty && fresh(splitTab)
    {
      splitTab := new ST.SplitTabState();
    }

    /** `new`: a fresh view after the selected tab (or at (0, 0)), then selected. */
    method New(p: Path, id: nat, newline: string) returns (c: Control)
      requires Valid()
      modifies splitTab
      ensures Valid() && State() == Ops.New(old(State()), p, id, newline) && c == Changed
    {
      var pos: Pos := (0, 0);
      match W.SelectedPos(splitTab.State()) {
        case Some(sp) => pos := (sp.0, sp.1 + 1);
        case None =>
      }
      var v := EF.NewFile(p, id, newline);
      splitTab.Open(pos, v);
      splitTab.Select(pos);
      c := Changed;
    }

    /** `open`. */
    method Open(p: Path, id: nat, newline: string, d: Disk) returns (res: Result<Control>)
      requires Valid()
      modifies splitTab
      ensures Valid()
      ensures match Ops.Open(old(State()), p, id, newline, d)
        case Ok(r) => res == Ok(Changed) && State() == r
        case Err(e) => res == Err(e) && State() == old(State())
    {
      var pos: Pos := (0, 0);
      match W.SelectedPos(splitTab.State()) {
        case Some(sp) => pos := (sp.0, sp.1 + 1);
        case None =>
      }
      assert pos == Ops.NewPos(splitTab.State());
      res := OpenAt(pos, p, id, newline, d);
    }

    /** `_open_split`: the split right of the selected one, after its active tab. */
    method OpenSplit(p: Path, id: nat, newline: string, d: Disk) returns (res: Result<Control>)
      requires Valid()
      modifies splitTab
      ensures Valid()
      ensures match Ops.OpenSplit(old(State()), p, id, newline, d)
        case Ok(r) => res == Ok(Changed) && State() == r
        case Err(e) => res == Err(e) && State() == old(State())
    {
      var pos: Pos := (0, 0);
      match W.SelectedPos(splitTab.State()) {
        case Some(sp) =>
          var next: nat := sp.0 + 1;
          var col: nat := 0;
          if next < |splitTab.tabs| && splitTab.tabbed[next].Some? {
            col := splitTab.tabbed[next].value + 1;
          }
          pos := (next, col);
        case None =>
      }
      assert pos == Ops.SplitPos(splitTab.State());
      res := OpenAt(pos, p, id, newline, d);
    }

    /**
     * `_open`: an open view of `p` gets its replay log switched on and is
     * cloned; otherwise the file is read. The view is opened at `pos` and
     * selected.
     */
    method OpenAt(pos: Pos, p: Path, id: nat, newline: string, d: Disk) returns (res: Result<Control>)
      requires Valid() && W.CanOpen(State(), pos)
      modifies splitTab
      ensures Valid()
      ensures match Ops.OpenAt(old(State()), pos, p, id, newline, d)
        case Ok(r) => res == Ok(Changed) && State() == r
        case Err(e) => res == Err(e) && State() == old(State())
    {
      var found := splitTab.ForPath(p);
      var v: View;
      match found {
        case Some(q) =>
          var md := splitTab.tabs[q.0][q.1];
          md := md.(buf := EnableReplay(md.buf));
          splitTab.Update(q, md);
          v := EF.Clone(md, id);
        case None =>
          var loaded := EF.OpenFile(p, id, newline, d);
          if loaded.Err? {
            return Err(loaded.error);
          }
          v := loaded.value;
      }
      splitTab.Open(pos, v);
      splitTab.Select(pos);
      res := Ok(Changed);
    }

    /** `roll_forward_edit`: the selected view's log is taken and replayed into the other views of its file. */
    method RollForwardEdit() returns (c: Control)
      requires Valid()
      modifies splitTab
      ensures Valid() && State() == Ops.RollForward(old(State())) && c == Changed
    {
      match W.Selected(splitTab.State()) {
        case None =>
        case Some(sel) =>
          var (pos, v) := sel;
          var (log, buf) := TakeLog(v.buf);
          splitTab.Update(pos, v.(buf := buf));
          if log != [] {
            splitTab.Replay(pos, v.path, log);
          }
      }
      c := Changed;
    }

    /** `select_or_open`. */
    method SelectOrOpen(p: Path, id: nat, newline: string, d: Disk) returns (res: Result<Control>)
      requires Valid()
      modifies splitTab
      ensures Valid()
      ensures match Ops.SelectOrOpen(old(State()), p, id, newline, d)
        case Ok(r) => res == Ok(Changed) && State() == r
        case Err(e) => res == Err(e) && State() == old(State())
    {
      var found := splitTab.ForPath(p);
      match found {
        case Some(q) =>
          splitTab.Select(q);
          res := Ok(Changed);
        case None =>
          res := Open(p, id, newline, d);
      }
    }

    /** `select_or_open_split`. */
    method SelectOrOpenSplit(p: Path, id: nat, newline: string, d: Disk) returns (res: Result<Control>)
      requires Valid()
      modifies splitTab
      ensures Valid()
      ensures match Ops.SelectOrOpenSplit(old(State()), p, id, newline, d)
        case Ok(r) => res == Ok(Changed) && State() == r
        case Err(e) => res == Err(e) && State() == old(State())
    {
      var found := splitTab.ForPath(p);
      match found {
        case Some(q) =>
          splitTab.Select(q);
          res := Ok(Changed);
        case None =>
          res := OpenSplit(p, id, newline, d);
      }
    }

    /** `close_selected_tab`. */
    method CloseSelectedTab(d: Disk) returns (res: Result<Control>, d2: Disk)
      requires Valid()
      modifies splitTab
      ensures Valid() && (res, State(), d2) == Ops.CloseSelected(old(State()), d)
    {
      match W.SelectedPos(splitTab.State()) {
        case None =>
          res, d2 := Ok(Continue), d;
        case Some(pos) =>
          var r;
          r, d2 := splitTab.Close(pos, d);
          if r.Err? {
            res := Err(r.error);
          } else {
            res := Ok(Changed);
          }
      }
    }

    /** `close_all`: the tabs of the selected split, from the last one down to 0. */
    method CloseAll(d: Disk) returns (res: Result<Control>, d2: Disk)
      requires Valid()
      modifies splitTab
      ensures Valid() && (res, State(), d2) == Ops.CloseAll(old(State()), d)
    {
      ghost var a := State();
      d2 := d;
      var sp := W.SelectedPos(splitTab.State());
      if sp.None? {
        return Ok(Continue), d;
      }
      var s := sp.value.0;
      var i: nat := |splitTab.tabs[s]|;
      while i > 0
        invariant Valid()
        invariant Ops.CloseDown(a, s, |a.tabs[s]|, d) == Ops.CloseDown(State(), s, i, d2)
        decreases i
      {
        i := i - 1;
        var r;
        r, d2 := splitTab.Close((s, i), d2);
        if r.Err? {
          return Err(r.error), d2;
        }
      }
      res := Ok(Changed);
    }

    /** `save_as`: "md" added when there is no extension; only the selected view is renamed and saved. */
    method SaveAs(p: Path, d: Disk) returns (res: Result<Control>, d2: Disk)
      requires Valid()
      modifies splitTab
      ensures Valid() && (res, State(), d2) == Ops.SaveAs(old(State()), p, d)
    {
      var path := p;
      if Extension(path).None? {
        path := SetExtension(path, "md");
      }
      res, d2 := Ok(Changed), d;
      match W.Selected(splitTab.State()) {
        case None =>
        case Some(sel) =>
          var r, v2;
          r, v2, d2 := Document.SaveAs(sel.1, path, d);
          splitTab.Update(sel.0, v2);
          if r.Err? {
            res := Err(r.error);
          }
      }
    }

    /**
     * `split`: selects the first view of the selected file in the next
     * split, or clones the selected view to the end of that split and
     * selects the clone.
     */
    method Split(id: nat) returns (c: Control)
      requires Valid()
      modifies splitTab
      ensures Valid() && (c, State()) == Ops.Split(old(State()), id)
    {
      var sel := W.Selected(splitTab.State());
      if sel.None? {
        return Continue;
      }
      var (pos, v) := sel.value;
      var next := pos.0 + 1;
      var found := None;
      if next < |splitTab.tabs| {
        found := W.IndexOfPath(splitTab.tabs[next], v.path, 0);
      }
      match found {
        case Some(t) =>
          splitTab.Select((next, t));
        case None =>
          var shared := v.(buf := EnableReplay(v.buf));
          splitTab.Update(pos, shared);
          var newTab := if next < |splitTab.tabs| then |splitTab.tabs[next]| else 0;
          splitTab.Open((next, newTab), EF.Clone(shared, id));
          splitTab.Select((next, newTab));
      }
      c := Changed;
    }
  }
}
