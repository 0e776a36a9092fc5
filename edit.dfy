/**
 * `MDEditState` of the older `edit.rs`: the split/tab workspace and the
 * file list, changed in place by the editor's commands. Every method is
 * proved to leave the state the `EditOps` function computes.
 */
module Edit {
  import opened Wrappers
  import opened Paths
  import opened Document
  import opened Host
  import W = Workspace
  import MF = MdFile
  import FL = FileList
  import Ops = EditorOps
  import EO = EditOps
  import ST = SplitTab
  import FsStructure

  type Pos = W.Pos

  class MDEditState {
    const splitTab: ST.SplitTabState
    const fileList: FL.FileListState

    function State(): EO.Session
      reads splitTab, fileList, fileList.sys
    {
      EO.Session(splitTab.State(), fileList.State())
    }

    predicate Valid()
      reads splitTab
    {
      splitTab.Valid()
    }

    constructor ()
      ensures Valid() && State() == EO.Session(W.Empty, FL.ListState(FsStructure.Default, None))
      ensures fresh(splitTab) && fresh(fileList) && fresh(fileList.sys)
    {
      splitTab := new ST.SplitTabState();
      fileList := new FL.FileListState();
    }

    /** `new`. */
    method New(p: Path, id: nat, newline: string)
      requires Valid()
      modifies splitTab
      ensures Valid() && State() == EO.New(old(State()), p, id, newline)
    {
      var pos: Pos := (0, 0);
      match W.SelectedPos(splitTab.State()) {
        case Some(sp) => pos := (sp.0, sp.1 + 1);
        case None =>
      }
      splitTab.Open(pos, MF.NewFile(p, id, newline));
      splitTab.Select(pos);
    }

    /** `open`. */
    method Open(p: Path, id: nat, newline: string, d: Disk, h: Host) returns (res: Result<()>)
      requires Valid() && Finite(h)
      modifies splitTab, fileList, fileList.sys
      ensures Valid() && (res, State()) == EO.Open(old(State()), p, id, newline, d, h)
    {
      var pos: Pos := (0, 0);
      match W.SelectedPos(splitTab.State()) {
        case Some(sp) => pos := (sp.0, sp.1 + 1);
        case None =>
      }
      assert pos == Ops.NewPos(splitTab.State());
      res := OpenAt(pos, p, id, newline, d, h);
    }

    /** `open_split`. */
    method OpenSplit(p: Path, id: nat, newline: string, d: Disk, h: Host) returns (res: Result<()>)
      requires Valid() && Finite(h)
      modifies splitTab, fileList, fileList.sys
      ensures Valid() && (res, State()) == EO.OpenSplit(old(State()), p, id, newline, d, h)
    {
      var pos: Pos := (0, 0);
      match W.SelectedPos(splitTab.State()) {
        case Some(sp) =>
          var next: nat := sp.0 + 1;
          var col: nat := 0;
          if next < |splitTab.tabs| && splitTab.tabbed[next].Some? {
            col := splitTab.tabbed[next].value + 1;
          }
          pos := (next, col);
        case None =>
      }
      assert pos == Ops.SplitPos(splitTab.State());
      res := OpenAt(pos, p, id, newline, d, h);
    }

    /** `_open`: place the view, select it, then let the file list follow. */
    method OpenAt(pos: Pos, p: Path, id: nat, newline: string, d: Disk, h: Host) returns (res: Result<()>)
      requires Valid() && W.CanOpen(State().arena, pos) && Finite(h)
      modifies splitTab, fileList, fileList.sys
      ensures Valid() && (res, State()) == EO.OpenAt(old(State()), pos, p, id, newline, d, h)
    {
      ghost var s0 := State();
      res := Place(pos, p, id, newline, d);
      if res.Err? {
        return;
      }
      ghost var nv := EO.Reuse(s0.arena, p, id, newline, d).value;
      assert State() == EO.Session(W.Select(W.Open(nv.0, pos, nv.1), pos), s0.list);
      match Parent(p) {
        case Some(dir) =>
          res := fileList.Load(h, dir);
          if res.Err? {
            return;
          }
        case None =>
      }
      res := fileList.Select(p);
    }

    /** The first half of `_open`: the view of `p` is placed at `pos` and selected. */
    method Place(pos: Pos, p: Path, id: nat, newline: string, d: Disk) returns (res: Result<()>)
      requires Valid() && W.CanOpen(splitTab.State(), pos)
      modifies splitTab
      ensures Valid()
      ensures var r := EO.Reuse(old(splitTab.State()), p, id, newline, d);
        && (r.Err? ==> res == Err(r.error) && splitTab.State() == old(splitTab.State()))
        && (r.Ok? ==> res == Ok(()) && splitTab.State() == W.Select(W.Open(r.value.0, pos, r.value.1), pos))
    {
      var found := splitTab.ForPath(p);
      var v: View;
      match found {
        case Some(q) =>
          var md := Ops.Shared(splitTab.tabs[q.0][q.1]);
          splitTab.Update(q, md);
          v := MF.Clone(md, id);
        case None =>
          var loaded := MF.OpenFile(p, id, newline, d);
          if loaded.Err? {
            return Err(loaded.error);
          }
          v := loaded.value;
      }
      splitTab.Open(pos, v);
      splitTab.Select(pos);
      res := Ok(());
    }

    /** `select_or_open`. */
    method SelectOrOpen(p: Path, id: nat, newline: string, d: Disk, h: Host) returns (res: Result<()>)
      requires Valid() && Finite(h)
      modifies splitTab, fileList, fileList.sys
      ensures Valid() && (res, State()) == EO.SelectOrOpen(old(State()), p, id, newline, d, h)
    {
      var found := splitTab.ForPath(p);
      match found {
        case Some(q) =>
          splitTab.Select(q);
          res := Ok(());
        case None =>
          res := Open(p, id, newline, d, h);
      }
    }

    /** `select_or_open_split`. */
    method SelectOrOpenSplit(p: Path, id: nat, newline: string, d: Disk, h: Host) returns (res: Result<()>)
      requires Valid() && Finite(h)
      modifies splitTab, fileList, fileList.sys
      ensures Valid() && (res, State()) == EO.SelectOrOpenSplit(old(State()), p, id, newline, d, h)
    {
      var found := splitTab.ForPath(p);
      match found {
        case Some(q) =>
          splitTab.Select(q);
          res := Ok(());
        case None =>
          res := OpenSplit(p, id, newline, d, h);
      }
    }

    /** `split`: clone the selected view into the next split, keep the selection. */
    method Split(id: nat)
      requires Valid()
      modifies splitTab
      ensures Valid() && State().arena == EO.Split(old(State()).arena, id)
      ensures State().list == old(State()).list
    {
      var sel := W.Selected(splitTab.State());
      if sel.None? {
        return;
      }
      var (pos, v) := sel.value;
      ghost var a0 := splitTab.State();
      var shared := Ops.Shared(v);
      splitTab.Update(pos, shared);
      var newPos: Pos;
      if pos.0 + 1 == |splitTab.tabs| {
        newPos := (pos.0 + 1, 0);
      } else {
        newPos := (pos.0 + 1, |splitTab.tabs[pos.0 + 1]|);
      }
      assert newPos == EO.ClonePos(a0, pos);
      splitTab.Open(newPos, MF.Clone(shared, id));
      splitTab.Select(pos);
    }

    /** The `SyncEdit` arm of `event`: drain the selected view's log, replay it when not empty. */
    method SyncEdit() returns (c: Control)
      requires Valid()
      modifies splitTab
      ensures Valid() && State().arena == Ops.RollForward(old(State()).arena) && c == Changed
      ensures State().list == old(State()).list
    {
      match W.Selected(splitTab.State()) {
        case None =>
        case Some(sel) =>
          var (pos, v) := sel;
          var (log, buf) := TakeLog(v.buf);
          splitTab.Update(pos, v.(buf := buf));
          if log != [] {
            splitTab.Replay(pos, v.path, log);
          }
      }
      c := Changed;
    }

    /** The `Close` arm of `event`: the selected tab, or Continue when nothing is selected. */
    method Close(d: Disk) returns (res: Result<Control>, d2: Disk)
      requires Valid()
      modifies splitTab
      ensures Valid() && (res, State().arena, d2) == Ops.CloseSelected(old(State()).arena, d)
      ensures State().list == old(State()).list
    {
      match W.SelectedPos(splitTab.State()) {
        case None =>
          res, d2 := Ok(Continue), d;
        case Some(pos) =>
          var r;
          r, d2 := splitTab.Close(pos, d);
          if r.Err? {
            res := Err(r.error);
          } else {
            res := Ok(Changed);
          }
      }
    }

    /** `sync_files`: bring the file list to `file`. */
    method SyncFiles(file: Path, h: Host) returns (res: Result<Control>)
      requires Finite(h)
      modifies fileList, fileList.sys
      ensures (res, State().list) == EO.SyncFiles(old(State()).list, h, file)
      ensures State().arena == old(State()).arena
    {
      match Parent(file) {
        case None =>
          res := Ok(Unchanged);
        case Some(dir) =>
          if fileList.sys.filesDir != dir {
            var r := fileList.Load(h, dir);
            if r.Err? {
              return Err(r.error);
            }
            r := fileList.Select(file);
            res := Ok(Changed);
          } else if FL.CurrentFile(fileList.State()) != Some(file) {
            var r := fileList.Select(file);
            res := Ok(Changed);
          } else {
            res := Ok(Unchanged);
          }
      }
    }
  }
}
