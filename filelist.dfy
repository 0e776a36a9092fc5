/**
 * `FileListState` of `file_list.rs`: the file-tree structure of the older
 * generation plus the list widget's selection, which follows every reload.
 */
module FileList {
  import opened Wrappers
  import opened Paths
  import opened Host
  import FS = FsStructure

  /** The list's state: the structure it shows and the selected row. */
  datatype ListState = ListState(fs: FS.FsState, selected: Option<nat>)

  /** `current_dir`: the directory whose files are listed. */
  function CurrentDir(s: ListState): (r: Path)
    ensures r == s.fs.filesDir
  {
    s.fs.filesDir
  }

  /** `current_file`: the selected file, when the selection is inside the list. */
  function CurrentFile(s: ListState): (r: Option<Path>)
    ensures r.Some? <==> s.selected.Some? && s.selected.value < |s.fs.files|
    ensures r.Some? ==> r.value == s.fs.files[s.selected.value]
  {
    match s.selected
    case Some(i) => if i < |s.fs.files| then Some(s.fs.files[i]) else None
    case None => None
  }

  /**
   * The selection after a reload of `n` files, as written: cleared for an
   * empty list, row 0 when nothing was selected, the last row when the old
   * row lies strictly past the end, else kept.
   */
  function ClampAsWritten(sel: Option<nat>, n: nat): (r: Option<nat>)
    ensures n == 0 <==> r.None?
    ensures sel.Some? && sel.value <= n && n > 0 ==> r == sel
  {
    if n == 0 then None
    else
      match sel
      case None => Some(0)
      case Some(i) => if i > n then Some(n - 1) else Some(i)
  }

  /** The same with the bound the list intends: any row at or past the end moves to the last row. */
  function Clamp(sel: Option<nat>, n: nat): (r: Option<nat>)
    ensures r.Some? ==> r.value < n
  {
    if n == 0 then None
    else
      match sel
      case None => Some(0)
      case Some(i) => if i >= n then Some(n - 1) else Some(i)
  }

  /**
   * After a reload something is selected exactly when the list is not
   * empty; a row still inside the list stays selected, nothing selected
   * becomes row 0, and a row past the end becomes the last row.
   */
  lemma ClampSelects(sel: Option<nat>, n: nat)
    ensures Clamp(sel, n).Some? <==> n > 0
    ensures sel.Some? && sel.value < n ==> Clamp(sel, n) == sel
    ensures sel.None? && n > 0 ==> Clamp(sel, n) == Some(0)
    ensures sel.Some? && sel.value >= n > 0 ==> Clamp(sel, n) == Some(n - 1)
    ensures Clamp(Clamp(sel, n), n) == Clamp(sel, n)
  {
  }

  /** The two agree except on a row exactly one past the end, which only the corrected version moves. */
  lemma ClampAgrees(sel: Option<nat>, n: nat)
    ensures ClampAsWritten(sel, n) != Clamp(sel, n) <==> n > 0 && sel == Some(n)
  {
  }

  /** As written, one file and row 1 selected before the reload: row 1 stays, and no file is current. */
  lemma AsWrittenKeepsRowPastEnd(fs: FS.FsState)
    requires |fs.files| == 1
    ensures ClampAsWritten(Some(1), 1) == Some(1)
    ensures CurrentFile(ListState(fs, ClampAsWritten(Some(1), 1))) == None
    ensures CurrentFile(ListState(fs, Clamp(Some(1), 1))) == Some(fs.files[0])
  {
  }

  /** The first row showing `f`. */
  function FirstIndex(files: seq<Path>, f: Path): (r: Option<nat>)
    ensures r.None? <==> f !in files
    ensures r.Some? ==> r.value < |files| && files[r.value] == f && f !in files[..r.value]
  {
    if |files| == 0 then None
    else if files[0] == f then Some(0)
    else
      match FirstIndex(files[1..], f)
      case None => None
      case Some(i) =>
        assert files[..i + 1] == [files[0]] + files[1..][..i];
        Some(i + 1)
  }

  /** `select(file)`: the first row showing `file`, or nothing. */
  function SelectFile(s: ListState, f: Path): (r: ListState)
    ensures r.fs == s.fs
  {
    s.(selected := FirstIndex(s.fs.files, f))
  }

  /** Selecting a listed file makes it current; selecting any other clears the selection. */
  lemma SelectThenCurrent(s: ListState, f: Path)
    ensures f in s.fs.files ==> CurrentFile(SelectFile(s, f)) == Some(f)
    ensures f !in s.fs.files ==> SelectFile(s, f).selected == None && CurrentFile(SelectFile(s, f)) == None
  {
  }

  /** `load_current(dir)`: the files of `dir`, then the selection follows. */
  function Current(s: ListState, h: Host, dir: Path): (r: ListState)
    ensures r.fs == FS.Current(s.fs, h, dir)
  {
    var fs := FS.Current(s.fs, h, dir);
    ListState(fs, Clamp(s.selected, |fs.files|))
  }

  /**
   * `load(dir)`: the structure's `load`; on its error the selection is
   * untouched (the structure keeps what it did before the error).
   */
  function Loaded(s: ListState, h: Host, dir: Path): (r: (Result<()>, ListState))
    requires Finite(h)
    ensures r.0 == FS.Loaded(s.fs, h, dir).0 && r.1.fs == FS.Loaded(s.fs, h, dir).1
    ensures r.0.Err? ==> r.1.selected == s.selected
  {
    var (res, fs) := FS.Loaded(s.fs, h, dir);
    if res.Err? then (res, s.(fs := fs))
    else (res, ListState(fs, Clamp(s.selected, |fs.files|)))
  }

  /**
   * After either reload the list shows `dir`; a file is current exactly
   * when `dir` has markdown files, and a file that was current and is
   * still listed at the same row stays current.
   */
  lemma LoadCurrentSelection(s: ListState, h: Host, dir: Path)
    ensures CurrentDir(Current(s, h, dir)) == dir
    ensures CurrentFile(Current(s, h, dir)).Some? <==> |Current(s, h, dir).fs.files| > 0
    ensures var r := Current(s, h, dir);
      CurrentFile(s).Some? && s.selected.value < |r.fs.files| ==> r.selected == s.selected
  {
    ClampSelects(s.selected, |FS.Current(s.fs, h, dir).files|);
  }

  lemma LoadSelection(s: ListState, h: Host, dir: Path)
    requires Finite(h)
    ensures Loaded(s, h, dir).0.Ok? ==> CurrentDir(Loaded(s, h, dir).1) == dir
    ensures Loaded(s, h, dir).0.Ok? ==>
      (CurrentFile(Loaded(s, h, dir).1).Some? <==> |Loaded(s, h, dir).1.fs.files| > 0)
  {
    ClampSelects(s.selected, |FS.Loaded(s.fs, h, dir).1.files|);
  }

  /** The list widget over the file-tree structure. */
  class FileListState {
    const sys: FS.FileSysStructure
    var selected: Option<nat>

    function State(): ListState
      reads this, sys
    {
      ListState(sys.State(), selected)
    }

    constructor ()
      ensures State() == ListState(FS.Default, None) && fresh(sys)
    {
      sys := new FS.FileSysStructure();
      selected := None;
    }

    /** The row the list keeps after `sys` was reloaded. */
    method FollowReload()
      modifies this
      ensures selected == Clamp(old(selected), |sys.files|)
    {
      if |sys.files| > 0 {
        match selected {
          case Some(sel) =>
            if sel >= |sys.files| {
              selected := Some(|sys.files| - 1);
            }
          case None =>
            selected := Some(0);
        }
      } else {
        selected := None;
      }
    }

    /** `load_current`. */
    method LoadCurrent(h: Host, dir: Path) returns (res: Result<()>)
      modifies this, sys
      ensures res == Ok(()) && State() == Current(old(State()), h, dir)
    {
      sys.LoadCurrent(h, dir);
      FollowReload();
      res := Ok(());
    }

    /** `load`. */
    method Load(h: Host, dir: Path) returns (res: Result<()>)
      requires Finite(h)
      modifies this, sys
      ensures (res, State()) == Loaded(old(State()), h, dir)
    {
      res := sys.Load(h, dir);
      if res.Err? {
        return;
      }
      FollowReload();
    }

    /** `select`: clear the selection, then the first row equal to `file`. */
    method Select(file: Path) returns (res: Result<()>)
      modifies this
      ensures res == Ok(()) && State() == SelectFile(old(State()), file)
    {
      selected := None;
      var files := sys.files;
      var i := 0;
      while i < |files|
        invariant i <= |files| && file !in files[..i]
        invariant selected == None
      {
        if files[i] == file {
          selected := Some(i);
          res := Ok(());
          return;
        }
        assert files[..i + 1] == files[..i] + [files[i]];
        i := i + 1;
      }
      assert files[..i] == files;
      res := Ok(());
    }
  }
}
