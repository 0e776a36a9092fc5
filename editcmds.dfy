/**
 * The workspace commands of the older `edit.rs` as functions of the
 * workspace and the file list beside it. The placement rules are those of
 * `EditorOps`; the views are the older ones of `MdFile`; an opened file is
 * also looked up in the file list, and `split` keeps the original view
 * selected. `Edit.MDEditState` carries them out in place.
 */
module EditOps {
  import opened Wrappers
  import opened Paths
  import opened Document
  import opened Host
  import W = Workspace
  import MF = MdFile
  import FL = FileList
  import Ops = EditorOps

  type Pos = W.Pos

  /** The editor pane: the split/tab workspace and the file list. */
  datatype Session = Session(arena: W.Arena, list: FL.ListState)

  predicate Valid(s: Session) {
    W.Valid(s.arena)
  }

  // ---------------------------------------------------------------------------
  // Opening

  /** `new`: a fresh (dirty) view for `p` after the selected tab, then selected; the list is untouched. */
  function New(s: Session, p: Path, id: nat, newline: string): (r: Session)
    requires Valid(s)
    ensures Valid(r) && r.list == s.list
  {
    var pos := Ops.NewPos(s.arena);
    s.(arena := W.Select(W.Open(s.arena, pos, MF.NewFile(p, id, newline)), pos))
  }

  /**
   * The view `_open` places for `p`: an open view of `p` gets its replay
   * log switched on and is cloned; otherwise the file is read.
   */
  function Reuse(a: W.Arena, p: Path, id: nat, newline: string, d: Disk): (r: Result<(W.Arena, View)>)
    requires W.Valid(a)
    ensures r.Ok? ==> W.Valid(r.value.0) && W.SameLayout(a, r.value.0) && r.value.1.path == p
    ensures r.Err? <==> W.ForPath(a, p).None? && ReadFile(d, p).Err?
  {
    match W.ForPath(a, p)
    case Some(q) =>
      var shared := Ops.Shared(W.At(a, q));
      Ok((W.Update(a, q, shared), MF.Clone(shared, id)))
    case None =>
      match MF.OpenFile(p, id, newline, d)
      case Err(e) => Err(e)
      case Ok(v) => Ok((a, v))
  }

  /**
   * The file list following an opened file: the file's directory is
   * loaded (an error stops here), then the file is selected in the list.
   */
  function Follow(l: FL.ListState, h: Host, p: Path): (r: (Result<()>, FL.ListState))
    requires Finite(h)
  {
    match Parent(p)
    case None => (Ok(()), FL.SelectFile(l, p))
    case Some(dir) =>
      var (res, l1) := FL.Loaded(l, h, dir);
      if res.Err? then (res, l1) else (Ok(()), FL.SelectFile(l1, p))
  }

  /**
   * `_open`: the view from `Reuse` is opened at `pos` and selected, then
   * the file list follows; a read error changes nothing, a listing error
   * leaves the opened view in place.
   */
  function OpenAt(s: Session, pos: Pos, p: Path, id: nat, newline: string, d: Disk, h: Host): (r: (Result<()>, Session))
    requires Valid(s) && W.CanOpen(s.arena, pos) && Finite(h)
    ensures Valid(r.1)
  {
    match Reuse(s.arena, p, id, newline, d)
    case Err(e) => (Err(e), s)
    case Ok(nv) =>
      var a := W.Select(W.Open(nv.0, pos, nv.1), pos);
      var (res, l) := Follow(s.list, h, p);
      (res, Session(a, l))
  }

  /** `open`: after the selected tab. */
  function Open(s: Session, p: Path, id: nat, newline: string, d: Disk, h: Host): (r: (Result<()>, Session))
    requires Valid(s) && Finite(h)
    ensures Valid(r.1)
  {
    OpenAt(s, Ops.NewPos(s.arena), p, id, newline, d, h)
  }

  /** `open_split`: after the active tab of the next split, or in a new split. */
  function OpenSplit(s: Session, p: Path, id: nat, newline: string, d: Disk, h: Host): (r: (Result<()>, Session))
    requires Valid(s) && Finite(h)
    ensures Valid(r.1)
  {
    OpenAt(s, Ops.SplitPos(s.arena), p, id, newline, d, h)
  }

  /** `select_or_open`: the first open view of `p` is selected (the list is not touched), else `open`. */
  function SelectOrOpen(s: Session, p: Path, id: nat, newline: string, d: Disk, h: Host): (r: (Result<()>, Session))
    requires Valid(s) && Finite(h)
    ensures Valid(r.1)
  {
    match W.ForPath(s.arena, p)
    case Some(q) => (Ok(()), s.(arena := W.Select(s.arena, q)))
    case None => Open(s, p, id, newline, d, h)
  }

  /** `select_or_open_split`: the same with `open_split`. */
  function SelectOrOpenSplit(s: Session, p: Path, id: nat, newline: string, d: Disk, h: Host): (r: (Result<()>, Session))
    requires Valid(s) && Finite(h)
    ensures Valid(r.1)
  {
    match W.ForPath(s.arena, p)
    case Some(q) => (Ok(()), s.(arena := W.Select(s.arena, q)))
    case None => OpenSplit(s, p, id, newline, d, h)
  }

  // ---------------------------------------------------------------------------
  // Split

  /** Where `split` puts the clone: a new split after the last one, else the end of the next split. */
  function ClonePos(a: W.Arena, pos: Pos): (r: Pos)
    requires W.Valid(a) && W.IsPos(a, pos)
    ensures W.CanOpen(a, r) && r.0 == pos.0 + 1
  {
    if pos.0 + 1 == |a.tabs| then (pos.0 + 1, 0) else (pos.0 + 1, |a.tabs[pos.0 + 1]|)
  }

  /**
   * `split`: the selected view gets its replay log switched on, a clone of
   * it goes to `ClonePos`, and the original position is selected again.
   */
  function Split(a: W.Arena, id: nat): (r: W.Arena)
    requires W.Valid(a)
    ensures W.Valid(r)
  {
    match W.Selected(a)
    case None => a
    case Some(sel) =>
      var (pos, v) := sel;
      var a1 := W.Update(a, pos, Ops.Shared(v));
      W.Select(W.Open(a1, ClonePos(a, pos), MF.Clone(Ops.Shared(v), id)), pos)
  }

  // ---------------------------------------------------------------------------
  // sync_files

  /**
   * `sync_files(file)`: when the list shows another directory, the file's
   * directory is loaded and the file selected; when it shows the directory
   * but another file, the file is selected; otherwise nothing changes.
   */
  function SyncFiles(l: FL.ListState, h: Host, file: Path): (r: (Result<Control>, FL.ListState))
    requires Finite(h)
  {
    match Parent(file)
    case None => (Ok(Unchanged), l)
    case Some(dir) =>
      if FL.CurrentDir(l) != dir then
        var (res, l1) := FL.Loaded(l, h, dir);
        if res.Err? then (Err(res.error), l1) else (Ok(Changed), FL.SelectFile(l1, file))
      else if FL.CurrentFile(l) != Some(file) then (Ok(Changed), FL.SelectFile(l, file))
      else (Ok(Unchanged), l)
  }

  // ---------------------------------------------------------------------------
  // Properties

  /**
   * `new` puts the fresh view right after the selected tab, or at (0, 0),
   * and selects it; the view starts dirty at its defaulted path.
   */
  lemma NewSelectsDirtyView(s: Session, p: Path, id: nat, newline: string)
    requires Valid(s)
    ensures var r := New(s, p, id, newline); var pos := Ops.NewPos(s.arena);
      && W.SelectedPos(r.arena) == Some(pos) && W.Selected(r.arena).value.1 == MF.NewFile(p, id, newline)
      && W.Selected(r.arena).value.1.changed && W.Selected(r.arena).value.1.path == DefaultMd(p)
      && (W.SelectedPos(s.arena).None? ==> pos == (0, 0))
      && (W.SelectedPos(s.arena).Some? ==> pos == (W.SelectedPos(s.arena).value.0, W.SelectedPos(s.arena).value.1 + 1))
  {
    var pos := Ops.NewPos(s.arena);
    var v := MF.NewFile(p, id, newline);
    W.OpenShape(s.arena, pos, v);
    W.SelectSelects(W.Open(s.arena, pos, v), pos);
  }

  /**
   * `_open` selects a view of `p` at `pos` unless the file had to be read
   * and could not be (then nothing changes); an open view is cloned with
   * its text rather than the file read again.
   */
  lemma OpenAtPlaces(s: Session, pos: Pos, p: Path, id: nat, newline: string, d: Disk, h: Host)
    requires Valid(s) && W.CanOpen(s.arena, pos) && Finite(h)
    ensures var (res, r) := OpenAt(s, pos, p, id, newline, d, h);
      && (W.ForPath(s.arena, p).None? && ReadFile(d, p).Err? ==> res.Err? && r == s)
      && (W.ForPath(s.arena, p).Some? || ReadFile(d, p).Ok? ==>
            && W.SelectedPos(r.arena) == Some(pos) && W.Selected(r.arena).value.1.path == p
            && (W.ForPath(s.arena, p).Some? ==>
                  W.Selected(r.arena).value.1.buf.text == W.At(s.arena, W.ForPath(s.arena, p).value).buf.text)
            && (W.ForPath(s.arena, p).None? ==>
                  W.Selected(r.arena).value.1 == MF.OpenFile(p, id, newline, d).value))
  {
    var nv := Reuse(s.arena, p, id, newline, d);
    if nv.Ok? {
      W.OpenShape(nv.value.0, pos, nv.value.1);
      W.SelectSelects(W.Open(nv.value.0, pos, nv.value.1), pos);
    }
  }

  /**
   * `select_or_open` never opens a second view of an open file: its first
   * view is selected, no tab is added and the file list is not touched.
   * Otherwise the file is opened after the selected tab and selected, unless
   * it cannot be read, which changes nothing.
   */
  lemma SelectOrOpenNoDuplicate(s: Session, p: Path, id: nat, newline: string, d: Disk, h: Host)
    requires Valid(s) && Finite(h)
    ensures var (res, r) := SelectOrOpen(s, p, id, newline, d, h);
      && (W.ForPath(s.arena, p).Some? ==>
            && res.Ok? && r.list == s.list && r.arena.tabs == s.arena.tabs
            && W.SelectedPos(r.arena) == W.ForPath(s.arena, p) && W.Selected(r.arena).value.1.path == p)
      && (W.ForPath(s.arena, p).None? && ReadFile(d, p).Err? ==> res.Err? && r == s)
      && (W.ForPath(s.arena, p).None? && ReadFile(d, p).Ok? ==>
            && W.SelectedPos(r.arena) == Some(Ops.NewPos(s.arena))
            && W.Selected(r.arena).value.1 == MF.OpenFile(p, id, newline, d).value)
  {
    if W.ForPath(s.arena, p).Some? {
      W.SelectSelects(s.arena, W.ForPath(s.arena, p).value);
    } else {
      OpenAtPlaces(s, Ops.NewPos(s.arena), p, id, newline, d, h);
    }
  }

  /** The same for `select_or_open_split`, which opens in the next split. */
  lemma SelectOrOpenSplitNoDuplicate(s: Session, p: Path, id: nat, newline: string, d: Disk, h: Host)
    requires Valid(s) && Finite(h)
    ensures var (res, r) := SelectOrOpenSplit(s, p, id, newline, d, h);
      && (W.ForPath(s.arena, p).Some? ==>
            && res.Ok? && r.list == s.list && r.arena.tabs == s.arena.tabs
            && W.SelectedPos(r.arena) == W.ForPath(s.arena, p) && W.Selected(r.arena).value.1.path == p)
      && (W.ForPath(s.arena, p).None? && ReadFile(d, p).Err? ==> res.Err? && r == s)
      && (W.ForPath(s.arena, p).None? && ReadFile(d, p).Ok? ==>
            && W.SelectedPos(r.arena) == Some(Ops.SplitPos(s.arena))
            && W.Selected(r.arena).value.1 == MF.OpenFile(p, id, newline, d).value)
  {
    if W.ForPath(s.arena, p).Some? {
      W.SelectSelects(s.arena, W.ForPath(s.arena, p).value);
    } else {
      OpenAtPlaces(s, Ops.SplitPos(s.arena), p, id, newline, d, h);
    }
  }

  /**
   * After a successful `_open` the file list shows the file's directory
   * and, when the file is listed there, has it selected.
   */
  lemma FollowSelectsFile(l: FL.ListState, h: Host, p: Path)
    requires Finite(h)
    ensures var (res, r) := Follow(l, h, p);
      && (res.Ok? && Parent(p).Some? ==> FL.CurrentDir(r) == Parent(p).value)
      && (res.Ok? && p in r.fs.files ==> FL.CurrentFile(r) == Some(p))
      && (res.Ok? && p !in r.fs.files ==> FL.CurrentFile(r) == None)
  {
    match Parent(p) {
      case None =>
        FL.SelectThenCurrent(l, p);
      case Some(dir) =>
        var (res, l1) := FL.Loaded(l, h, dir);
        FL.SelectThenCurrent(l1, p);
        FL.LoadSelection(l, h, dir);
    }
  }

  /**
   * `split` keeps the selection where it was; the clone of the selected
   * view, with the same file and text, is the new last tab of the next
   * split (a new split when the selected one was the last), and both
   * views record their edits.
   */
  lemma SplitKeepsSelection(a: W.Arena, id: nat)
    requires W.Valid(a)
    ensures var r := Split(a, id);
      && (W.Selected(a).None? ==> r == a)
      && (W.Selected(a).Some? ==>
            var (pos, v) := W.Selected(a).value;
            var cp := ClonePos(a, pos);
            && W.SelectedPos(r) == Some(pos) && W.Selected(r).value.1 == Ops.Shared(v)
            && W.IsPos(r, cp) && cp.1 == |r.tabs[pos.0 + 1]| - 1
            && W.At(r, cp) == MF.Clone(Ops.Shared(v), id)
            && W.At(r, cp).path == v.path && W.At(r, cp).buf.text == v.buf.text
            && W.At(r, cp).buf.replayOn && W.Selected(r).value.1.buf.replayOn
            && |r.tabs| == |a.tabs| + (if pos.0 + 1 == |a.tabs| then 1 else 0))
  {
    if W.Selected(a).Some? {
      var (pos, v) := W.Selected(a).value;
      var a1 := W.Update(a, pos, Ops.Shared(v));
      var cp := ClonePos(a, pos);
      var c := MF.Clone(Ops.Shared(v), id);
      W.OpenShape(a1, cp, c);
      var o := W.Open(a1, cp, c);
      assert W.IsPos(o, pos) && W.At(o, pos) == W.At(a1, pos);
      W.SelectSelects(o, pos);
    }
  }

  /**
   * `sync_files` reports Changed exactly when it reloaded or reselected;
   * with a file that has no parent, or that the list already shows as
   * current, it changes nothing. After a reload the list shows the file's
   * directory, and after any change the file is current when it is listed.
   */
  lemma SyncFilesCases(l: FL.ListState, h: Host, file: Path)
    requires Finite(h)
    ensures var (res, r) := SyncFiles(l, h, file);
      && (Parent(file).None? ==> res == Ok(Unchanged) && r == l)
      && (Parent(file).Some? && FL.CurrentDir(l) == Parent(file).value && FL.CurrentFile(l) == Some(file) ==>
            res == Ok(Unchanged) && r == l)
      && (Parent(file).Some? && FL.CurrentDir(l) == Parent(file).value && FL.CurrentFile(l) != Some(file) ==>
            res == Ok(Changed) && r == FL.SelectFile(l, file))
      && (res == Ok(Changed) ==> FL.CurrentDir(r) == Parent(file).value)
      && (res == Ok(Changed) && file in r.fs.files ==> FL.CurrentFile(r) == Some(file))
      && (res.Ok? && Parent(file).Some? && file in r.fs.files ==> FL.CurrentFile(r) == Some(file))
  {
    match Parent(file) {
      case None =>
      case Some(dir) =>
        if FL.CurrentDir(l) != dir {
          var (res, l1) := FL.Loaded(l, h, dir);
          FL.LoadSelection(l, h, dir);
          FL.SelectThenCurrent(l1, file);
        } else {
          FL.SelectThenCurrent(l, file);
        }
    }
  }
}
