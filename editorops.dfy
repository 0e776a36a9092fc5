/**
 * The workspace commands of `editor.rs` as functions of the workspace:
 * where a new, opened or split view goes, when an open view is cloned
 * instead of the file being read, how the selected split is closed, and
 * how the views of one file are kept in step. `Editor.MDEditState`
 * carries them out in place.
 */
module EditorOps {
  import opened Wrappers
  import opened Paths
  import opened Document
  import W = Workspace
  import EF = EditorFile

  type Pos = W.Pos

  // ---------------------------------------------------------------------------
  // Placement

  /** Where `new` and `open` put a view: right after the selected tab, else at (0, 0). */
  function NewPos(a: W.Arena): (pos: Pos)
    requires W.Valid(a)
    ensures W.CanOpen(a, pos)
  {
    match W.SelectedPos(a)
    case Some(sp) => (sp.0, sp.1 + 1)
    case None => (0, 0)
  }

  /**
   * Where `_open_split` puts a view: in the split right of the selected
   * one, after its active tab; in a new split when the selected split is
   * the last one; at (0, 0) with nothing selected.
   */
  function SplitPos(a: W.Arena): (pos: Pos)
    requires W.Valid(a)
    ensures W.CanOpen(a, pos)
  {
    match W.SelectedPos(a)
    case Some(sp) =>
      if sp.0 + 1 >= |a.tabs| then (sp.0 + 1, 0)
      else
        (match a.tabbed[sp.0 + 1]
         case Some(t) => (sp.0 + 1, t + 1)
         case None => (sp.0 + 1, 0))
    case None => (0, 0)
  }

  // ---------------------------------------------------------------------------
  // Opening

  /** `new`: a fresh view for `p` at `NewPos`, then selected. */
  function New(a: W.Arena, p: Path, id: nat, newline: string): (r: W.Arena)
    requires W.Valid(a)
    ensures W.Valid(r)
  {
    var pos := NewPos(a);
    W.Select(W.Open(a, pos, EF.NewFile(p, id, newline)), pos)
  }

  /** An open view with its replay log switched on (`enable_replay_log(true)`). */
  function Shared(v: View): View {
    v.(buf := EnableReplay(v.buf))
  }

  /**
   * The view `_open` places for `p`: when a view of `p` is open, its replay
   * log is switched on and it is cloned; otherwise the file is read.
   */
  function Reuse(a: W.Arena, p: Path, id: nat, newline: string, d: Disk): (r: Result<(W.Arena, View)>)
    requires W.Valid(a)
    ensures r.Ok? ==> W.Valid(r.value.0) && W.SameLayout(a, r.value.0)
  {
    match W.ForPath(a, p)
    case Some(q) =>
      var shared := Shared(W.At(a, q));
      Ok((W.Update(a, q, shared), EF.Clone(shared, id)))
    case None =>
      match EF.OpenFile(p, id, newline, d)
      case Err(e) => Err(e)
      case Ok(v) => Ok((a, v))
  }

  /** `_open`: the view from `Reuse` is opened at `pos` and selected; a read error is returned. */
  function OpenAt(a: W.Arena, pos: Pos, p: Path, id: nat, newline: string, d: Disk): (r: Result<W.Arena>)
    requires W.Valid(a) && W.CanOpen(a, pos)
    ensures r.Ok? ==> W.Valid(r.value)
  {
    match Reuse(a, p, id, newline, d)
    case Err(e) => Err(e)
    case Ok(nv) => Ok(W.Select(W.Open(nv.0, pos, nv.1), pos))
  }

  /** `open`. */
  function Open(a: W.Arena, p: Path, id: nat, newline: string, d: Disk): (r: Result<W.Arena>)
    requires W.Valid(a)
    ensures r.Ok? ==> W.Valid(r.value)
  {
    OpenAt(a, NewPos(a), p, id, newline, d)
  }

  /** `_open_split`. */
  function OpenSplit(a: W.Arena, p: Path, id: nat, newline: string, d: Disk): (r: Result<W.Arena>)
    requires W.Valid(a)
    ensures r.Ok? ==> W.Valid(r.value)
  {
    OpenAt(a, SplitPos(a), p, id, newline, d)
  }

  /** `select_or_open`: the first open view of `p` is selected; only when there is none is `p` opened. */
  function SelectOrOpen(a: W.Arena, p: Path, id: nat, newline: string, d: Disk): (r: Result<W.Arena>)
    requires W.Valid(a)
    ensures r.Ok? ==> W.Valid(r.value)
  {
    match W.ForPath(a, p)
    case Some(q) => Ok(W.Select(a, q))
    case None => Open(a, p, id, newline, d)
  }

  /** `select_or_open_split`: the same, opening in the next split. */
  function SelectOrOpenSplit(a: W.Arena, p: Path, id: nat, newline: string, d: Disk): (r: Result<W.Arena>)
    requires W.Valid(a)
    ensures r.Ok? ==> W.Valid(r.value)
  {
    match W.ForPath(a, p)
    case Some(q) => Ok(W.Select(a, q))
    case None => OpenSplit(a, p, id, newline, d)
  }

  // ---------------------------------------------------------------------------
  // Keeping views of one file in step

  /**
   * `roll_forward_edit`: the selected view's recorded edits are taken out
   * of its log and, when there are any, replayed into every other view of
   * its file.
   */
  function RollForward(a: W.Arena): (r: W.Arena)
    requires W.Valid(a)
    ensures W.Valid(r) && W.SameLayout(a, r)
  {
    match W.Selected(a)
    case None => a
    case Some(sel) =>
      var (pos, v) := sel;
      var (log, buf) := TakeLog(v.buf);
      var a1 := W.Update(a, pos, v.(buf := buf));
      if log == [] then a1 else W.Replay(a1, pos, v.path, log)
  }

  /** Every view of `p` shows the same text. */
  ghost predicate Synced(a: W.Arena, p: Path) {
    forall q1, q2 :: W.IsPos(a, q1) && W.IsPos(a, q2) && W.At(a, q1).path == p && W.At(a, q2).path == p
      ==> W.At(a, q1).buf.text == W.At(a, q2).buf.text
  }

  /** What the user's edit `e` does to the view at `pos`: typed, then `text_changed`. */
  function EditAt(a: W.Arena, pos: Pos, e: Edit): (r: W.Arena)
    requires W.Valid(a) && W.IsPos(a, pos)
    ensures W.Valid(r) && W.SameLayout(a, r)
  {
    var v := W.At(a, pos);
    W.Update(a, pos, EF.TextChanged(v.(buf := Typed(v.buf, e))).0)
  }

  // ---------------------------------------------------------------------------
  // Closing

  /** `close_selected_tab`: closes the selected tab; with nothing selected, reports Continue. */
  function CloseSelected(a: W.Arena, d: Disk): (r: (Result<Control>, W.Arena, Disk))
    requires W.Valid(a)
    ensures W.Valid(r.1)
  {
    match W.SelectedPos(a)
    case None => (Ok(Continue), a, d)
    case Some(pos) =>
      var (res, a1, d1) := W.Close(a, pos, d);
      if res.Err? then (Err(res.error), a1, d1) else (Ok(Changed), a1, d1)
  }

  /** Closing tabs `n - 1`, ..., 1, 0 of split `s` in this order, stopping at the first error. */
  function CloseDown(a: W.Arena, s: nat, n: nat, d: Disk): (r: (Result<()>, W.Arena, Disk))
    requires W.Valid(a)
    ensures W.Valid(r.1)
    decreases n
  {
    if n == 0 then (Ok(()), a, d)
    else
      var (res, a1, d1) := W.Close(a, (s, n - 1), d);
      if res.Err? then (res, a1, d1) else CloseDown(a1, s, n - 1, d1)
  }

  /** `close_all`: every tab of the selected split, from the last one down. */
  function CloseAll(a: W.Arena, d: Disk): (r: (Result<Control>, W.Arena, Disk))
    requires W.Valid(a)
    ensures W.Valid(r.1)
  {
    match W.SelectedPos(a)
    case None => (Ok(Continue), a, d)
    case Some(pos) =>
      var (res, a1, d1) := CloseDown(a, pos.0, |a.tabs[pos.0]|, d);
      if res.Err? then (Err(res.error), a1, d1) else (Ok(Changed), a1, d1)
  }

  // ---------------------------------------------------------------------------
  // Save as and split

  /**
   * `save_as`: "md" is added to a path without extension, then only the
   * selected view is renamed and saved.
   */
  function SaveAs(a: W.Arena, p: Path, d: Disk): (r: (Result<Control>, W.Arena, Disk))
    requires W.Valid(a)
    ensures W.Valid(r.1)
  {
    var path := DefaultMd(p);
    match W.Selected(a)
    case None => (Ok(Changed), a, d)
    case Some(sel) =>
      var (res, v2, d2) := SaveViewAs(sel.1, path, d);
      var a1 := W.Update(a, sel.0, v2);
      if res.Err? then (Err(res.error), a1, d2) else (Ok(Changed), a1, d2)
  }

  /**
   * `split`: when the split right of the selected one already shows the
   * selected file, its first such tab is selected; otherwise the selected
   * view gets its replay log switched on and a clone of it goes to the end
   * of that split (a new split when there is none) and is selected.
   */
  function Split(a: W.Arena, id: nat): (r: (Control, W.Arena))
    requires W.Valid(a)
    ensures W.Valid(r.1)
  {
    match W.Selected(a)
    case None => (Continue, a)
    case Some(sel) =>
      var (pos, v) := sel;
      var next := pos.0 + 1;
      var found := if next < |a.tabs| then W.IndexOfPath(a.tabs[next], v.path, 0) else None;
      match found
      case Some(t) => (Changed, W.Select(a, (next, t)))
      case None =>
        var a1 := W.Update(a, pos, Shared(v));
        var at := if next < |a.tabs| then |a.tabs[next]| else 0;
        (Changed, W.Select(W.Open(a1, (next, at), EF.Clone(Shared(v), id)), (next, at)))
  }

  // ---------------------------------------------------------------------------
  // Properties

  /**
   * `new` puts the fresh view right after the selected tab, or at (0, 0)
   * with nothing selected, and selects it; the view that was selected
   * stays where it was.
   */
  lemma NewSelectsNewView(a: W.Arena, p: Path, id: nat, newline: string)
    requires W.Valid(a)
    ensures var r := New(a, p, id, newline); var pos := NewPos(a);
      && W.SelectedPos(r) == Some(pos) && W.At(r, pos) == EF.NewFile(p, id, newline)
      && (W.SelectedPos(a).None? ==> pos == (0, 0))
      && (W.SelectedPos(a).Some? ==>
            var (s, t) := W.SelectedPos(a).value;
            pos == (s, t + 1) && W.IsPos(r, (s, t)) && W.At(r, (s, t)) == W.At(a, (s, t)))
  {
    var pos := NewPos(a);
    var v := EF.NewFile(p, id, newline);
    W.OpenShape(a, pos, v);
    var o := W.Open(a, pos, v);
    assert New(a, p, id, newline) == W.Select(o, pos);
    W.OpenSelects(a, pos, v);
    if W.SelectedPos(a).Some? {
      var (s, t) := W.SelectedPos(a).value;
      assert o.tabs[s][t] == a.tabs[s][t];
      W.SelectSelects(o, pos);
    }
  }

  /**
   * `_open` never reads a file that is already open: it places a clone of
   * the first open view of `p`, with the same text, and switches on that
   * view's replay log. When `p` is not open the file is read, a read error
   * is returned, and afterwards the new view is the only view of `p`.
   * Either way the placed view is selected at `pos`.
   */
  lemma OpenAtReuses(a: W.Arena, pos: Pos, p: Path, id: nat, newline: string, d: Disk)
    requires W.Valid(a) && W.CanOpen(a, pos)
    ensures var r := OpenAt(a, pos, p, id, newline, d);
      && (W.ForPath(a, p).Some? ==>
            var q := W.ForPath(a, p).value;
            && r.Ok? && W.SelectedPos(r.value) == Some(pos)
            && W.At(r.value, pos) == EF.Clone(Shared(W.At(a, q)), id)
            && W.At(r.value, pos).buf.text == W.At(a, q).buf.text && W.At(r.value, pos).buf.replayOn)
      && (W.ForPath(a, p).None? ==>
            && (r.Ok? <==> ReadFile(d, p).Ok?)
            && (r.Ok? ==>
                  && W.SelectedPos(r.value) == Some(pos)
                  && W.At(r.value, pos) == EF.OpenFile(p, id, newline, d).value
                  && forall q :: W.IsPos(r.value, q) && W.At(r.value, q).path == p ==> q == pos))
  {
    if W.ForPath(a, p).Some? {
      OpenAtClones(a, pos, p, id, newline, d);
    } else {
      OpenAtReads(a, pos, p, id, newline, d);
    }
  }

  /** `_open` of a file already open: the placed view is a clone of its first view. */
  lemma OpenAtClones(a: W.Arena, pos: Pos, p: Path, id: nat, newline: string, d: Disk)
    requires W.Valid(a) && W.CanOpen(a, pos) && W.ForPath(a, p).Some?
    ensures var r := OpenAt(a, pos, p, id, newline, d); var q := W.ForPath(a, p).value;
      && r.Ok? && W.SelectedPos(r.value) == Some(pos)
      && W.At(r.value, pos) == EF.Clone(Shared(W.At(a, q)), id)
      && W.At(r.value, pos).buf.text == W.At(a, q).buf.text && W.At(r.value, pos).buf.replayOn
  {
    var q := W.ForPath(a, p).value;
    var a1 := W.Update(a, q, Shared(W.At(a, q)));
    var v := EF.Clone(Shared(W.At(a, q)), id);
    W.OpenShape(a1, pos, v);
    W.SelectSelects(W.Open(a1, pos, v), pos);
  }

  /** `_open` of a file not open: the file is read, and the new view is its only view. */
  lemma OpenAtReads(a: W.Arena, pos: Pos, p: Path, id: nat, newline: string, d: Disk)
    requires W.Valid(a) && W.CanOpen(a, pos) && W.ForPath(a, p).None?
    ensures var r := OpenAt(a, pos, p, id, newline, d);
      && (r.Ok? <==> ReadFile(d, p).Ok?)
      && (r.Ok? ==>
            && W.SelectedPos(r.value) == Some(pos)
            && W.At(r.value, pos) == EF.OpenFile(p, id, newline, d).value
            && forall q :: W.IsPos(r.value, q) && W.At(r.value, q).path == p ==> q == pos)
  {
    if ReadFile(d, p).Ok? {
      var v := EF.OpenFile(p, id, newline, d).value;
      W.OpenShape(a, pos, v);
      var o := W.Open(a, pos, v);
      W.SelectSelects(o, pos);
      OpenedOnly(a, pos, v);
    }
  }

  /** After opening `v` where no view showed its file, the new view is its only view. */
  lemma OpenedOnly(a: W.Arena, pos: Pos, v: View)
    requires W.Valid(a) && W.CanOpen(a, pos) && W.ForPath(a, v.path).None?
    ensures var o := W.Open(a, pos, v);
      forall q :: W.IsPos(o, q) && W.At(o, q).path == v.path ==> q == pos
  {
    var o := W.Open(a, pos, v);
    forall q | W.IsPos(o, q) && W.At(o, q).path == v.path ensures q == pos {
      if q != pos {
        ForPathUnique(a, pos, v, q);
      }
    }
  }

  /** After opening `v` where no view showed its file, no other tab shows it. */
  lemma ForPathUnique(a: W.Arena, pos: Pos, v: View, q: Pos)
    requires W.Valid(a) && W.CanOpen(a, pos) && W.ForPath(a, v.path).None?
    requires W.IsPos(W.Open(a, pos, v), q) && q != pos
    ensures W.At(W.Open(a, pos, v), q).path != v.path
  {
    var r := W.Open(a, pos, v);
    W.OpenShape(a, pos, v);
    if q.0 == pos.0 && q.1 > pos.1 {
      var q1: Pos := (q.0, q.1 - 1);
      assert W.IsPos(a, q1) && W.At(r, q) == W.At(a, q1);
    } else {
      assert W.IsPos(a, q) && W.At(r, q) == W.At(a, q);
    }
  }

  /**
   * `select_or_open` never makes a second view of a file: when `p` is open
   * its first view is selected and the tabs stay as they were; otherwise
   * `p` is opened after the selected tab.
   */
  lemma SelectOrOpenNoDuplicate(a: W.Arena, p: Path, id: nat, newline: string, d: Disk)
    requires W.Valid(a)
    ensures var r := SelectOrOpen(a, p, id, newline, d);
      && (W.ForPath(a, p).Some? ==>
            r.Ok? && r.value.tabs == a.tabs && W.SelectedPos(r.value) == W.ForPath(a, p)
            && W.Selected(r.value).value.1.path == p)
      && (W.ForPath(a, p).None? ==> r == OpenAt(a, NewPos(a), p, id, newline, d))
  {
    if W.ForPath(a, p).Some? {
      W.SelectSelects(a, W.ForPath(a, p).value);
    }
  }

  /** The same for `select_or_open_split`, which opens in the next split. */
  lemma SelectOrOpenSplitNoDuplicate(a: W.Arena, p: Path, id: nat, newline: string, d: Disk)
    requires W.Valid(a)
    ensures var r := SelectOrOpenSplit(a, p, id, newline, d);
      && (W.ForPath(a, p).Some? ==>
            r.Ok? && r.value.tabs == a.tabs && W.SelectedPos(r.value) == W.ForPath(a, p)
            && W.Selected(r.value).value.1.path == p)
      && (W.ForPath(a, p).None? ==> r == OpenAt(a, SplitPos(a), p, id, newline, d))
  {
    if W.ForPath(a, p).Some? {
      W.SelectSelects(a, W.ForPath(a, p).value);
    }
  }

  /**
   * `_open_split` goes to the split right of the selected one and puts the
   * view right after the tab that split shows, or starts a new split when
   * the selected split is the last one.
   */
  lemma SplitPosTargetsNext(a: W.Arena)
    requires W.Valid(a) && W.SelectedPos(a).Some?
    ensures var (s, _) := W.SelectedPos(a).value; var pos := SplitPos(a);
      && pos.0 == s + 1
      && (s + 1 == |a.tabs| ==> pos.1 == 0)
      && (s + 1 < |a.tabs| ==>
            (pos.1 == a.tabbed[s + 1].value + 1 && pos.1 <= |a.tabs[s + 1]|
             && a.tabs[s + 1][pos.1 - 1] == W.ActiveView(a, s + 1)))
  {
  }

  /**
   * `roll_forward_edit` empties the selected view's log; when the log held
   * edits, every other view of the same file gets them applied once and
   * the views of other files are untouched; an empty log, or nothing
   * selected, leaves the workspace as it is.
   */
  lemma RollForwardReplays(a: W.Arena)
    requires W.Valid(a)
    ensures var r := RollForward(a);
      && (W.Selected(a).None? ==> r == a)
      && (W.Selected(a).Some? ==>
            var (pos, v) := W.Selected(a).value;
            && W.At(r, pos) == v.(buf := v.buf.(log := []))
            && (v.buf.log == [] ==> r == a)
            && (forall q :: W.IsPos(a, q) && q != pos && W.At(a, q).path == v.path ==>
                  W.At(r, q).buf.text == ApplyEdits(W.At(a, q).buf.text, v.buf.log))
            && (forall q :: W.IsPos(a, q) && W.At(a, q).path != v.path ==> W.At(r, q) == W.At(a, q)))
  {
    if W.Selected(a).Some? {
      var (pos, v) := W.Selected(a).value;
      var a1 := W.Update(a, pos, v.(buf := v.buf.(log := [])));
      if v.buf.log == [] {
        assert v.(buf := v.buf.(log := [])) == v;
        assert a.tabs[pos.0][pos.1 := v] == a.tabs[pos.0];
        assert a.tabs[pos.0 := a.tabs[pos.0]] == a.tabs;
      } else {
        forall q | W.IsPos(a, q) && q != pos && W.At(a, q).path == v.path
          ensures W.At(W.Replay(a1, pos, v.path, v.buf.log), q).buf.text == ApplyEdits(W.At(a, q).buf.text, v.buf.log)
        {
          assert W.At(a1, q) == W.At(a, q);
        }
      }
    }
  }

  /**
   * The views of one file stay in step: if all views of the selected file
   * show the same text and the selected one records its edits (its replay
   * log is on and empty), then after the user's edit `e` and
   * `roll_forward_edit` all of them show the edited text again.
   */
  lemma EditStaysSynced(a: W.Arena, e: Edit)
    requires W.Valid(a) && W.Selected(a).Some?
    requires var (_, v) := W.Selected(a).value; v.buf.replayOn && v.buf.log == [] && Synced(a, v.path)
    ensures var (pos, v) := W.Selected(a).value; var r := RollForward(EditAt(a, pos, e));
      && Synced(r, v.path)
      && (forall q :: W.IsPos(r, q) && W.At(r, q).path == v.path ==> W.At(r, q).buf.text == ApplyEdit(v.buf.text, e))
  {
    var (pos, v) := W.Selected(a).value;
    var a1 := EditAt(a, pos, e);
    var v1 := W.At(a1, pos);
    assert v1.buf.log == [e] && v1.path == v.path;
    assert W.Selected(a1) == Some((pos, v1));
    RollForwardReplays(a1);
    var r := RollForward(a1);
    assert ApplyEdits(v.buf.text, [e]) == ApplyEdit(v.buf.text, e) by {
      assert [e][1..] == [];
    }
    forall q | W.IsPos(r, q) && W.At(r, q).path == v.path
      ensures W.At(r, q).buf.text == ApplyEdit(v.buf.text, e)
    {
      assert W.IsPos(a, q);
      if q != pos {
        assert W.At(a1, q) == W.At(a, q);
      }
    }
  }

  /**
   * Closing tabs from the last one down either closes them all, which
   * removes the split together with its tab strip and shifts the selected
   * split past it, or stops at the first tab whose save fails, with the
   * tabs before it still in place and every other split untouched. It
   * fails exactly when a dirty view of the split cannot be written.
   */
  lemma {:induction false} CloseDownShape(a: W.Arena, s: nat, n: nat, d: Disk)
    requires W.Valid(a) && s < |a.tabs| && n == |a.tabs[s]|
    ensures CloseDown(a, s, n, d).2.faults == d.faults
    ensures CloseDown(a, s, n, d).0.Ok? <==> W.SeqSavable(a.tabs[s], d)
    ensures CloseDown(a, s, n, d).0.Ok? ==> SplitGone(a, s, CloseDown(a, s, n, d).1)
    ensures CloseDown(a, s, n, d).0.Err? ==> SplitCut(a, s, CloseDown(a, s, n, d).1)
    decreases n
  {
    var last := W.At(a, (s, n - 1));
    if last.changed && last.path in d.faults {
      CloseDownFails(a, s, n, d);
    } else if n == 1 {
      CloseDownLast(a, s, d);
    } else {
      var (_, a1, d1) := W.Close(a, (s, n - 1), d);
      CloseDownStep(a, s, n, d);
      CloseDownShape(a1, s, n - 1, d1);
      var r := CloseDown(a1, s, n - 1, d1).1;
      if CloseDown(a1, s, n - 1, d1).0.Ok? {
        GoneAfterCut(a, a1, s, r);
      } else {
        CutAfterCut(a, a1, s, r);
      }
    }
  }

  /** Removing split `s` after cutting its last tab removes it from the arena before the cut. */
  lemma GoneAfterCut(a: W.Arena, a1: W.Arena, s: nat, r: W.Arena)
    requires W.Valid(a) && W.Valid(a1) && s < |a.tabs| && |a.tabs[s]| > 1
    requires a1.tabs == a.tabs[s := a.tabs[s][..|a.tabs[s]| - 1]] && |a1.tabbed| == |a.tabbed|
    requires forall i :: 0 <= i < |a.tabs| && i != s ==> a1.tabbed[i] == a.tabbed[i]
    requires a1.selSplit == a.selSplit && a1.selTab == a.selTab
    requires SplitGone(a1, s, r)
    ensures SplitGone(a, s, r)
  {
    assert W.RemoveAt(a1.tabs, s) == W.RemoveAt(a.tabs, s);
    assert W.RemoveAt(a1.tabbed, s) == W.RemoveAt(a.tabbed, s);
  }

  /** A cut of split `s` after cutting its last tab is a cut of the arena before. */
  lemma CutAfterCut(a: W.Arena, a1: W.Arena, s: nat, r: W.Arena)
    requires W.Valid(a) && W.Valid(a1) && s < |a.tabs| && |a.tabs[s]| > 1
    requires a1.tabs == a.tabs[s := a.tabs[s][..|a.tabs[s]| - 1]] && |a1.tabbed| == |a.tabbed|
    requires forall i :: 0 <= i < |a.tabs| && i != s ==> a1.tabbed[i] == a.tabbed[i]
    requires a1.selSplit == a.selSplit && a1.selTab == a.selTab
    requires SplitCut(a1, s, r)
    ensures SplitCut(a, s, r)
  {
    assert r.tabs[s] == a1.tabs[s][..|r.tabs[s]|] == a.tabs[s][..|r.tabs[s]|];
  }

  /** Split `s` of `a` is gone in `r`, with its tab strip, and the selected split shifted past it. */
  predicate SplitGone(a: W.Arena, s: nat, r: W.Arena)
    requires W.Valid(a) && s < |a.tabs|
  {
    && r.tabs == W.RemoveAt(a.tabs, s) && r.tabbed == W.RemoveAt(a.tabbed, s)
    && r.selSplit == W.ActiveAfterRemove(a.selSplit, s, |a.tabs| - 1) && r.selTab == a.selTab
  }

  /** Split `s` of `r` holds a non-empty prefix of the tabs it holds in `a`; nothing else differs. */
  predicate SplitCut(a: W.Arena, s: nat, r: W.Arena)
    requires W.Valid(a) && s < |a.tabs|
  {
    && |r.tabs| == |a.tabs| && |r.tabbed| == |a.tabbed|
    && 0 < |r.tabs[s]| <= |a.tabs[s]| && r.tabs[s] == a.tabs[s][..|r.tabs[s]|]
    && (forall i :: 0 <= i < |a.tabs| && i != s ==> r.tabs[i] == a.tabs[i] && r.tabbed[i] == a.tabbed[i])
    && r.selSplit == a.selSplit && r.selTab == a.selTab
  }

  /** The first close already fails: nothing changes. */
  lemma CloseDownFails(a: W.Arena, s: nat, n: nat, d: Disk)
    requires W.Valid(a) && s < |a.tabs| && n == |a.tabs[s]|
    requires W.At(a, (s, n - 1)).changed && W.At(a, (s, n - 1)).path in d.faults
    ensures CloseDown(a, s, n, d).0.Err? && CloseDown(a, s, n, d).1 == a
    ensures CloseDown(a, s, n, d).2 == SaveView(W.At(a, (s, n - 1)), d).2
    ensures !W.SeqSavable(a.tabs[s], d) && SplitCut(a, s, a)
  {
    W.CloseSaveFails(a, (s, n - 1), d);
    assert a.tabs[s][..n] == a.tabs[s];
  }

  /** Closing the only tab removes the split. */
  lemma CloseDownLast(a: W.Arena, s: nat, d: Disk)
    requires W.Valid(a) && s < |a.tabs| && |a.tabs[s]| == 1
    requires !W.At(a, (s, 0)).changed || W.At(a, (s, 0)).path !in d.faults
    ensures CloseDown(a, s, 1, d).0.Ok? && CloseDown(a, s, 1, d).2.faults == d.faults
    ensures W.SeqSavable(a.tabs[s], d) && SplitGone(a, s, CloseDown(a, s, 1, d).1)
  {
    W.CloseRemoves(a, (s, 0), d);
    W.RemoveShape(a, (s, 0));
  }

  /** Closing the last of several tabs leaves the others; the rest is closed from there. */
  lemma CloseDownStep(a: W.Arena, s: nat, n: nat, d: Disk)
    requires W.Valid(a) && s < |a.tabs| && n == |a.tabs[s]| && n > 1
    requires !W.At(a, (s, n - 1)).changed || W.At(a, (s, n - 1)).path !in d.faults
    ensures var (res, a1, d1) := W.Close(a, (s, n - 1), d);
      && res.Ok? && CloseDown(a, s, n, d) == CloseDown(a1, s, n - 1, d1)
      && a1.tabs == a.tabs[s := a.tabs[s][..n - 1]] && |a1.tabbed| == |a.tabbed|
      && (forall i :: 0 <= i < |a.tabs| && i != s ==> a1.tabbed[i] == a.tabbed[i])
      && a1.selSplit == a.selSplit && a1.selTab == a.selTab
      && d1.faults == d.faults
      && (W.SeqSavable(a.tabs[s], d) <==> W.SeqSavable(a1.tabs[s], d1))
  {
    var last := W.At(a, (s, n - 1));
    W.CloseRemoves(a, (s, n - 1), d);
    W.RemoveShape(a, (s, n - 1));
    assert W.RemoveAt(a.tabs[s], n - 1) == a.tabs[s][..n - 1];
    SavableDropLast(a.tabs[s], d, SaveView(last, d).2);
  }

  /** A row whose last view can be saved is savable exactly when the rest of it is. */
  lemma SavableDropLast(vs: seq<View>, d: Disk, d1: Disk)
    requires |vs| > 0 && d1.faults == d.faults
    requires !vs[|vs| - 1].changed || vs[|vs| - 1].path !in d.faults
    ensures W.SeqSavable(vs, d) <==> W.SeqSavable(vs[..|vs| - 1], d1)
  {
    var rest := vs[..|vs| - 1];
    assert forall k :: 0 <= k < |rest| ==> rest[k] == vs[k];
  }

  /**
   * `close_all` with a split selected closes every tab of it: when every
   * dirty view there can be saved the split is gone and the selection moves
   * to its left neighbour (or the first split, or none when no split is
   * left); otherwise the error is returned and the split keeps its first
   * tabs. With nothing selected it reports Continue and changes nothing.
   */
  lemma CloseAllRemovesSplit(a: W.Arena, d: Disk)
    requires W.Valid(a)
    ensures var (res, r, d2) := CloseAll(a, d);
      && (W.SelectedPos(a).None? ==> res == Ok(Continue) && r == a && d2 == d)
      && (W.SelectedPos(a).Some? ==>
            var s := W.SelectedPos(a).value.0;
            && (res.Ok? <==> W.SeqSavable(a.tabs[s], d))
            && (res.Ok? ==>
                  && res == Ok(Changed) && r.tabs == W.RemoveAt(a.tabs, s)
                  && r.selSplit == (if s > 0 then Some(s - 1) else if |r.tabs| > 0 then Some(0) else None))
            && (res.Err? ==> |r.tabs| == |a.tabs| && 0 < |r.tabs[s]| <= |a.tabs[s]| && r.tabs[s] == a.tabs[s][..|r.tabs[s]|]))
  {
    if W.SelectedPos(a).Some? {
      var s := W.SelectedPos(a).value.0;
      CloseDownShape(a, s, |a.tabs[s]|, d);
    }
  }

  /**
   * `save_as` renames the selected view to `p`, with "md" added when `p`
   * has no extension, and saves only it: the new name sticks even when the
   * write fails, and no other view changes. With nothing selected nothing
   * happens.
   */
  lemma SaveAsRenamesSelected(a: W.Arena, p: Path, d: Disk)
    requires W.Valid(a)
    ensures var (res, r, d2) := SaveAs(a, p, d);
      && W.SameLayout(a, r)
      && (W.Selected(a).None? ==> res == Ok(Changed) && r == a && d2 == d)
      && (W.Selected(a).Some? ==>
            var (pos, v) := W.Selected(a).value;
            && W.At(r, pos).path == DefaultMd(p)
            && (res.Ok? <==> SaveViewAs(v, DefaultMd(p), d).0.Ok?)
            && (res.Ok? ==> !W.At(r, pos).changed)
            && (forall q :: W.IsPos(a, q) && q != pos ==> W.At(r, q) == W.At(a, q)))
  {
  }

  /**
   * `split` ends with a view of the selected file selected in the split to
   * the right. When that split already shows the file nothing is added;
   * otherwise the new view is a clone at the end of that split, with the
   * text of the original, and both of them record their edits.
   */
  lemma SplitSelectsSameFile(a: W.Arena, id: nat)
    requires W.Valid(a)
    ensures var (c, r) := Split(a, id);
      && (W.Selected(a).None? ==> c == Continue && r == a)
      && (W.Selected(a).Some? ==>
            var (pos, v) := W.Selected(a).value;
            var sp := W.SelectedPos(r);
            && c == Changed && sp.Some? && sp.value.0 == pos.0 + 1
            && W.Selected(r).value.1.path == v.path
            && (pos.0 + 1 < |a.tabs| && W.IndexOfPath(a.tabs[pos.0 + 1], v.path, 0).Some? ==> r.tabs == a.tabs)
            && (pos.0 + 1 == |a.tabs| || W.IndexOfPath(a.tabs[pos.0 + 1], v.path, 0).None? ==>
                  && sp.value.1 == |r.tabs[pos.0 + 1]| - 1
                  && W.Selected(r).value.1 == EF.Clone(Shared(v), id)
                  && W.Selected(r).value.1.buf.text == v.buf.text && W.Selected(r).value.1.buf.replayOn
                  && W.IsPos(r, pos) && W.At(r, pos) == Shared(v)))
  {
    if W.Selected(a).Some? {
      var (pos, v) := W.Selected(a).value;
      if pos.0 + 1 < |a.tabs| && W.IndexOfPath(a.tabs[pos.0 + 1], v.path, 0).Some? {
        SplitFinds(a, id, pos, v);
      } else {
        SplitClones(a, id, pos, v);
      }
    }
  }

  /** `split` where the split to the right shows the selected file: that view is selected. */
  lemma SplitFinds(a: W.Arena, id: nat, pos: W.Pos, v: View)
    requires W.Valid(a) && W.Selected(a) == Some((pos, v))
    requires pos.0 + 1 < |a.tabs| && W.IndexOfPath(a.tabs[pos.0 + 1], v.path, 0).Some?
    ensures var (c, r) := Split(a, id); var sp := W.SelectedPos(r);
      && c == Changed && sp.Some? && sp.value.0 == pos.0 + 1
      && W.Selected(r).value.1.path == v.path && r.tabs == a.tabs
  {
    var t := W.IndexOfPath(a.tabs[pos.0 + 1], v.path, 0).value;
    assert Split(a, id) == (Changed, W.Select(a, (pos.0 + 1, t)));
    W.SelectSelects(a, (pos.0 + 1, t));
  }

  /** `split` where the split to the right does not show the selected file: a clone goes at its end. */
  lemma SplitClones(a: W.Arena, id: nat, pos: W.Pos, v: View)
    requires W.Valid(a) && W.Selected(a) == Some((pos, v))
    requires pos.0 + 1 == |a.tabs| || W.IndexOfPath(a.tabs[pos.0 + 1], v.path, 0).None?
    ensures var (c, r) := Split(a, id); var sp := W.SelectedPos(r);
      var at := if pos.0 + 1 < |a.tabs| then |a.tabs[pos.0 + 1]| else 0;
      && c == Changed && sp.Some? && sp.value.0 == pos.0 + 1
      && W.Selected(r).value.1.path == v.path
      && sp == Some((pos.0 + 1, at)) && |r.tabs[pos.0 + 1]| == at + 1
      && sp.value.1 == |r.tabs[pos.0 + 1]| - 1
      && W.Selected(r).value.1 == EF.Clone(Shared(v), id)
      && W.Selected(r).value.1.buf.text == v.buf.text && W.Selected(r).value.1.buf.replayOn
      && W.IsPos(r, pos) && W.At(r, pos) == Shared(v)
  {
    var next := pos.0 + 1;
    var a1 := W.Update(a, pos, Shared(v));
    var at := if next < |a.tabs| then |a.tabs[next]| else 0;
    var c := EF.Clone(Shared(v), id);
    assert Split(a, id).1 == W.Select(W.Open(a1, (next, at), c), (next, at));
    W.OpenSelects(a1, (next, at), c);
  }

}
