/**
 * The older generation of views (`md_file.rs`): a new view starts dirty,
 * every text change marks it dirty, and the view has no document type.
 * Saving is the same as in the current generation (`Document.SaveView`).
 */
module MdFile {
  import opened Wrappers
  import opened Paths
  import opened Document

  /**
   * `new_file`: an empty view for `p` with "md" added when `p` has no
   * extension; it starts dirty, with the configured terminator.
   */
  function NewFile(p: Path, id: nat, newline: string): (v: View)
    ensures v.path == DefaultMd(p) && v.id == id && v.docType.None?
    ensures v.changed && !v.timer && v.buf == NewBuffer("", newline)
  {
    View(id, DefaultMd(p), true, None, NewBuffer("", newline), 0, false)
  }

  /** `open_file`: the file's text in a clean view with a parse timer started. */
  function OpenFile(p: Path, id: nat, newline: string, d: Disk): (r: Result<View>)
    ensures r.Ok? <==> ReadFile(d, p).Ok?
    ensures r.Ok? ==> r.value.path == p && r.value.id == id && !r.value.changed && r.value.timer
    ensures r.Ok? ==> r.value.buf == NewBuffer(ReadFile(d, p).value, newline) && r.value.docType.None?
  {
    match ReadFile(d, p)
    case Err(e) => Err(e)
    case Ok(t) => Ok(View(id, p, false, None, NewBuffer(t, newline), 0, true))
  }

  /** `text_changed`: dirty whatever the undo state; SyncEdit queued, timer restarted. */
  function TextChanged(v: View): (r: (View, seq<MDEvent>, Control))
    ensures r.0 == v.(changed := true, timer := true)
    ensures r.1 == [SyncEdit] && r.2 == Changed
  {
    (v.(changed := true, timer := true), [SyncEdit], Changed)
  }

  /** `clone`: same document and buffer; line numbers and parse timer start over. */
  function Clone(v: View, newId: nat): (c: View)
    ensures c.id == newId && !c.timer && c.linenr == 0
    ensures c.path == v.path && c.changed == v.changed && c.docType == v.docType && c.buf == v.buf
  {
    v.(id := newId, linenr := 0, timer := false)
  }

  /**
   * A new view is written on the first save, as an empty file at its
   * defaulted path, unless the file cannot be created.
   */
  lemma NewFileFirstSave(p: Path, id: nat, newline: string, d: Disk)
    ensures var v := NewFile(p, id, newline);
      SaveView(v, d).0.Ok? <==> v.path !in d.faults
    ensures var v := NewFile(p, id, newline);
      v.path !in d.faults ==> ReadFile(SaveView(v, d).2, v.path) == Ok("")
  {
  }

  /** Any reported text change leaves the view dirty, even a fully undone one. */
  lemma TextChangedAlwaysDirty(v: View)
    ensures TextChanged(v).0.changed
    ensures SaveView(TextChanged(v).0, Disk(map[], map[])).0.Ok?
  {
  }
}
