/**
 * The current generation of views (`editor_file.rs`): a new view is clean
 * until its text is edited, and the dirty flag follows the undo buffer.
 */
module EditorFile {
  import opened Wrappers
  import opened Paths
  import opened Document

  /** `doc_type`: markdown exactly for the extension "md". */
  function DocTypeOf(p: Path): (t: DocType)
    ensures t == MD <==> Extension(p) == Some("md")
  {
    match Extension(p)
    case Some(ext) => if ext == "md" then MD else TXT
    case None => TXT
  }

  /**
   * `new_file`: an empty, clean view for `p`, with "md" added when `p` has
   * no extension, and no parse timer. The buffer keeps the text area's
   * default terminator `newline`.
   */
  function NewFile(p: Path, id: nat, newline: string): (v: View)
    ensures v.path == DefaultMd(p) && v.id == id
    ensures !v.changed && !v.timer && v.buf == NewBuffer("", newline)
    ensures v.docType == Some(DocTypeOf(v.path))
  {
    var path := DefaultMd(p);
    View(id, path, false, Some(DocTypeOf(path)), NewBuffer("", newline), 0, false)
  }

  /**
   * `open_file`: the file's text in a clean view with a parse timer
   * started; a read error is returned as it is.
   */
  function OpenFile(p: Path, id: nat, newline: string, d: Disk): (r: Result<View>)
    ensures r.Ok? <==> ReadFile(d, p).Ok?
    ensures r.Ok? ==> r.value.path == p && r.value.id == id && !r.value.changed && r.value.timer
    ensures r.Ok? ==> r.value.buf == NewBuffer(ReadFile(d, p).value, newline)
    ensures r.Ok? ==> r.value.docType == Some(DocTypeOf(p))
  {
    match ReadFile(d, p)
    case Err(e) => Err(e)
    case Ok(t) => Ok(View(id, p, false, Some(DocTypeOf(p)), NewBuffer(t, newline), 0, true))
  }

  /**
   * `text_changed`: the view is dirty exactly while the undo buffer holds
   * open entries; SyncEdit is queued, the parse timer restarted, and the
   * handler reports Changed.
   */
  function TextChanged(v: View): (r: (View, seq<MDEvent>, Control))
    ensures r.0.changed <==> v.buf.undoOpen > 0
    ensures r.0 == v.(changed := r.0.changed, timer := true)
    ensures r.1 == [SyncEdit] && r.2 == Changed
  {
    (v.(changed := v.buf.undoOpen > 0, timer := true), [SyncEdit], Changed)
  }

  /**
   * `clone`: the same document and buffer under a new focus identity,
   * without a parse timer.
   */
  function Clone(v: View, newId: nat): (c: View)
    ensures c.id == newId && !c.timer
    ensures c.path == v.path && c.changed == v.changed && c.docType == v.docType
    ensures c.buf == v.buf && c.linenr == v.linenr
  {
    v.(id := newId, timer := false)
  }

  /** A fresh view of a name without extension is a markdown document. */
  lemma NewFileIsMarkdown(p: Path, id: nat, newline: string)
    requires FileName(p).Some? && Extension(p).None?
    ensures Extension(NewFile(p, id, newline).path) == Some("md")
    ensures NewFile(p, id, newline).docType == Some(MD)
  {
    DefaultMdExtension(p);
  }

  /**
   * The dirty-flag life cycle: fresh and freshly opened views save nothing;
   * after a user edit `text_changed` marks the view dirty, and a successful
   * save then writes its lines and makes it clean again.
   */
  lemma DirtyLifeCycle(v: View, e: Edit, d: Disk)
    requires v.path !in d.faults
    ensures var v1 := TextChanged(v.(buf := Typed(v.buf, e))).0;
      v1.changed && SaveView(v1, d).0.Ok? && !SaveView(v1, d).1.changed
      && SaveView(v1, d).2.files == d.files[v.path := SaveBytes(v1.buf.text, v1.buf.newline)]
  {
  }

  /** A new view is not written to disk until it is edited. */
  lemma NewFileSavesNothing(p: Path, id: nat, newline: string, d: Disk)
    ensures var v := NewFile(p, id, newline); SaveView(v, d) == (Ok(()), v, d)
  {
  }

  /** A clone saves the same bytes as its original. */
  lemma CloneSavesSame(v: View, newId: nat, d: Disk)
    ensures SaveView(Clone(v, newId), d).0 == SaveView(v, d).0
    ensures SaveView(Clone(v, newId), d).2 == SaveView(v, d).2
  {
  }
}
