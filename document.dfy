/**
 * One editor view of a file (`MDFileState`), its text buffer, and the disk
 * the view is saved to.
 *
 * The text buffer itself belongs to the widget library; the model keeps of
 * it only what the workspace relies on: the text, the line terminator, the
 * number of open undo entries, and the replay log that records edits for
 * the other views of the same file.
 */
module Document {
  import opened Wrappers
  import opened Strings
  import opened Paths

  datatype DocType = MD | TXT

  /** One recorded change of a buffer; positions are clamped to the text. */
  datatype Edit = Insert(at: nat, chars: string) | Remove(from: nat, to: nat)

  function Min(a: nat, b: nat): nat { if a <= b then a else b }

  function ApplyEdit(s: string, e: Edit): (r: string)
    ensures e.Insert? ==> |r| == |s| + |e.chars|
    ensures e.Remove? ==> |r| <= |s|
  {
    match e
    case Insert(at, chars) =>
      var k := Min(at, |s|);
      s[..k] + chars + s[k..]
    case Remove(from, to) =>
      var a := Min(from, |s|);
      var b := Min(to, |s|);
      if a <= b then s[..a] + s[b..] else s
  }

  /** Applying a log, oldest edit first. */
  function ApplyEdits(s: string, log: seq<Edit>): string
    decreases |log|
  {
    if |log| == 0 then s else ApplyEdits(ApplyEdit(s, log[0]), log[1..])
  }

  /** Applying two logs one after the other is applying their concatenation. */
  lemma {:induction false} ApplyEditsAppend(s: string, a: seq<Edit>, b: seq<Edit>)
    ensures ApplyEdits(s, a + b) == ApplyEdits(ApplyEdits(s, a), b)
    decreases |a|
  {
    if |a| > 0 {
      assert (a + b)[0] == a[0];
      assert (a + b)[1..] == a[1..] + b;
      ApplyEditsAppend(ApplyEdit(s, a[0]), a[1..], b);
    } else {
      assert a + b == b;
    }
  }

  /**
   * The text buffer: its text, the terminator `save` writes after every
   * line, the count of open undo entries, whether the replay log records,
   * and the edits recorded since the log was last taken.
   */
  datatype Buffer = Buffer(text: string, newline: string, undoOpen: nat, replayOn: bool, log: seq<Edit>)

  function NewBuffer(text: string, newline: string): Buffer {
    Buffer(text, newline, 0, false, [])
  }

  /** An edit made by the user: applied, undoable, and recorded when replay is on. */
  function Typed(b: Buffer, e: Edit): (r: Buffer)
    ensures r.text == ApplyEdit(b.text, e) && r.undoOpen == b.undoOpen + 1
    ensures r.log == (if b.replayOn then b.log + [e] else b.log)
  {
    b.(text := ApplyEdit(b.text, e), undoOpen := b.undoOpen + 1,
       log := if b.replayOn then b.log + [e] else b.log)
  }

  /** `recent_replay_log`: hands out the recorded edits and empties the log. */
  function TakeLog(b: Buffer): (r: (seq<Edit>, Buffer))
    ensures r.0 == b.log && r.1.log == [] && r.1.text == b.text
  {
    (b.log, b.(log := []))
  }

  /** `replay_log`: applies edits recorded in another view, without recording them again. */
  function ReplayLog(b: Buffer, log: seq<Edit>): (r: Buffer)
    ensures r.text == ApplyEdits(b.text, log) && r.log == b.log
  {
    b.(text := ApplyEdits(b.text, log))
  }

  /** `enable_replay_log(true)`. */
  function EnableReplay(b: Buffer): (r: Buffer)
    ensures r.replayOn && r.text == b.text && r.log == b.log
  {
    b.(replayOn := true)
  }

  /**
   * One view: the identity of its focus flag, the file path, the dirty
   * flag, the document type (which the older generation of views does not
   * have), the buffer, the line-number widget's scroll state, and whether
   * a parse timer is pending.
   */
  datatype View = View(
    id: nat,
    path: Path,
    changed: bool,
    docType: Option<DocType>,
    buf: Buffer,
    linenr: nat,
    timer: bool)

  /** The application event a view queues after its text changed. */
  datatype MDEvent = SyncEdit

  // ---------------------------------------------------------------------------
  // The disk

  /** How writing a file at a path fails. */
  datatype Fault =
    | CreateFails  // `File::create` fails: a missing directory, no permission
    | WriteFails   // `File::create` truncates the file, then `write_all` fails: a full device

  /** The files on disk, and the paths where saving fails and how. */
  datatype Disk = Disk(files: map<Path, string>, faults: map<Path, Fault>)

  /**
   * `File::create` followed by `write_all` of `content`: without a fault
   * the file holds `content`; a failed create leaves the disk alone; a
   * failed write leaves the file truncated. The faults stay as they are.
   */
  function WriteFile(d: Disk, p: Path, content: string): (r: (Result<()>, Disk))
    ensures r.0.Ok? <==> p !in d.faults
    ensures r.1.faults == d.faults
    ensures r.0.Ok? ==> r.1.files == d.files[p := content]
    ensures p in d.faults && d.faults[p] == CreateFails ==> r.1 == d
    ensures p in d.faults && d.faults[p] == WriteFails ==> r.1.files == d.files[p := ""]
  {
    if p !in d.faults then (Ok(()), d.(files := d.files[p := content]))
    else if d.faults[p] == CreateFails then (Err(IoError("create")), d)
    else (Err(IoError("write")), d.(files := d.files[p := ""]))
  }

  /** `fs::read_to_string`. */
  function ReadFile(d: Disk, p: Path): (r: Result<string>)
    ensures r.Ok? <==> p in d.files
    ensures r.Ok? ==> r.value == d.files[p]
  {
    if p in d.files then Ok(d.files[p]) else Err(IoError("read"))
  }

  // ---------------------------------------------------------------------------
  // Lines and the save serialiser

  function StripCr(x: string): (r: string)
    ensures |r| <= |x| && r == x[..|r|]
  {
    if |x| > 0 && x[|x| - 1] == '\r' then x[..|x| - 1] else x
  }

  /**
   * `str::lines`: the pieces between '\n' characters, each without a '\r'
   * just before its '\n'; a final '\n' does not start another line, and a
   * '\r' closing the last, unterminated line stays.
   */
  function Lines(s: string): seq<string>
    decreases |s|
  {
    if s == [] then []
    else
      var i := FirstIndexOf(s, {'\n'});
      if i == |s| then [s] else [StripCr(s[..i])] + Lines(s[i + 1..])
  }

  /** Each line followed by the terminator. */
  function Terminated(ls: seq<string>, nl: string): string
    decreases |ls|
  {
    if |ls| == 0 then "" else ls[0] + nl + Terminated(ls[1..], nl)
  }

  /** What `save` writes for a buffer's text. */
  function SaveBytes(text: string, nl: string): string {
    Terminated(Lines(text), nl)
  }

  lemma {:induction false} TerminatedAppend(ls: seq<string>, l: string, nl: string)
    ensures Terminated(ls + [l], nl) == Terminated(ls, nl) + l + nl
    decreases |ls|
  {
    if |ls| > 0 {
      assert (ls + [l])[1..] == ls[1..] + [l];
      TerminatedAppend(ls[1..], l, nl);
    } else {
      assert ls + [l] == [l];
    }
  }

  /** The line-by-line loop of `save` that fills the output buffer. */
  method BuildSaveBuffer(text: string, nl: string) returns (buf: string)
    ensures buf == SaveBytes(text, nl)
  {
    var lines := Lines(text);
    buf := "";
    for i := 0 to |lines|
      invariant buf == Terminated(lines[..i], nl)
    {
      TerminatedAppend(lines[..i], lines[i], nl);
      assert lines[..i + 1] == lines[..i] + [lines[i]];
      buf := buf + lines[i] + nl;
    }
    assert lines[..|lines|] == lines;
  }

  lemma FirstNewline(r: string)
    ensures FirstIndexOf(['\n'] + r, {'\n'}) == 0
  {
  }

  lemma LinesCons(p: string, rest: string)
    requires NoneOf(p, {'\n'})
    ensures Lines(p + ['\n'] + rest) == [StripCr(p)] + Lines(rest)
  {
    var s := p + ['\n'] + rest;
    assert s == p + (['\n'] + rest);
    FirstIndexOfPrefix(p, ['\n'] + rest, {'\n'});
    FirstNewline(rest);
    assert s[..|p|] == p;
    assert s[|p| + 1..] == rest;
  }

  predicate EndsWithCr(x: string) { |x| > 0 && x[|x| - 1] == '\r' }

  /** No line holds a '\n', and none holds a '\r' when the text has none. */
  lemma {:induction false} LinesShape(s: string)
    ensures forall k :: 0 <= k < |Lines(s)| ==> NoneOf(Lines(s)[k], {'\n'})
    ensures NoneOf(s, {'\r'}) ==> forall k :: 0 <= k < |Lines(s)| ==> NoneOf(Lines(s)[k], {'\r'})
    decreases |s|
  {
    if s != [] {
      var i := FirstIndexOf(s, {'\n'});
      if i < |s| {
        var rest := s[i + 1..];
        var head := StripCr(s[..i]);
        LinesShape(rest);
        assert Lines(s) == [head] + Lines(rest);
        assert forall j :: 0 <= j < |head| ==> head[j] == s[j];
        if NoneOf(s, {'\r'}) {
          assert forall j :: 0 <= j < |rest| ==> rest[j] == s[i + 1 + j];
        }
      }
    }
  }

  /**
   * Reading back what was written with a terminator "\n" or "\r\n" gives
   * the same lines, provided no line holds '\n' and, for "\n", no line
   * ends in '\r'.
   */
  lemma {:induction false} LinesOfTerminated(ls: seq<string>, nl: string)
    requires nl == "\n" || nl == "\r\n"
    requires forall k :: 0 <= k < |ls| ==> NoneOf(ls[k], {'\n'})
    requires nl == "\n" ==> forall k :: 0 <= k < |ls| ==> !EndsWithCr(ls[k])
    ensures Lines(Terminated(ls, nl)) == ls
    decreases |ls|
  {
    if |ls| > 0 {
      var rest := Terminated(ls[1..], nl);
      LinesOfTerminated(ls[1..], nl);
      if nl == "\n" {
        assert Terminated(ls, nl) == ls[0] + ['\n'] + rest;
        LinesCons(ls[0], rest);
      } else {
        var p := ls[0] + ['\r'];
        assert Terminated(ls, nl) == p + ['\n'] + rest;
        assert p[..|p| - 1] == ls[0];
        LinesCons(p, rest);
      }
      assert ls == [ls[0]] + ls[1..];
    }
  }

  /**
   * The file `save` writes holds the buffer's lines: with the terminator
   * "\r\n" always, with "\n" when the text holds no '\r'.
   */
  lemma SavedLines(text: string, nl: string)
    requires nl == "\r\n" || (nl == "\n" && NoneOf(text, {'\r'}))
    ensures Lines(SaveBytes(text, nl)) == Lines(text)
  {
    LinesShape(text);
    var ls := Lines(text);
    if nl == "\n" {
      forall k | 0 <= k < |ls| ensures !EndsWithCr(ls[k]) {
        assert NoneOf(ls[k], {'\r'});
      }
    }
    LinesOfTerminated(ls, nl);
  }

  /** Saving what a save wrote writes the same bytes again. */
  lemma SaveBytesIdempotent(text: string, nl: string)
    requires nl == "\r\n" || (nl == "\n" && NoneOf(text, {'\r'}))
    ensures SaveBytes(SaveBytes(text, nl), nl) == SaveBytes(text, nl)
  {
    SavedLines(text, nl);
  }

  /**
   * A text without '\r' whose last line is terminated is written byte for
   * byte when the terminator is "\n".
   */
  lemma {:induction false} SaveBytesExact(text: string)
    requires NoneOf(text, {'\r'})
    requires text == [] || text[|text| - 1] == '\n'
    ensures SaveBytes(text, "\n") == text
    decreases |text|
  {
    if text != [] {
      var i := FirstIndexOf(text, {'\n'});
      assert i < |text|;
      var rest := text[i + 1..];
      SaveBytesExact(rest);
      assert StripCr(text[..i]) == text[..i];
      assert text == text[..i] + "\n" + rest;
    }
  }

  // ---------------------------------------------------------------------------
  // Saving a view

  /**
   * `save`: a clean view is left alone; a dirty one has its lines written
   * to its path and becomes clean. A failed write leaves the view as it
   * was, dirty, and the disk as `WriteFile` left it.
   */
  function SaveView(v: View, d: Disk): (r: (Result<()>, View, Disk))
    ensures r.2.faults == d.faults
    ensures r.0.Err? ==> r.1 == v && v.changed && r.2 == WriteFile(d, v.path, SaveBytes(v.buf.text, v.buf.newline)).1
    ensures r.0.Ok? ==> r.1 == v.(changed := false)
  {
    if !v.changed then (Ok(()), v, d)
    else
      match WriteFile(d, v.path, SaveBytes(v.buf.text, v.buf.newline))
      case (Err(e), d2) => (Err(e), v, d2)
      case (Ok(_), d2) => (Ok(()), v.(changed := false), d2)
  }

  /** `save` as the source writes it, with the line loop. */
  method Save(v: View, d: Disk) returns (res: Result<()>, v2: View, d2: Disk)
    ensures (res, v2, d2) == SaveView(v, d)
  {
    v2, d2 := v, d;
    if v.changed {
      if v.path in d.faults && d.faults[v.path] == CreateFails {
        res := Err(IoError("create"));
        return;
      }
      var buf := BuildSaveBuffer(v.buf.text, v.buf.newline);
      if v.path in d.faults {
        d2 := d.(files := d.files[v.path := ""]);
        res := Err(IoError("write"));
        return;
      }
      d2 := d.(files := d.files[v.path := buf]);
      v2 := v.(changed := false);
    }
    res := Ok(());
  }

  /** `save_as`: the path is assigned first, so it changes even when the write fails. */
  function SaveViewAs(v: View, p: Path, d: Disk): (r: (Result<()>, View, Disk))
    ensures r.1.path == p
  {
    SaveView(v.(path := p), d)
  }

  method SaveAs(v: View, p: Path, d: Disk) returns (res: Result<()>, v2: View, d2: Disk)
    ensures (res, v2, d2) == SaveViewAs(v, p, d)
  {
    var renamed := v.(path := p);
    res, v2, d2 := Save(renamed, d);
  }

  /**
   * The dirty-flag contract of `save`: after a successful save the view is
   * clean and a second save is an Ok no-op; a dirty view's file then holds
   * the view's lines and no other file changed; a clean view writes nothing.
   */
  lemma SaveContract(v: View, d: Disk)
    ensures !v.changed ==> SaveView(v, d) == (Ok(()), v, d)
    ensures SaveView(v, d).0.Ok? ==> !SaveView(v, d).1.changed
    ensures var (res, v2, d2) := SaveView(v, d);
      res.Ok? ==> SaveView(v2, d2) == (Ok(()), v2, d2)
    ensures var (res, v2, d2) := SaveView(v, d);
      res.Ok? && v.changed ==>
        ReadFile(d2, v.path) == Ok(SaveBytes(v.buf.text, v.buf.newline))
        && (forall q :: q != v.path ==> (q in d2.files <==> q in d.files))
        && (forall q :: q != v.path && q in d.files ==> d2.files[q] == d.files[q])
    ensures v.changed ==> (SaveView(v, d).0.Ok? <==> v.path !in d.faults)
  {
  }

  /**
   * A failed save leaves the view dirty: a failed create writes nothing,
   * a failed write leaves the file empty, and no other file changes.
   */
  lemma SaveFails(v: View, d: Disk)
    requires SaveView(v, d).0.Err?
    ensures var (_, v2, d2) := SaveView(v, d);
      && v2 == v && v.changed && v.path in d.faults
      && (d.faults[v.path] == CreateFails ==> d2 == d)
      && (d.faults[v.path] == WriteFails ==> ReadFile(d2, v.path) == Ok(""))
      && (forall q :: q != v.path ==> (q in d2.files <==> q in d.files))
      && (forall q :: q != v.path && q in d.files ==> d2.files[q] == d.files[q])
  {
  }

  /**
   * What a successful save of a dirty view wrote reads back as the view's
   * own lines.
   */
  lemma SaveReadBack(v: View, d: Disk)
    requires v.changed && SaveView(v, d).0.Ok?
    requires v.buf.newline == "\r\n" || (v.buf.newline == "\n" && NoneOf(v.buf.text, {'\r'}))
    ensures ReadFile(SaveView(v, d).2, v.path).Ok?
    ensures Lines(ReadFile(SaveView(v, d).2, v.path).value) == Lines(v.buf.text)
  {
    SavedLines(v.buf.text, v.buf.newline);
  }
}
