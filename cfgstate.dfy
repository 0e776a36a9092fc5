/**
 * `store_file_state` of `cfg/mod.rs`, which records the workspace into the
 * session lists before `store` writes them, and the `MDConfig` object whose
 * fields `load`, `store_file_state` and `store` read and write.
 */
module CfgState {
  import opened Wrappers
  import opened Strings
  import opened Ini
  import opened Paths
  import opened Document
  import W = Workspace
  import C = Config
  import opened Cfg

  /**
   * What the text widget of a view reports: the cursor, the scroll offset
   * (a `usize` pair) and the sub-row offset.
   */
  datatype Caret = Caret(cursor: (nat, nat), offset: (nat, nat), subRow: nat)

  /** `as upos_type`: the low 32 bits. */
  function ToUPos(n: nat): (r: nat)
    ensures r <= UPosMax
    ensures n <= UPosMax ==> r == n
  {
    n % 0x1_0000_0000
  }

  /** A view with its split and tab index. */
  type Placed = (nat, nat, View)

  function PosOf(x: Placed): W.Pos {
    (x.0, x.1)
  }

  function Row(vs: seq<View>, s: nat): (r: seq<Placed>)
    ensures |r| == |vs|
    ensures forall t :: 0 <= t < |vs| ==> r[t] == (s, t, vs[t])
  {
    seq(|vs|, t requires 0 <= t < |vs| => (s, t, vs[t]))
  }

  /** The views of the splits from `s` on, split by split and tab by tab, as the nested loop visits them. */
  function ViewsFrom(tabs: seq<seq<View>>, s: nat): seq<Placed>
    decreases |tabs| - s
  {
    if s < |tabs| then Row(tabs[s], s) + ViewsFrom(tabs, s + 1) else []
  }

  function Views(a: W.Arena): seq<Placed> {
    ViewsFrom(a.tabs, 0)
  }

  /** Exactly the views of the splits from `s` on are visited. */
  lemma {:induction false} ViewsFromComplete(tabs: seq<seq<View>>, s: nat)
    ensures forall x :: x in ViewsFrom(tabs, s) <==>
      s <= x.0 < |tabs| && x.1 < |tabs[x.0]| && x.2 == tabs[x.0][x.1]
    decreases |tabs| - s
  {
    if s < |tabs| {
      ViewsFromComplete(tabs, s + 1);
      var row := Row(tabs[s], s);
      forall x: Placed | x.0 == s && x.1 < |tabs[s]| && x.2 == tabs[s][x.1] ensures x in row {
        assert row[x.1] == x;
      }
    }
  }

  /** The visit is in strictly increasing split-then-tab order. */
  lemma {:induction false} ViewsFromOrdered(tabs: seq<seq<View>>, s: nat)
    ensures forall i :: 0 <= i < |ViewsFrom(tabs, s)| ==> s <= ViewsFrom(tabs, s)[i].0
    ensures forall i, j :: 0 <= i < j < |ViewsFrom(tabs, s)| ==>
      W.Before(PosOf(ViewsFrom(tabs, s)[i]), PosOf(ViewsFrom(tabs, s)[j]))
    decreases |tabs| - s
  {
    if s < |tabs| {
      ViewsFromOrdered(tabs, s + 1);
      var row, rest := Row(tabs[s], s), ViewsFrom(tabs, s + 1);
      var vs := row + rest;
      forall i | 0 <= i < |vs| ensures s <= vs[i].0 {
        if i >= |row| {
          assert vs[i] == rest[i - |row|];
        }
      }
      forall i, j | 0 <= i < j < |vs| ensures W.Before(PosOf(vs[i]), PosOf(vs[j])) {
        if j < |row| {
        } else if i < |row| {
          assert vs[j] == rest[j - |row|];
        } else {
          assert vs[i] == rest[i - |row|] && vs[j] == rest[j - |row|];
        }
      }
    }
  }

  // ---------------------------------------------------------------------------
  // The three session lists

  function FileOf(x: Placed): (nat, nat, Path) {
    (x.0, x.1, x.2.path)
  }

  function CursorOf(x: Placed, caret: W.Pos -> Caret): (nat, nat, nat, nat) {
    var c := caret(PosOf(x));
    (x.0, x.1, c.cursor.0, c.cursor.1)
  }

  function OffsetOf(x: Placed, caret: W.Pos -> Caret): (nat, nat, nat, nat, nat) {
    var c := caret(PosOf(x));
    (x.0, x.1, ToUPos(c.offset.0), ToUPos(c.offset.1), c.subRow)
  }

  function Files(vs: seq<Placed>): (r: seq<(nat, nat, Path)>)
    ensures |r| == |vs| && forall i :: 0 <= i < |vs| ==> r[i] == FileOf(vs[i])
  {
    seq(|vs|, i requires 0 <= i < |vs| => FileOf(vs[i]))
  }

  function Cursors(vs: seq<Placed>, caret: W.Pos -> Caret): (r: seq<(nat, nat, nat, nat)>)
    ensures |r| == |vs| && forall i :: 0 <= i < |vs| ==> r[i] == CursorOf(vs[i], caret)
  {
    seq(|vs|, i requires 0 <= i < |vs| => CursorOf(vs[i], caret))
  }

  function Offsets(vs: seq<Placed>, caret: W.Pos -> Caret): (r: seq<(nat, nat, nat, nat, nat)>)
    ensures |r| == |vs| && forall i :: 0 <= i < |vs| ==> r[i] == OffsetOf(vs[i], caret)
  {
    seq(|vs|, i requires 0 <= i < |vs| => OffsetOf(vs[i], caret))
  }

  /**
   * The session part recorded for workspace `a`: the selected position (or
   * (0, 0)), the split widths, and one file, cursor and offset entry per view.
   */
  function SessionOf(a: W.Arena, caret: W.Pos -> Caret, widths: seq<nat>): (r: Tabs)
    requires W.Valid(a)
  {
    var vs := Views(a);
    Tabs(widths, Files(vs), Cursors(vs, caret), Offsets(vs, caret), W.SelectedPos(a).GetOr((0, 0)))
  }

  /** `store_file_state` as intended: all three lists are rebuilt. */
  function StoredFileState(c: Settings, a: W.Arena, caret: W.Pos -> Caret, widths: seq<nat>): (r: Settings)
    requires W.Valid(a)
    ensures r.(tabs := c.tabs) == c
  {
    c.(tabs := SessionOf(a, caret, widths))
  }

  /** `store_file_state` as written: `tab_state` is cleared, the cursors and offsets are appended to the old ones. */
  function StoredFileStateAsWritten(c: Settings, a: W.Arena, caret: W.Pos -> Caret, widths: seq<nat>): (r: Settings)
    requires W.Valid(a)
    ensures r.(tabs := c.tabs) == c
  {
    var t := SessionOf(a, caret, widths);
    c.(tabs := t.(tabCursor := c.tabs.tabCursor + t.tabCursor, tabOffset := c.tabs.tabOffset + t.tabOffset))
  }

  function FilePos(f: (nat, nat, Path)): W.Pos {
    (f.0, f.1)
  }

  /** Every entry of `tab_state` is an open view with its path, and the selected position is an open view. */
  lemma SessionFilesOpen(a: W.Arena, caret: W.Pos -> Caret, widths: seq<nat>)
    requires W.Valid(a)
    ensures var ts := SessionOf(a, caret, widths).tabState;
      forall i :: 0 <= i < |ts| ==> W.IsPos(a, FilePos(ts[i])) && ts[i].2 == W.At(a, FilePos(ts[i])).path
    ensures W.SelectedPos(a).Some? ==> W.IsPos(a, SessionOf(a, caret, widths).tabSelected)
  {
    var vs := Views(a);
    var ts := Files(vs);
    ViewsFromComplete(a.tabs, 0);
    forall i | 0 <= i < |ts| ensures W.IsPos(a, FilePos(ts[i])) && ts[i].2 == W.At(a, FilePos(ts[i])).path {
      assert vs[i] in vs;
    }
  }

  /** Every open view has an entry in `tab_state`. */
  lemma SessionFilesAll(a: W.Arena, caret: W.Pos -> Caret, widths: seq<nat>)
    requires W.Valid(a)
    ensures var ts := SessionOf(a, caret, widths).tabState;
      forall pos :: W.IsPos(a, pos) ==> exists i :: 0 <= i < |ts| && FilePos(ts[i]) == pos
  {
    var vs := Views(a);
    var ts := Files(vs);
    ViewsFromComplete(a.tabs, 0);
    forall pos | W.IsPos(a, pos) ensures exists i :: 0 <= i < |ts| && FilePos(ts[i]) == pos {
      var x: Placed := (pos.0, pos.1, W.At(a, pos));
      assert x in vs;
      var i :| 0 <= i < |vs| && vs[i] == x;
      assert FilePos(ts[i]) == pos;
    }
  }

  /** `tab_state` is in strictly increasing split-then-tab order, so no position is recorded twice. */
  lemma SessionFilesOrdered(a: W.Arena, caret: W.Pos -> Caret, widths: seq<nat>)
    requires W.Valid(a)
    ensures var ts := SessionOf(a, caret, widths).tabState;
      forall i, j :: 0 <= i < j < |ts| ==> W.Before(FilePos(ts[i]), FilePos(ts[j]))
  {
    ViewsFromOrdered(a.tabs, 0);
  }

  /** The cursor and offset lists run in lockstep with `tab_state`, each entry holding what the view's widget reports. */
  lemma SessionCarets(a: W.Arena, caret: W.Pos -> Caret, widths: seq<nat>)
    requires W.Valid(a)
    ensures var t := SessionOf(a, caret, widths);
      && |t.tabCursor| == |t.tabState| && |t.tabOffset| == |t.tabState|
      && (forall i :: 0 <= i < |t.tabState| ==>
            var pos := FilePos(t.tabState[i]);
            && t.tabCursor[i] == (pos.0, pos.1, caret(pos).cursor.0, caret(pos).cursor.1)
            && t.tabOffset[i] == (pos.0, pos.1, ToUPos(caret(pos).offset.0), ToUPos(caret(pos).offset.1), caret(pos).subRow))
  {
  }

  /**
   * As written, a cursor and an offset recorded in an earlier session stay
   * in the lists, even for a tab that is no longer open, and the lists no
   * longer run in lockstep with `tab_state`.
   */
  lemma AsWrittenKeepsStale(c: Settings, a: W.Arena, caret: W.Pos -> Caret, widths: seq<nat>)
    requires W.Valid(a) && |c.tabs.tabCursor| > 0 && |c.tabs.tabOffset| > 0
    ensures var t := StoredFileStateAsWritten(c, a, caret, widths).tabs;
      && t.tabCursor[0] == c.tabs.tabCursor[0] && t.tabOffset[0] == c.tabs.tabOffset[0]
      && |t.tabCursor| != |t.tabState| && |t.tabOffset| != |t.tabState|
  {
  }

  /** The widget's text positions, the split and tab counts and the path conditions under which `load` reads a session back. */
  ghost predicate Recordable(a: W.Arena, caret: W.Pos -> Caret, widths: seq<nat>, present: set<Path>) {
    && |a.tabs| <= USizeMax && (forall s :: 0 <= s < |a.tabs| ==> |a.tabs[s]| <= USizeMax)
    && (forall pos :: W.IsPos(a, pos) ==> PlainPath(W.At(a, pos).path) && W.At(a, pos).path in present)
    && (forall pos :: W.IsPos(a, pos) ==>
          caret(pos).cursor.0 <= UPosMax && caret(pos).cursor.1 <= UPosMax && caret(pos).subRow <= UPosMax)
    && (forall k :: 0 <= k < |widths| ==> widths[k] <= C.U16Max)
  }

  /** A recorded session meets everything `load` needs to read it back. */
  lemma SessionRestorable(a: W.Arena, caret: W.Pos -> Caret, widths: seq<nat>, present: set<Path>)
    requires W.Valid(a) && Recordable(a, caret, widths, present)
    ensures Restorable(SessionOf(a, caret, widths), present)
  {
    var t := SessionOf(a, caret, widths);
    SessionFilesOpen(a, caret, widths);
    SessionCarets(a, caret, widths);
    assert forall i :: 0 <= i < |t.tabState| ==> FileOk(t.tabState[i], present);
    assert forall i :: 0 <= i < |t.tabCursor| ==> CursorOk(t.tabCursor[i]);
    assert forall i :: 0 <= i < |t.tabOffset| ==> OffsetOk(t.tabOffset[i]);
    SessionFilesOrdered(a, caret, widths);
  }

  /**
   * The session `store_file_state` records is read back by `load` from the
   * `[editor]` section `store` writes, given that every open file exists and
   * has a plain path, the split and tab counts fit `usize`, the widget
   * reports text positions, and the widths are `u16` values.
   */
  lemma SessionRoundTrip(a: W.Arena, caret: W.Pos -> Caret, widths: seq<nat>, present: set<Path>)
    requires W.Valid(a) && Recordable(a, caret, widths, present)
    ensures ReadSection(SetAll([], EditorEntries(SessionOf(a, caret, widths))), present) == SessionOf(a, caret, widths)
  {
    SessionRestorable(a, caret, widths, present);
    EditorRoundTrip(SessionOf(a, caret, widths), present);
  }

  /**
   * What the end of a session does (`store_file_state`, then `store`) is
   * what the next start reads back: the settings and the recorded session.
   */
  lemma ShutdownRestore(c: Settings, a: W.Arena, caret: W.Pos -> Caret, widths: seq<nat>, present: set<Path>)
    requires W.Valid(a) && Recordable(a, caret, widths, present)
    requires Storable(c.(tabs := NoTabs), present)
    ensures var c2 := StoredFileState(c, a, caret, widths);
      FromIni(Stored(c2), present) == c2.(loadFile := [], globs := C.StoredGlobs(c.globs))
  {
    SessionRestorable(a, caret, widths, present);
    StoreLoad(StoredFileState(c, a, caret, widths), present);
  }

  // ---------------------------------------------------------------------------
  // The loops of `store_file_state` and `store`

  lemma Concat(xs: seq<Placed>, ys: seq<Placed>, caret: W.Pos -> Caret)
    ensures Files(xs + ys) == Files(xs) + Files(ys)
    ensures Cursors(xs + ys, caret) == Cursors(xs, caret) + Cursors(ys, caret)
    ensures Offsets(xs + ys, caret) == Offsets(xs, caret) + Offsets(ys, caret)
  {
  }

  /** The inner loop of `store_file_state`: the entries of the tabs of split `s`. */
  method RecordRow(vs: seq<View>, s: nat, caret: W.Pos -> Caret)
    returns (ts: seq<(nat, nat, Path)>, cs: seq<(nat, nat, nat, nat)>, os: seq<(nat, nat, nat, nat, nat)>)
    ensures ts == Files(Row(vs, s)) && cs == Cursors(Row(vs, s), caret) && os == Offsets(Row(vs, s), caret)
  {
    ts, cs, os := [], [], [];
    for t := 0 to |vs|
      invariant |ts| == t && |cs| == t && |os| == t
      invariant forall i :: 0 <= i < t ==> ts[i] == FileOf((s, i, vs[i]))
      invariant forall i :: 0 <= i < t ==> cs[i] == CursorOf((s, i, vs[i]), caret)
      invariant forall i :: 0 <= i < t ==> os[i] == OffsetOf((s, i, vs[i]), caret)
    {
      var c := caret((s, t));
      ts := ts + [(s, t, vs[t].path)];
      cs := cs + [(s, t, c.cursor.0, c.cursor.1)];
      os := os + [(s, t, ToUPos(c.offset.0), ToUPos(c.offset.1), c.subRow)];
    }
  }

  /** The nested loop of `store_file_state`: one file, cursor and offset entry per view, split by split and tab by tab. */
  method RecordViews(tabs: seq<seq<View>>, caret: W.Pos -> Caret)
    returns (ts: seq<(nat, nat, Path)>, cs: seq<(nat, nat, nat, nat)>, os: seq<(nat, nat, nat, nat, nat)>)
    ensures ts == Files(ViewsFrom(tabs, 0))
    ensures cs == Cursors(ViewsFrom(tabs, 0), caret)
    ensures os == Offsets(ViewsFrom(tabs, 0), caret)
  {
    ts, cs, os := [], [], [];
    ghost var done: seq<Placed> := [];
    var s := 0;
    while s < |tabs|
      invariant s <= |tabs|
      invariant done + ViewsFrom(tabs, s) == ViewsFrom(tabs, 0)
      invariant ts == Files(done) && cs == Cursors(done, caret) && os == Offsets(done, caret)
    {
      var rts, rcs, ros := RecordRow(tabs[s], s, caret);
      ghost var row := Row(tabs[s], s);
      Concat(done, row, caret);
      assert done + ViewsFrom(tabs, s) == (done + row) + ViewsFrom(tabs, s + 1);
      ts, cs, os := ts + rts, cs + rcs, os + ros;
      done := done + row;
      s := s + 1;
    }
  }

  /** The body of `store_file_state`: the selected position, the widths and the three lists. */
  method RecordSession(a: W.Arena, caret: W.Pos -> Caret, widths: seq<nat>) returns (t: Tabs)
    requires W.Valid(a)
    ensures t == SessionOf(a, caret, widths)
  {
    var sel: W.Pos;
    match W.SelectedPos(a) {
      case Some(pos) => sel := pos;
      case None => sel := (0, 0);
    }
    var ts, cs, os := RecordViews(a.tabs, caret);
    t := Tabs(widths, ts, cs, os, sel);
  }

  /** The `file.s.t` loop of `store`. */
  method SetFiles(sec: Section, ts: seq<(nat, nat, Path)>) returns (r: Section)
    ensures r == SetAll(sec, FileEntries(ts))
  {
    r := sec;
    for i := 0 to |ts|
      invariant r == SetAll(sec, FileEntries(ts[..i]))
    {
      assert FileEntries(ts[..i + 1]) == FileEntries(ts[..i]) + [FileEntry(ts[i])];
      SetAllSnoc(sec, FileEntries(ts[..i]), FileEntry(ts[i]));
      r := Set(r, TabKey("file", ts[i].0, ts[i].1), PathText(ts[i].2));
    }
    assert ts[..|ts|] == ts;
  }

  /** The `cursor.s.t` loop of `store`. */
  method SetCursors(sec: Section, cs: seq<(nat, nat, nat, nat)>) returns (r: Section)
    ensures r == SetAll(sec, CursorEntries(cs))
  {
    r := sec;
    for i := 0 to |cs|
      invariant r == SetAll(sec, CursorEntries(cs[..i]))
    {
      assert CursorEntries(cs[..i + 1]) == CursorEntries(cs[..i]) + [CursorEntry(cs[i])];
      SetAllSnoc(sec, CursorEntries(cs[..i]), CursorEntry(cs[i]));
      r := Set(r, TabKey("cursor", cs[i].0, cs[i].1), CursorText(cs[i].2, cs[i].3));
    }
    assert cs[..|cs|] == cs;
  }

  /** The `offset.s.t` loop of `store`. */
  method SetOffsets(sec: Section, os: seq<(nat, nat, nat, nat, nat)>) returns (r: Section)
    ensures r == SetAll(sec, OffsetEntries(os))
  {
    r := sec;
    for i := 0 to |os|
      invariant r == SetAll(sec, OffsetEntries(os[..i]))
    {
      assert OffsetEntries(os[..i + 1]) == OffsetEntries(os[..i]) + [OffsetEntry(os[i])];
      SetAllSnoc(sec, OffsetEntries(os[..i]), OffsetEntry(os[i]));
      r := Set(r, TabKey("offset", os[i].0, os[i].1), OffsetText(os[i].2, os[i].3, os[i].4));
    }
    assert os[..|os|] == os;
  }

  /** One more width: a ',' before it unless it is the first. */
  lemma WidthsTextSnoc(ws: seq<nat>, w: nat)
    ensures WidthsText(ws) == "" <==> ws == []
    ensures WidthsText(ws + [w]) == (if ws == [] then "" else WidthsText(ws) + ",") + NatToString(w)
  {
    assert Numbers(ws + [w]) == Numbers(ws) + [NatToString(w)];
    JoinSnoc(Numbers(ws), NatToString(w), ",");
    if ws != [] {
      NatToStringDigits(ws[0]);
      var ps := Numbers(ws);
      assert |Strings.Join(ps, ",")| >= |ps[0]|;
    }
  }

  /** The `editor_widths` loop of `store`: the widths joined with ','. */
  method WidthsString(ws: seq<nat>) returns (fs: string)
    ensures fs == WidthsText(ws)
  {
    fs := "";
    for i := 0 to |ws|
      invariant fs == WidthsText(ws[..i])
    {
      WidthsTextSnoc(ws[..i], ws[i]);
      assert ws[..i + 1] == ws[..i] + [ws[i]];
      if fs != "" {
        fs := fs + ",";
      }
      fs := fs + NatToString(ws[i]);
    }
    assert ws[..|ws|] == ws;
  }

  /** Runs of `set` one after another, on the right-nested list `store` writes the `[editor]` pairs in. */
  lemma SetAllChain(a: seq<(string, string)>, b: seq<(string, string)>, c: seq<(string, string)>,
                    d: seq<(string, string)>, e: (string, string))
    ensures SetAll([], a + (b + (c + (d + [e])))) == Set(SetAll(SetAll(SetAll(SetAll([], a), b), c), d), e.0, e.1)
  {
    SetAllAppend([], a, b + (c + (d + [e])));
    SetAllAppend(SetAll([], a), b, c + (d + [e]));
    SetAllAppend(SetAll(SetAll([], a), b), c, d + [e]);
    SetAllSnoc(SetAll(SetAll(SetAll([], a), b), c), d, e);
  }

  // ---------------------------------------------------------------------------
  // The object

  /** `MDConfig`, its fields changed in place. */
  class MDConfig {
    var theme: string
    var textWidth: nat
    var font: string
    var loadFile: seq<Path>
    var globs: seq<string>
    var fileSplitAt: nat
    var showCtrl: bool
    var showBreak: bool
    var wrapText: bool
    var showLinenr: bool
    var logLevel: string
    var editSplitAt: seq<nat>
    var tabState: seq<(nat, nat, Path)>
    var tabCursor: seq<(nat, nat, nat, nat)>
    var tabOffset: seq<(nat, nat, nat, nat, nat)>
    var tabSelected: (nat, nat)

    function State(): Settings
      reads this
    {
      Settings(theme, textWidth, font, loadFile, globs, fileSplitAt, showCtrl, showBreak, wrapText, showLinenr,
        logLevel, Tabs(editSplitAt, tabState, tabCursor, tabOffset, tabSelected))
    }

    /** `MDConfig::default`. */
    constructor ()
      ensures State() == Default
    {
      theme, textWidth, font, loadFile, globs := "Imperial", C.DefaultTextWidth, "", [], ["*.md"];
      fileSplitAt, showCtrl, showBreak, wrapText, showLinenr := C.DefaultFileSplitAt, false, false, false, true;
      logLevel := "debug";
      editSplitAt, tabState, tabCursor, tabOffset, tabSelected := [], [], [], [], (0, 0);
    }

    constructor Of(c: Settings)
      ensures State() == c
    {
      theme, textWidth, font, loadFile, globs := c.theme, c.textWidth, c.font, c.loadFile, c.globs;
      fileSplitAt, showCtrl, showBreak, wrapText, showLinenr := c.fileSplitAt, c.showCtrl, c.showBreak, c.wrapText, c.showLinenr;
      logLevel := c.logLevel;
      editSplitAt, tabState, tabCursor, tabOffset, tabSelected :=
        c.tabs.editSplitAt, c.tabs.tabState, c.tabs.tabCursor, c.tabs.tabOffset, c.tabs.tabSelected;
    }

    /**
     * `MDConfig::load`: the defaults without a file, the error of a file
     * that cannot be read or parsed, else the settings it holds, the
     * `[editor]` section read entry by entry.
     */
    static method Load(file: Option<Result<IniFile>>, present: set<Path>) returns (r: Result<MDConfig>)
      ensures r.Ok? <==> Cfg.Load(file, present).Ok?
      ensures r.Err? ==> r.error == Cfg.Load(file, present).error
      ensures r.Ok? ==> fresh(r.value) && r.value.State() == Cfg.Load(file, present).value
    {
      if file.None? {
        var m := new MDConfig();
        r := Ok(m);
      } else if file.value.Err? {
        r := Err(file.value.error);
      } else {
        var ini := file.value.value;
        var tabs := NoTabs;
        if "editor" in ini.sections {
          tabs := LoadSection(ini.sections["editor"], present);
        }
        var m := new MDConfig.Of(FromIni(ini, present).(tabs := tabs));
        r := Ok(m);
      }
    }

    /** `store_file_state`, with all three session lists rebuilt. */
    method StoreFileState(a: W.Arena, caret: W.Pos -> Caret, widths: seq<nat>)
      requires W.Valid(a)
      modifies this
      ensures State() == StoredFileState(old(State()), a, caret, widths)
    {
      var t := RecordSession(a, caret, widths);
      tabSelected, editSplitAt, tabState, tabCursor, tabOffset :=
        t.tabSelected, t.editSplitAt, t.tabState, t.tabCursor, t.tabOffset;
    }

    /** `store`: the INI document written, key by key, or the error without a configuration directory. */
    method Store(hasConfigDir: bool) returns (r: Result<IniFile>)
      ensures r == Cfg.Store(State(), hasConfigDir)
    {
      if !hasConfigDir {
        return Err(ConfigError("Can't save cfg."));
      }
      var general := SetAll([], GeneralEntries(State()));
      var ui := Set([], "file_split_at", NatToString(fileSplitAt));
      assert ui == SetAll([], UiEntries(State()));
      var sel := ("selected", SelText(tabSelected.0, tabSelected.1));
      var editor := Set([], sel.0, sel.1);
      assert editor == SetAll([], [sel]);
      editor := SetFiles(editor, tabState);
      editor := SetCursors(editor, tabCursor);
      editor := SetOffsets(editor, tabOffset);
      var fs := WidthsString(editSplitAt);
      editor := Set(editor, "editor_widths", fs);
      SetAllChain([sel], FileEntries(tabState), CursorEntries(tabCursor), OffsetEntries(tabOffset), ("editor_widths", fs));
      r := Ok(IniFile(general, map["ui" := ui, "editor" := editor]));
    }
  }
}
