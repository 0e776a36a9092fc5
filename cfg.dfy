/**
 * `MDConfig` of the newer `cfg/mod.rs`: the general settings, the `[ui]`
 * section, and the `[editor]` section, which records the open files, their
 * cursors and scroll offsets, the selected tab and the split widths, so
 * that the next start can restore the workspace.
 */
module Cfg {
  import opened Wrappers
  import opened Strings
  import opened Ini
  import opened Paths
  import opened Document
  import W = Workspace
  import C = Config

  const USizeMax: nat := 0xFFFF_FFFF_FFFF_FFFF
  const UPosMax: nat := 0xFFFF_FFFF

  /** The session part: `edit_split_at`, `tab_state`, `tab_cursor`, `tab_offset`, `tab_selected`. */
  datatype Tabs = Tabs(
    editSplitAt: seq<nat>,
    tabState: seq<(nat, nat, Path)>,
    tabCursor: seq<(nat, nat, nat, nat)>,
    tabOffset: seq<(nat, nat, nat, nat, nat)>,
    tabSelected: (nat, nat))

  const NoTabs := Tabs([], [], [], [], (0, 0))

  /** The fields of `MDConfig` (the locale and the floating-point font size are left out). */
  datatype Settings = Settings(
    theme: string,
    textWidth: nat,
    font: string,
    loadFile: seq<Path>,
    globs: seq<string>,
    fileSplitAt: nat,
    showCtrl: bool,
    showBreak: bool,
    wrapText: bool,
    showLinenr: bool,
    logLevel: string,
    tabs: Tabs)

  /** `MDConfig::default`. */
  const Default := Settings("Imperial", C.DefaultTextWidth, "", [], ["*.md"], C.DefaultFileSplitAt,
    false, false, false, true, "debug", NoTabs)

  // ---------------------------------------------------------------------------
  // Paths as text

  /** `to_string_lossy`: components joined with '/', with a leading '/' when absolute. */
  function PathText(p: Path): string {
    (if p.absolute then "/" else "") + Strings.Join(p.comps, "/")
  }

  /** `PathBuf::from`: absolute when it starts with '/', the non-empty pieces between '/' as components. */
  function PathFrom(v: string): (r: Path)
    ensures forall k :: 0 <= k < |r.comps| ==> r.comps[k] != []
  {
    Path(|v| > 0 && v[0] == '/', NonEmpty(Split(v, {'/'})))
  }

  /** A path whose components are non-empty and hold no '/'. */
  predicate PlainPath(p: Path) {
    forall k :: 0 <= k < |p.comps| ==> p.comps[k] != [] && NoneOf(p.comps[k], {'/'})
  }

  lemma {:induction false} NonEmptyKeeps(xs: seq<string>)
    requires forall k :: 0 <= k < |xs| ==> xs[k] != []
    ensures NonEmpty(xs) == xs
    decreases |xs|
  {
    if |xs| > 0 {
      NonEmptyKeeps(xs[1..]);
    }
  }

  /** A plain path is read back from its text. */
  lemma PathRoundTrip(p: Path)
    requires PlainPath(p)
    ensures PathFrom(PathText(p)) == p
  {
    var j := Strings.Join(p.comps, "/");
    var pieces := Split(j, {'/'});
    if |p.comps| == 0 {
      SplitNone("", {'/'});
      assert pieces == [""];
    } else {
      SplitJoin(p.comps, '/', {'/'});
      assert pieces == p.comps;
      if |p.comps| > 1 {
        assert j == p.comps[0] + "/" + Strings.Join(p.comps[1..], "/");
      }
      assert j[0] == p.comps[0][0];
    }
    NonEmptyKeeps(p.comps);
    if p.absolute {
      var none: string := [];
      assert PathText(p) == none + ['/'] + j;
      SplitCons(none, '/', j, {'/'});
      assert NonEmpty([none] + pieces) == NonEmpty(pieces);
    } else {
      assert PathText(p) == j;
    }
  }

  // ---------------------------------------------------------------------------
  // The value parsers and the texts `store` writes

  /** `split_tab`: the second and third '.'-pieces of the key as `usize`. */
  function SplitTab(k: string): (r: Option<(nat, nat)>)
    ensures r.Some? ==> r.value.0 <= USizeMax && r.value.1 <= USizeMax
  {
    var ps := Split(k, {'.'});
    if |ps| < 2 then None
    else
      match ParseUint(ps[1], USizeMax)
      case None => None
      case Some(s) =>
        if |ps| < 3 then None
        else
          match ParseUint(ps[2], USizeMax)
          case None => None
          case Some(t) => Some((s, t))
  }

  /** The key `store` writes for the tab at (s, t): `"{prefix}.{s}.{t}"`. */
  function TabKey(prefix: string, s: nat, t: nat): string {
    prefix + "." + NatToString(s) + "." + NatToString(t)
  }

  /** `split_cursor`: "x,y", each part trimmed and parsed as a text position. */
  function SplitCursor(v: string): (r: Option<(nat, nat)>)
    ensures r.Some? ==> r.value.0 <= UPosMax && r.value.1 <= UPosMax
  {
    var ps := Split(v, {','});
    if |ps| < 1 then None
    else
      match ParseUint(Trim(ps[0]), UPosMax)
      case None => None
      case Some(x) =>
        if |ps| < 2 then None
        else
          match ParseUint(Trim(ps[1]), UPosMax)
          case None => None
          case Some(y) => Some((x, y))
  }

  function CursorText(x: nat, y: nat): string {
    NatToString(x) + "," + NatToString(y)
  }

  /** `split_offset`: "x,y,z", each part trimmed and parsed as a text position. */
  function SplitOffset(v: string): (r: Option<(nat, nat, nat)>)
    ensures r.Some? ==> r.value.0 <= UPosMax && r.value.1 <= UPosMax && r.value.2 <= UPosMax
  {
    var ps := Split(v, {','});
    if |ps| < 1 then None
    else
      match ParseUint(Trim(ps[0]), UPosMax)
      case None => None
      case Some(x) =>
        if |ps| < 2 then None
        else
          match ParseUint(Trim(ps[1]), UPosMax)
          case None => None
          case Some(y) =>
            if |ps| < 3 then None
            else
              match ParseUint(Trim(ps[2]), UPosMax)
              case None => None
              case Some(z) => Some((x, y, z))
  }

  function OffsetText(x: nat, y: nat, z: nat): string {
    NatToString(x) + "," + NatToString(y) + "," + NatToString(z)
  }

  /** The `selected` value: "s.t", parts not trimmed. */
  function ParseSelected(v: string): (r: Option<(nat, nat)>)
    ensures r.Some? ==> r.value.0 <= USizeMax && r.value.1 <= USizeMax
  {
    var ps := Split(v, {'.'});
    if |ps| < 1 then None
    else
      match ParseUint(ps[0], USizeMax)
      case None => None
      case Some(s) =>
        if |ps| < 2 then None
        else
          match ParseUint(ps[1], USizeMax)
          case None => None
          case Some(t) => Some((s, t))
  }

  function SelText(s: nat, t: nat): string {
    NatToString(s) + "." + NatToString(t)
  }

  /** The widths read from the ','-pieces of `editor_widths`, up to the first that is not a `u16`. */
  function Widths(ps: seq<string>): (r: seq<nat>)
    ensures |r| <= |ps| && forall k :: 0 <= k < |r| ==> r[k] <= C.U16Max
  {
    if |ps| == 0 then []
    else
      match ParseUint(Trim(ps[0]), C.U16Max)
      case None => []
      case Some(w) => [w] + Widths(ps[1..])
  }

  function Numbers(ws: seq<nat>): (r: seq<string>)
    ensures |r| == |ws| && forall k :: 0 <= k < |ws| ==> r[k] == NatToString(ws[k])
  {
    seq(|ws|, k requires 0 <= k < |ws| => NatToString(ws[k]))
  }

  /** `editor_widths` as written: the numbers joined with ','. */
  function WidthsText(ws: seq<nat>): string {
    Strings.Join(Numbers(ws), ",")
  }

  /** Three pieces joined with one separator split back into the three. */
  lemma SplitThree(a: string, b: string, c: string, x: char)
    requires NoneOf(a, {x}) && NoneOf(b, {x}) && NoneOf(c, {x})
    ensures Split(a + [x] + b + [x] + c, {x}) == [a, b, c]
  {
    var parts := [a, b, c];
    assert parts[1..] == [b, c] && parts[1..][1..] == [c];
    assert Strings.Join([c], [x]) == c;
    assert Strings.Join([b, c], [x]) == b + [x] + c;
    assert Strings.Join(parts, [x]) == a + [x] + (b + [x] + c);
    assert a + [x] + b + [x] + c == a + [x] + (b + [x] + c);
    SplitJoin(parts, x, {x});
  }

  lemma SplitTwo(a: string, b: string, x: char)
    requires NoneOf(a, {x}) && NoneOf(b, {x})
    ensures Split(a + [x] + b, {x}) == [a, b]
  {
    var parts := [a, b];
    assert parts[1..] == [b];
    assert Strings.Join(parts, [x]) == a + [x] + b;
    SplitJoin(parts, x, {x});
  }

  /** A printed number holds none of '.', ',', '/', is its own trim, and parses back. */
  lemma Plain(n: nat)
    ensures NoneOf(NatToString(n), {'.'}) && NoneOf(NatToString(n), {','}) && NoneOf(NatToString(n), {'/'})
    ensures Trim(NatToString(n)) == NatToString(n)
  {
    PrintedIsPlain(n, {'.'});
    PrintedIsPlain(n, {','});
    PrintedIsPlain(n, {'/'});
  }

  /** `split_tab` on a key of three '.'-free pieces. */
  lemma TabFields(prefix: string, a: string, b: string, s: nat, t: nat)
    requires NoneOf(prefix, {'.'}) && NoneOf(a, {'.'}) && NoneOf(b, {'.'})
    requires ParseUint(a, USizeMax) == Some(s) && ParseUint(b, USizeMax) == Some(t)
    ensures SplitTab(prefix + ['.'] + a + ['.'] + b) == Some((s, t))
  {
    SplitThree(prefix, a, b, '.');
  }

  lemma CursorFields(a: string, b: string, x: nat, y: nat)
    requires NoneOf(a, {','}) && NoneOf(b, {','})
    requires ParseUint(Trim(a), UPosMax) == Some(x) && ParseUint(Trim(b), UPosMax) == Some(y)
    ensures SplitCursor(a + [','] + b) == Some((x, y))
  {
    SplitTwo(a, b, ',');
  }

  lemma OffsetFields(a: string, b: string, c: string, x: nat, y: nat, z: nat)
    requires NoneOf(a, {','}) && NoneOf(b, {','}) && NoneOf(c, {','})
    requires ParseUint(Trim(a), UPosMax) == Some(x) && ParseUint(Trim(b), UPosMax) == Some(y)
    requires ParseUint(Trim(c), UPosMax) == Some(z)
    ensures SplitOffset(a + [','] + b + [','] + c) == Some((x, y, z))
  {
    SplitThree(a, b, c, ',');
  }

  lemma SelectedFields(a: string, b: string, s: nat, t: nat)
    requires NoneOf(a, {'.'}) && NoneOf(b, {'.'})
    requires ParseUint(a, USizeMax) == Some(s) && ParseUint(b, USizeMax) == Some(t)
    ensures ParseSelected(a + ['.'] + b) == Some((s, t))
  {
    SplitTwo(a, b, '.');
  }

  /** `split_tab` reads back the tab of every key `store` writes. */
  lemma TabKeyRoundTrip(prefix: string, s: nat, t: nat)
    requires NoneOf(prefix, {'.'}) && s <= USizeMax && t <= USizeMax
    ensures SplitTab(TabKey(prefix, s, t)) == Some((s, t))
  {
    Plain(s); Plain(t);
    ParsePrint(s, USizeMax);
    ParsePrint(t, USizeMax);
    assert TabKey(prefix, s, t) == prefix + ['.'] + NatToString(s) + ['.'] + NatToString(t);
    TabFields(prefix, NatToString(s), NatToString(t), s, t);
  }

  /** Two tabs get the same key only when they are the same tab. */
  lemma TabKeyInjective(prefix: string, s1: nat, t1: nat, s2: nat, t2: nat)
    requires NoneOf(prefix, {'.'}) && s1 <= USizeMax && t1 <= USizeMax && s2 <= USizeMax && t2 <= USizeMax
    ensures TabKey(prefix, s1, t1) == TabKey(prefix, s2, t2) <==> (s1, t1) == (s2, t2)
  {
    TabKeyRoundTrip(prefix, s1, t1);
    TabKeyRoundTrip(prefix, s2, t2);
  }

  lemma CursorRoundTrip(x: nat, y: nat)
    requires x <= UPosMax && y <= UPosMax
    ensures SplitCursor(CursorText(x, y)) == Some((x, y))
  {
    Plain(x); Plain(y);
    ParsePrint(x, UPosMax);
    ParsePrint(y, UPosMax);
    assert CursorText(x, y) == NatToString(x) + [','] + NatToString(y);
    CursorFields(NatToString(x), NatToString(y), x, y);
  }

  lemma OffsetRoundTrip(x: nat, y: nat, z: nat)
    requires x <= UPosMax && y <= UPosMax && z <= UPosMax
    ensures SplitOffset(OffsetText(x, y, z)) == Some((x, y, z))
  {
    Plain(x); Plain(y); Plain(z);
    ParsePrint(x, UPosMax);
    ParsePrint(y, UPosMax);
    ParsePrint(z, UPosMax);
    assert OffsetText(x, y, z) == NatToString(x) + [','] + NatToString(y) + [','] + NatToString(z);
    OffsetFields(NatToString(x), NatToString(y), NatToString(z), x, y, z);
  }

  lemma SelectedRoundTrip(s: nat, t: nat)
    requires s <= USizeMax && t <= USizeMax
    ensures ParseSelected(SelText(s, t)) == Some((s, t))
  {
    Plain(s); Plain(t);
    ParsePrint(s, USizeMax);
    ParsePrint(t, USizeMax);
    assert SelText(s, t) == NatToString(s) + ['.'] + NatToString(t);
    SelectedFields(NatToString(s), NatToString(t), s, t);
  }

  lemma {:induction false} WidthsOfNumbers(ws: seq<nat>)
    requires forall k :: 0 <= k < |ws| ==> ws[k] <= C.U16Max
    ensures Widths(Numbers(ws)) == ws
    decreases |ws|
  {
    if |ws| > 0 {
      Plain(ws[0]);
      ParsePrint(ws[0], C.U16Max);
      assert Numbers(ws)[1..] == Numbers(ws[1..]);
      WidthsOfNumbers(ws[1..]);
    }
  }

  /** The split widths are read back exactly; an empty list writes "" and reads back empty. */
  lemma WidthsRoundTrip(ws: seq<nat>)
    requires forall k :: 0 <= k < |ws| ==> ws[k] <= C.U16Max
    ensures Widths(Split(WidthsText(ws), {','})) == ws
  {
    if |ws| == 0 {
      SplitNone("", {','});
      assert ParseUint(Trim(""), C.U16Max) == None;
    } else {
      forall k | 0 <= k < |ws| ensures NoneOf(Numbers(ws)[k], {','}) {
        Plain(ws[k]);
      }
      SplitJoin(Numbers(ws), ',', {','});
      WidthsOfNumbers(ws);
    }
  }

  // ---------------------------------------------------------------------------
  // Reading the [editor] section

  /**
   * One entry of the loop over the section: `file.`, `cursor.` and
   * `offset.` entries are parsed and pushed, a malformed one (or a file
   * that does not exist) stops the loop, any other key is skipped.
   */
  function ScanEntry(t: Tabs, kv: (string, string), present: set<Path>): (r: Option<Tabs>)
    ensures r.Some? ==> r.value.editSplitAt == t.editSplitAt && r.value.tabSelected == t.tabSelected
    // a `file.` entry stops on a bad key or a missing file, else pushes one file and nothing else
    ensures StartsWith(kv.0, "file.") ==>
      (r.None? <==> SplitTab(kv.0).None? || PathFrom(kv.1) !in present)
    ensures StartsWith(kv.0, "file.") && r.Some? ==>
      && r.value == t.(tabState := r.value.tabState)
      && |r.value.tabState| == |t.tabState| + 1 && r.value.tabState[..|t.tabState|] == t.tabState
      && r.value.tabState[|t.tabState|].2 == PathFrom(kv.1)
    // a `cursor.` entry stops on a bad key or value, else pushes one cursor and nothing else
    ensures !StartsWith(kv.0, "file.") && StartsWith(kv.0, "cursor.") ==>
      (r.None? <==> SplitTab(kv.0).None? || SplitCursor(kv.1).None?)
    ensures !StartsWith(kv.0, "file.") && StartsWith(kv.0, "cursor.") && r.Some? ==>
      && r.value == t.(tabCursor := r.value.tabCursor)
      && |r.value.tabCursor| == |t.tabCursor| + 1 && r.value.tabCursor[..|t.tabCursor|] == t.tabCursor
    // an `offset.` entry likewise pushes one offset
    ensures !StartsWith(kv.0, "file.") && !StartsWith(kv.0, "cursor.") && StartsWith(kv.0, "offset.") ==>
      (r.None? <==> SplitTab(kv.0).None? || SplitOffset(kv.1).None?)
    ensures !StartsWith(kv.0, "file.") && !StartsWith(kv.0, "cursor.") && StartsWith(kv.0, "offset.") && r.Some? ==>
      && r.value == t.(tabOffset := r.value.tabOffset)
      && |r.value.tabOffset| == |t.tabOffset| + 1 && r.value.tabOffset[..|t.tabOffset|] == t.tabOffset
    // any other key is skipped
    ensures !StartsWith(kv.0, "file.") && !StartsWith(kv.0, "cursor.") && !StartsWith(kv.0, "offset.") ==>
      r == Some(t)
  {
    var (k, v) := kv;
    if StartsWith(k, "file.") then
      match SplitTab(k)
      case None => None
      case Some(st) =>
        if PathFrom(v) !in present then None
        else Some(t.(tabState := t.tabState + [(st.0, st.1, PathFrom(v))]))
    else if StartsWith(k, "cursor.") then
      match SplitTab(k)
      case None => None
      case Some(st) =>
        match SplitCursor(v)
        case None => None
        case Some(c) => Some(t.(tabCursor := t.tabCursor + [(st.0, st.1, c.0, c.1)]))
    else if StartsWith(k, "offset.") then
      match SplitTab(k)
      case None => None
      case Some(st) =>
        match SplitOffset(v)
        case None => None
        case Some(o) => Some(t.(tabOffset := t.tabOffset + [(st.0, st.1, o.0, o.1, o.2)]))
    else Some(t)
  }

  /** The loop over the section's entries: what was collected, and whether it stopped early. */
  function Scan(sec: Section, present: set<Path>, t: Tabs): (r: (Tabs, bool))
    decreases |sec|
  {
    if |sec| == 0 then (t, false)
    else
      match ScanEntry(t, sec[0], present)
      case None => (t, true)
      case Some(t1) => Scan(sec[1..], present, t1)
  }

  /**
   * The `[editor]` section: the entries, then `selected`, then
   * `editor_widths`; a stop anywhere skips what follows but keeps what was
   * collected before it.
   */
  function ReadSection(sec: Section, present: set<Path>): (r: Tabs)
  {
    var (t, stopped) := Scan(sec, present, NoTabs);
    if stopped then t
    else
      var sel := Get(sec, "selected");
      if sel.Some? && ParseSelected(sel.value).None? then t
      else
        var t2 := if sel.Some? then t.(tabSelected := ParseSelected(sel.value).value) else t;
        match Get(sec, "editor_widths")
        case None => t2
        case Some(w) => t2.(editSplitAt := t2.editSplitAt + Widths(Split(w, {','})))
  }

  /** The loop on two parts: the second part is read only when the first did not stop. */
  lemma {:induction false} ScanAppend(a: Section, b: Section, present: set<Path>, t: Tabs)
    ensures Scan(a + b, present, t) ==
      if Scan(a, present, t).1 then Scan(a, present, t) else Scan(b, present, Scan(a, present, t).0)
    decreases |a|
  {
    if |a| > 0 {
      assert (a + b)[0] == a[0] && (a + b)[1..] == a[1..] + b;
      match ScanEntry(t, a[0], present) {
        case None =>
        case Some(t1) => ScanAppend(a[1..], b, present, t1);
      }
    } else {
      assert a + b == b;
    }
  }

  /**
   * The first malformed entry ends the section: the entries collected before
   * it are kept, nothing after it is read, and `selected` and
   * `editor_widths` keep their defaults.
   */
  lemma MalformedStops(good: Section, bad: (string, string), rest: Section, present: set<Path>)
    requires !Scan(good, present, NoTabs).1
    requires ScanEntry(Scan(good, present, NoTabs).0, bad, present).None?
    ensures ReadSection(good + [bad] + rest, present) == Scan(good, present, NoTabs).0
    ensures ReadSection(good + [bad] + rest, present).tabSelected == (0, 0)
    ensures ReadSection(good + [bad] + rest, present).editSplitAt == []
  {
    ScanAppend(good, [bad] + rest, present, NoTabs);
    assert good + [bad] + rest == good + ([bad] + rest);
    ScanKeeps(good, present, NoTabs);
  }

  /** The loop never touches `selected` or the widths. */
  lemma {:induction false} ScanKeeps(sec: Section, present: set<Path>, t: Tabs)
    ensures Scan(sec, present, t).0.tabSelected == t.tabSelected
    ensures Scan(sec, present, t).0.editSplitAt == t.editSplitAt
    decreases |sec|
  {
    if |sec| > 0 {
      match ScanEntry(t, sec[0], present) {
        case None =>
        case Some(t1) => ScanKeeps(sec[1..], present, t1);
      }
    }
  }

  /** `ini.section(Some("editor"))`, read when present. */
  function ReadEditor(ini: IniFile, present: set<Path>): (r: Tabs)
    ensures "editor" !in ini.sections ==> r == NoTabs
  {
    match Named(ini, "editor")
    case None => NoTabs
    case Some(sec) => ReadSection(sec, present)
  }

  /** The part of `load` that reads the `[editor]` section. */
  method LoadSection(sec: Section, present: set<Path>) returns (t: Tabs)
    ensures t == ReadSection(sec, present)
  {
    var stopped;
    t, stopped := LoadEntries(sec, present);
    if stopped {
      return;
    }
    var sel := Get(sec, "selected");
    if sel.Some? {
      var p := ParseSelected(sel.value);
      if p.None? {
        return;
      }
      t := t.(tabSelected := p.value);
    }
    var widths := Get(sec, "editor_widths");
    if widths.Some? {
      var ws := LoadWidths(Split(widths.value, {','}));
      t := t.(editSplitAt := t.editSplitAt + ws);
    }
  }

  /** The loop over the section's entries, with its early exits. */
  method LoadEntries(sec: Section, present: set<Path>) returns (t: Tabs, stopped: bool)
    ensures (t, stopped) == Scan(sec, present, NoTabs)
  {
    t := NoTabs;
    var i := 0;
    while i < |sec|
      invariant i <= |sec|
      invariant Scan(sec[i..], present, t) == Scan(sec, present, NoTabs)
    {
      assert sec[i..][0] == sec[i] && sec[i..][1..] == sec[i + 1..];
      var (k, v) := sec[i];
      if StartsWith(k, "file.") {
        var st := SplitTab(k);
        if st.None? {
          return t, true;
        }
        var path := PathFrom(v);
        if path !in present {
          return t, true;
        }
        t := t.(tabState := t.tabState + [(st.value.0, st.value.1, path)]);
      } else if StartsWith(k, "cursor.") {
        var st := SplitTab(k);
        if st.None? {
          return t, true;
        }
        var c := SplitCursor(v);
        if c.None? {
          return t, true;
        }
        t := t.(tabCursor := t.tabCursor + [(st.value.0, st.value.1, c.value.0, c.value.1)]);
      } else if StartsWith(k, "offset.") {
        var st := SplitTab(k);
        if st.None? {
          return t, true;
        }
        var o := SplitOffset(v);
        if o.None? {
          return t, true;
        }
        t := t.(tabOffset := t.tabOffset + [(st.value.0, st.value.1, o.value.0, o.value.1, o.value.2)]);
      }
      i := i + 1;
    }
    stopped := false;
  }

  /** The loop over the pieces of `editor_widths`, up to the first that is not a number. */
  method LoadWidths(ps: seq<string>) returns (ws: seq<nat>)
    ensures ws == Widths(ps)
  {
    ws := [];
    var j := 0;
    while j < |ps|
      invariant j <= |ps|
      invariant ws + Widths(ps[j..]) == Widths(ps)
    {
      var w := ParseUint(Trim(ps[j]), C.U16Max);
      WidthsStep(ps, j, ws);
      if w.None? {
        break;
      }
      ws := ws + [w.value];
      j := j + 1;
    }
    WidthsDone(ps, j, ws);
  }

  /** One piece more: a number extends the widths read, anything else ends them. */
  lemma WidthsStep(ps: seq<string>, j: nat, ws: seq<nat>)
    requires j < |ps| && ws + Widths(ps[j..]) == Widths(ps)
    ensures var w := ParseUint(Trim(ps[j]), C.U16Max);
      && (w.None? ==> ws == Widths(ps))
      && (w.Some? ==> (ws + [w.value]) + Widths(ps[j + 1..]) == Widths(ps))
  {
    assert ps[j..][0] == ps[j] && ps[j..][1..] == ps[j + 1..];
    var w := ParseUint(Trim(ps[j]), C.U16Max);
    if w.Some? {
      assert Widths(ps[j..]) == [w.value] + Widths(ps[j + 1..]);
      assert (ws + [w.value]) + Widths(ps[j + 1..]) == ws + ([w.value] + Widths(ps[j + 1..]));
    } else {
      assert ws + [] == ws;
    }
  }

  /** When the loop ends, either every piece was read or it broke off with everything read. */
  lemma WidthsDone(ps: seq<string>, j: nat, ws: seq<nat>)
    requires j <= |ps|
    requires ws + Widths(ps[j..]) == Widths(ps)
    requires j < |ps| ==> ws == Widths(ps)
    ensures ws == Widths(ps)
  {
    if j == |ps| {
      assert ps[j..] == [];
      assert ws + [] == ws;
    }
  }

  // ---------------------------------------------------------------------------
  // Writing the [editor] section

  /** The `file.s.t` pair of one open file. */
  function FileEntry(f: (nat, nat, Path)): (string, string) {
    (TabKey("file", f.0, f.1), PathText(f.2))
  }

  /** The `cursor.s.t` pair of one view. */
  function CursorEntry(c: (nat, nat, nat, nat)): (string, string) {
    (TabKey("cursor", c.0, c.1), CursorText(c.2, c.3))
  }

  /** The `offset.s.t` pair of one view. */
  function OffsetEntry(o: (nat, nat, nat, nat, nat)): (string, string) {
    (TabKey("offset", o.0, o.1), OffsetText(o.2, o.3, o.4))
  }

  function FileEntries(ts: seq<(nat, nat, Path)>): (r: seq<(string, string)>)
    ensures |r| == |ts| && forall i :: 0 <= i < |ts| ==> r[i] == FileEntry(ts[i])
  {
    seq(|ts|, i requires 0 <= i < |ts| => FileEntry(ts[i]))
  }

  function CursorEntries(cs: seq<(nat, nat, nat, nat)>): (r: seq<(string, string)>)
    ensures |r| == |cs| && forall i :: 0 <= i < |cs| ==> r[i] == CursorEntry(cs[i])
  {
    seq(|cs|, i requires 0 <= i < |cs| => CursorEntry(cs[i]))
  }

  function OffsetEntries(os: seq<(nat, nat, nat, nat, nat)>): (r: seq<(string, string)>)
    ensures |r| == |os| && forall i :: 0 <= i < |os| ==> r[i] == OffsetEntry(os[i])
  {
    seq(|os|, i requires 0 <= i < |os| => OffsetEntry(os[i]))
  }

  /** A file entry `load` reads back: a tab position that fits `usize`, a plain path that exists. */
  predicate FileOk(f: (nat, nat, Path), present: set<Path>) {
    f.0 <= USizeMax && f.1 <= USizeMax && PlainPath(f.2) && f.2 in present
  }

  predicate CursorOk(c: (nat, nat, nat, nat)) {
    c.0 <= USizeMax && c.1 <= USizeMax && c.2 <= UPosMax && c.3 <= UPosMax
  }

  predicate OffsetOk(o: (nat, nat, nat, nat, nat)) {
    o.0 <= USizeMax && o.1 <= USizeMax && o.2 <= UPosMax && o.3 <= UPosMax && o.4 <= UPosMax
  }

  /** The `[editor]` pairs in the order `store` sets them. */
  function EditorEntries(t: Tabs): seq<(string, string)> {
    [("selected", SelText(t.tabSelected.0, t.tabSelected.1))]
      + (FileEntries(t.tabState) + (CursorEntries(t.tabCursor) + (OffsetEntries(t.tabOffset)
      + [("editor_widths", WidthsText(t.editSplitAt))])))
  }

  /** The session values `store` writes and `load` reads back. */
  predicate Restorable(t: Tabs, present: set<Path>) {
    && t.tabSelected.0 <= USizeMax && t.tabSelected.1 <= USizeMax
    && (forall k :: 0 <= k < |t.editSplitAt| ==> t.editSplitAt[k] <= C.U16Max)
    && (forall i :: 0 <= i < |t.tabState| ==> FileOk(t.tabState[i], present))
    && (forall i :: 0 <= i < |t.tabCursor| ==> CursorOk(t.tabCursor[i]))
    && (forall i :: 0 <= i < |t.tabOffset| ==> OffsetOk(t.tabOffset[i]))
    && (forall i, j :: 0 <= i < j < |t.tabState| ==>
          (t.tabState[i].0, t.tabState[i].1) != (t.tabState[j].0, t.tabState[j].1))
    && (forall i, j :: 0 <= i < j < |t.tabCursor| ==>
          (t.tabCursor[i].0, t.tabCursor[i].1) != (t.tabCursor[j].0, t.tabCursor[j].1))
    && (forall i, j :: 0 <= i < j < |t.tabOffset| ==>
          (t.tabOffset[i].0, t.tabOffset[i].1) != (t.tabOffset[j].0, t.tabOffset[j].1))
  }

  /** Every key of `kvs` is non-empty and starts with a character of `hs`. */
  predicate Heads(kvs: seq<(string, string)>, hs: set<char>) {
    forall i :: 0 <= i < |kvs| ==> |kvs[i].0| > 0 && kvs[i].0[0] in hs
  }

  lemma DistinctConcat(a: seq<(string, string)>, b: seq<(string, string)>, ha: set<char>, hb: set<char>)
    requires DistinctKeys(a) && DistinctKeys(b) && Heads(a, ha) && Heads(b, hb) && ha !! hb
    ensures DistinctKeys(a + b) && Heads(a + b, ha + hb)
  {
    forall i, j | 0 <= i < j < |a + b| ensures (a + b)[i].0 != (a + b)[j].0 {
      if j < |a| {
        assert (a + b)[i] == a[i] && (a + b)[j] == a[j];
      } else if i >= |a| {
        assert (a + b)[i] == b[i - |a|] && (a + b)[j] == b[j - |a|];
      } else {
        assert (a + b)[i] == a[i] && (a + b)[j] == b[j - |a|];
        assert a[i].0[0] in ha && b[j - |a|].0[0] in hb;
      }
    }
  }

  lemma TabKeyHead(prefix: string, s: nat, t: nat)
    requires |prefix| > 0
    ensures |TabKey(prefix, s, t)| > 0 && TabKey(prefix, s, t)[0] == prefix[0]
  {
  }

  lemma FileEntriesKeys(ts: seq<(nat, nat, Path)>)
    requires forall i, j :: 0 <= i < j < |ts| ==> (ts[i].0, ts[i].1) != (ts[j].0, ts[j].1)
    requires forall i :: 0 <= i < |ts| ==> ts[i].0 <= USizeMax && ts[i].1 <= USizeMax
    ensures DistinctKeys(FileEntries(ts)) && Heads(FileEntries(ts), {'f'})
  {
    var es := FileEntries(ts);
    forall i, j | 0 <= i < j < |es| ensures es[i].0 != es[j].0 {
      TabKeyInjective("file", ts[i].0, ts[i].1, ts[j].0, ts[j].1);
    }
    forall i | 0 <= i < |es| ensures |es[i].0| > 0 && es[i].0[0] in {'f'} {
      TabKeyHead("file", ts[i].0, ts[i].1);
    }
  }

  lemma CursorEntriesKeys(cs: seq<(nat, nat, nat, nat)>)
    requires forall i, j :: 0 <= i < j < |cs| ==> (cs[i].0, cs[i].1) != (cs[j].0, cs[j].1)
    requires forall i :: 0 <= i < |cs| ==> cs[i].0 <= USizeMax && cs[i].1 <= USizeMax
    ensures DistinctKeys(CursorEntries(cs)) && Heads(CursorEntries(cs), {'c'})
  {
    var es := CursorEntries(cs);
    forall i, j | 0 <= i < j < |es| ensures es[i].0 != es[j].0 {
      TabKeyInjective("cursor", cs[i].0, cs[i].1, cs[j].0, cs[j].1);
    }
    forall i | 0 <= i < |es| ensures |es[i].0| > 0 && es[i].0[0] in {'c'} {
      TabKeyHead("cursor", cs[i].0, cs[i].1);
    }
  }

  lemma OffsetEntriesKeys(os: seq<(nat, nat, nat, nat, nat)>)
    requires forall i, j :: 0 <= i < j < |os| ==> (os[i].0, os[i].1) != (os[j].0, os[j].1)
    requires forall i :: 0 <= i < |os| ==> os[i].0 <= USizeMax && os[i].1 <= USizeMax
    ensures DistinctKeys(OffsetEntries(os)) && Heads(OffsetEntries(os), {'o'})
  {
    var es := OffsetEntries(os);
    forall i, j | 0 <= i < j < |es| ensures es[i].0 != es[j].0 {
      TabKeyInjective("offset", os[i].0, os[i].1, os[j].0, os[j].1);
    }
    forall i | 0 <= i < |es| ensures |es[i].0| > 0 && es[i].0[0] in {'o'} {
      TabKeyHead("offset", os[i].0, os[i].1);
    }
  }

  /** The `[editor]` keys: `selected`, the three lists at distinct positions, `editor_widths`, all distinct. */
  lemma EntriesDistinct(sel: (string, string), ts: seq<(nat, nat, Path)>, cs: seq<(nat, nat, nat, nat)>,
                        os: seq<(nat, nat, nat, nat, nat)>, wi: (string, string))
    requires sel.0 == "selected" && wi.0 == "editor_widths"
    requires forall i, j :: 0 <= i < j < |ts| ==> (ts[i].0, ts[i].1) != (ts[j].0, ts[j].1)
    requires forall i :: 0 <= i < |ts| ==> ts[i].0 <= USizeMax && ts[i].1 <= USizeMax
    requires forall i, j :: 0 <= i < j < |cs| ==> (cs[i].0, cs[i].1) != (cs[j].0, cs[j].1)
    requires forall i :: 0 <= i < |cs| ==> cs[i].0 <= USizeMax && cs[i].1 <= USizeMax
    requires forall i, j :: 0 <= i < j < |os| ==> (os[i].0, os[i].1) != (os[j].0, os[j].1)
    requires forall i :: 0 <= i < |os| ==> os[i].0 <= USizeMax && os[i].1 <= USizeMax
    ensures DistinctKeys([sel] + (FileEntries(ts) + (CursorEntries(cs) + (OffsetEntries(os) + [wi]))))
  {
    var x1 := OffsetEntries(os) + [wi];
    var x2 := CursorEntries(cs) + x1;
    var x3 := FileEntries(ts) + x2;
    assert {'o'} + {'e'} == {'o', 'e'} && {'c'} + {'o', 'e'} == {'c', 'o', 'e'};
    assert {'f'} + {'c', 'o', 'e'} == {'f', 'c', 'o', 'e'};
    assert DistinctKeys([wi]) && Heads([wi], {'e'});
    assert DistinctKeys([sel]) && Heads([sel], {'s'});
    FileEntriesKeys(ts);
    CursorEntriesKeys(cs);
    OffsetEntriesKeys(os);
    DistinctConcat(OffsetEntries(os), [wi], {'o'}, {'e'});
    DistinctConcat(CursorEntries(cs), x1, {'c'}, {'o', 'e'});
    DistinctConcat(FileEntries(ts), x2, {'f'}, {'c', 'o', 'e'});
    DistinctConcat([sel], x3, {'s'}, {'f', 'c', 'o', 'e'});
  }

  /** The `[editor]` keys of a restorable session are distinct, so `store` lays them out in order. */
  lemma EditorKeys(t: Tabs, present: set<Path>)
    requires Restorable(t, present)
    ensures DistinctKeys(EditorEntries(t))
    ensures SetAll([], EditorEntries(t)) == EditorEntries(t)
  {
    EntriesDistinct(("selected", SelText(t.tabSelected.0, t.tabSelected.1)), t.tabState, t.tabCursor, t.tabOffset,
      ("editor_widths", WidthsText(t.editSplitAt)));
    SetAllFresh([], EditorEntries(t));
    assert [] + EditorEntries(t) == EditorEntries(t);
  }

  /** A key `store` writes starts with its prefix and the '.' after it. */
  lemma TabKeyPrefix(prefix: string, s: nat, t: nat)
    ensures StartsWith(TabKey(prefix, s, t), prefix + ".")
  {
    assert TabKey(prefix, s, t) == (prefix + ".") + (NatToString(s) + "." + NatToString(t));
  }

  lemma ReadFileEntry(t: Tabs, k: string, v: string, present: set<Path>, s: nat, tb: nat)
    requires StartsWith(k, "file.") && SplitTab(k) == Some((s, tb)) && PathFrom(v) in present
    ensures ScanEntry(t, (k, v), present) == Some(t.(tabState := t.tabState + [(s, tb, PathFrom(v))]))
  {
  }

  lemma ReadCursorEntry(t: Tabs, k: string, v: string, present: set<Path>, s: nat, tb: nat, x: nat, y: nat)
    requires !StartsWith(k, "file.") && StartsWith(k, "cursor.")
    requires SplitTab(k) == Some((s, tb)) && SplitCursor(v) == Some((x, y))
    ensures ScanEntry(t, (k, v), present) == Some(t.(tabCursor := t.tabCursor + [(s, tb, x, y)]))
  {
  }

  lemma ReadOffsetEntry(t: Tabs, k: string, v: string, present: set<Path>, s: nat, tb: nat, x: nat, y: nat, z: nat)
    requires !StartsWith(k, "file.") && !StartsWith(k, "cursor.") && StartsWith(k, "offset.")
    requires SplitTab(k) == Some((s, tb)) && SplitOffset(v) == Some((x, y, z))
    ensures ScanEntry(t, (k, v), present) == Some(t.(tabOffset := t.tabOffset + [(s, tb, x, y, z)]))
  {
  }

  /** A key whose first character differs from the prefix's does not start with it. */
  lemma OtherHead(k: string, prefix: string)
    requires |k| > 0 && |prefix| > 0 && k[0] != prefix[0]
    ensures !StartsWith(k, prefix)
  {
    if |prefix| <= |k| {
      assert k[..|prefix|][0] == k[0];
    }
  }

  lemma FileEntryRead(t: Tabs, f: (nat, nat, Path), present: set<Path>)
    requires FileOk(f, present)
    ensures ScanEntry(t, FileEntry(f), present) == Some(t.(tabState := t.tabState + [f]))
  {
    var k := TabKey("file", f.0, f.1);
    assert SplitTab(k) == Some((f.0, f.1)) by { TabKeyRoundTrip("file", f.0, f.1); }
    assert StartsWith(k, "file.") by { TabKeyPrefix("file", f.0, f.1); }
    assert PathFrom(PathText(f.2)) == f.2 by { PathRoundTrip(f.2); }
    ReadFileEntry(t, k, PathText(f.2), present, f.0, f.1);
    assert (f.0, f.1, f.2) == f;
  }

  lemma CursorEntryRead(t: Tabs, c: (nat, nat, nat, nat), present: set<Path>)
    requires CursorOk(c)
    ensures ScanEntry(t, CursorEntry(c), present) == Some(t.(tabCursor := t.tabCursor + [c]))
  {
    var k := TabKey("cursor", c.0, c.1);
    assert SplitTab(k) == Some((c.0, c.1)) by { TabKeyRoundTrip("cursor", c.0, c.1); }
    assert StartsWith(k, "cursor.") by { TabKeyPrefix("cursor", c.0, c.1); }
    assert !StartsWith(k, "file.") by {
      TabKeyHead("cursor", c.0, c.1);
      OtherHead(k, "file.");
    }
    assert SplitCursor(CursorText(c.2, c.3)) == Some((c.2, c.3)) by { CursorRoundTrip(c.2, c.3); }
    ReadCursorEntry(t, k, CursorText(c.2, c.3), present, c.0, c.1, c.2, c.3);
    assert (c.0, c.1, c.2, c.3) == c;
  }

  lemma OffsetEntryRead(t: Tabs, o: (nat, nat, nat, nat, nat), present: set<Path>)
    requires OffsetOk(o)
    ensures ScanEntry(t, OffsetEntry(o), present) == Some(t.(tabOffset := t.tabOffset + [o]))
  {
    var k := TabKey("offset", o.0, o.1);
    assert SplitTab(k) == Some((o.0, o.1)) by { TabKeyRoundTrip("offset", o.0, o.1); }
    assert StartsWith(k, "offset.") by { TabKeyPrefix("offset", o.0, o.1); }
    assert !StartsWith(k, "file.") && !StartsWith(k, "cursor.") by {
      TabKeyHead("offset", o.0, o.1);
      OtherHead(k, "file.");
      OtherHead(k, "cursor.");
    }
    assert SplitOffset(OffsetText(o.2, o.3, o.4)) == Some((o.2, o.3, o.4)) by { OffsetRoundTrip(o.2, o.3, o.4); }
    ReadOffsetEntry(t, k, OffsetText(o.2, o.3, o.4), present, o.0, o.1, o.2, o.3, o.4);
    assert (o.0, o.1, o.2, o.3, o.4) == o;
  }

  /** One entry read without a stop, then the rest. */
  lemma ScanCons(e: (string, string), rest: Section, present: set<Path>, t: Tabs, t1: Tabs)
    requires ScanEntry(t, e, present) == Some(t1)
    ensures Scan([e] + rest, present, t) == Scan(rest, present, t1)
  {
    assert ([e] + rest)[0] == e && ([e] + rest)[1..] == rest;
  }

  /** A sequence is its first element followed by the rest, given pointwise. */
  lemma ConsOf<T>(xs: seq<T>, x: T, tail: seq<T>)
    requires |xs| == |tail| + 1 && xs[0] == x
    requires forall i :: 0 <= i < |tail| ==> xs[i + 1] == tail[i]
    ensures xs == [x] + tail
  {
  }

  /** The first file entry is read and the loop goes on with the rest. */
  lemma FileStep(ts: seq<(nat, nat, Path)>, rest: Section, present: set<Path>, t: Tabs)
    requires |ts| > 0
    requires forall i :: 0 <= i < |ts| ==> FileOk(ts[i], present)
    ensures Scan(FileEntries(ts) + rest, present, t) ==
      Scan(FileEntries(ts[1..]) + rest, present, t.(tabState := t.tabState + [ts[0]]))
  {
    var t1 := t.(tabState := t.tabState + [ts[0]]);
    var tail := FileEntries(ts[1..]) + rest;
    assert FileEntries(ts) + rest == [FileEntry(ts[0])] + tail by {
      forall i | 0 <= i < |ts| - 1 ensures FileEntries(ts)[i + 1] == FileEntries(ts[1..])[i] {
        assert ts[1..][i] == ts[i + 1];
      }
      ConsOf(FileEntries(ts), FileEntry(ts[0]), FileEntries(ts[1..]));
    }
    assert FileOk(ts[0], present);
    FileEntryRead(t, ts[0], present);
    ScanCons(FileEntry(ts[0]), tail, present, t, t1);
  }

  lemma {:induction false} ScanFiles(ts: seq<(nat, nat, Path)>, rest: Section, present: set<Path>, t: Tabs)
    requires forall i :: 0 <= i < |ts| ==> FileOk(ts[i], present)
    ensures Scan(FileEntries(ts) + rest, present, t) == Scan(rest, present, t.(tabState := t.tabState + ts))
    decreases |ts|
  {
    if |ts| == 0 {
      assert FileEntries(ts) + rest == rest;
      assert t.tabState + ts == t.tabState;
    } else {
      var t1 := t.(tabState := t.tabState + [ts[0]]);
      assert t1.(tabState := t1.tabState + ts[1..]) == t.(tabState := t.tabState + ts) by {
        assert t1.tabState + ts[1..] == t.tabState + ts;
      }
      assert forall i :: 0 <= i < |ts[1..]| ==> FileOk(ts[1..][i], present) by {
        forall i | 0 <= i < |ts[1..]| ensures FileOk(ts[1..][i], present) {
          assert ts[1..][i] == ts[i + 1];
        }
      }
      FileStep(ts, rest, present, t);
      ScanFiles(ts[1..], rest, present, t1);
    }
  }

  /** The first cursor entry is read and the loop goes on with the rest. */
  lemma CursorStep(cs: seq<(nat, nat, nat, nat)>, rest: Section, present: set<Path>, t: Tabs)
    requires |cs| > 0
    requires forall i :: 0 <= i < |cs| ==> CursorOk(cs[i])
    ensures Scan(CursorEntries(cs) + rest, present, t) ==
      Scan(CursorEntries(cs[1..]) + rest, present, t.(tabCursor := t.tabCursor + [cs[0]]))
  {
    var t1 := t.(tabCursor := t.tabCursor + [cs[0]]);
    var tail := CursorEntries(cs[1..]) + rest;
    assert CursorEntries(cs) + rest == [CursorEntry(cs[0])] + tail by {
      forall i | 0 <= i < |cs| - 1 ensures CursorEntries(cs)[i + 1] == CursorEntries(cs[1..])[i] {
        assert cs[1..][i] == cs[i + 1];
      }
      ConsOf(CursorEntries(cs), CursorEntry(cs[0]), CursorEntries(cs[1..]));
    }
    assert CursorOk(cs[0]);
    CursorEntryRead(t, cs[0], present);
    ScanCons(CursorEntry(cs[0]), tail, present, t, t1);
  }

  lemma {:induction false} ScanCursors(cs: seq<(nat, nat, nat, nat)>, rest: Section, present: set<Path>, t: Tabs)
    requires forall i :: 0 <= i < |cs| ==> CursorOk(cs[i])
    ensures Scan(CursorEntries(cs) + rest, present, t) == Scan(rest, present, t.(tabCursor := t.tabCursor + cs))
    decreases |cs|
  {
    if |cs| == 0 {
      assert CursorEntries(cs) + rest == rest;
      assert t.tabCursor + cs == t.tabCursor;
    } else {
      var t1 := t.(tabCursor := t.tabCursor + [cs[0]]);
      assert t1.(tabCursor := t1.tabCursor + cs[1..]) == t.(tabCursor := t.tabCursor + cs) by {
        assert t1.tabCursor + cs[1..] == t.tabCursor + cs;
      }
      assert forall i :: 0 <= i < |cs[1..]| ==> CursorOk(cs[1..][i]) by {
        forall i | 0 <= i < |cs[1..]| ensures CursorOk(cs[1..][i]) {
          assert cs[1..][i] == cs[i + 1];
        }
      }
      CursorStep(cs, rest, present, t);
      ScanCursors(cs[1..], rest, present, t1);
    }
  }

  /** The first offset entry is read and the loop goes on with the rest. */
  lemma OffsetStep(os: seq<(nat, nat, nat, nat, nat)>, rest: Section, present: set<Path>, t: Tabs)
    requires |os| > 0
    requires forall i :: 0 <= i < |os| ==> OffsetOk(os[i])
    ensures Scan(OffsetEntries(os) + rest, present, t) ==
      Scan(OffsetEntries(os[1..]) + rest, present, t.(tabOffset := t.tabOffset + [os[0]]))
  {
    var t1 := t.(tabOffset := t.tabOffset + [os[0]]);
    var tail := OffsetEntries(os[1..]) + rest;
    assert OffsetEntries(os) + rest == [OffsetEntry(os[0])] + tail by {
      forall i | 0 <= i < |os| - 1 ensures OffsetEntries(os)[i + 1] == OffsetEntries(os[1..])[i] {
        assert os[1..][i] == os[i + 1];
      }
      ConsOf(OffsetEntries(os), OffsetEntry(os[0]), OffsetEntries(os[1..]));
    }
    assert OffsetOk(os[0]);
    OffsetEntryRead(t, os[0], present);
    ScanCons(OffsetEntry(os[0]), tail, present, t, t1);
  }

  lemma {:induction false} ScanOffsets(os: seq<(nat, nat, nat, nat, nat)>, rest: Section, present: set<Path>, t: Tabs)
    requires forall i :: 0 <= i < |os| ==> OffsetOk(os[i])
    ensures Scan(OffsetEntries(os) + rest, present, t) == Scan(rest, present, t.(tabOffset := t.tabOffset + os))
    decreases |os|
  {
    if |os| == 0 {
      assert OffsetEntries(os) + rest == rest;
      assert t.tabOffset + os == t.tabOffset;
    } else {
      var t1 := t.(tabOffset := t.tabOffset + [os[0]]);
      assert t1.(tabOffset := t1.tabOffset + os[1..]) == t.(tabOffset := t.tabOffset + os) by {
        assert t1.tabOffset + os[1..] == t.tabOffset + os;
      }
      assert forall i :: 0 <= i < |os[1..]| ==> OffsetOk(os[1..][i]) by {
        forall i | 0 <= i < |os[1..]| ensures OffsetOk(os[1..][i]) {
          assert os[1..][i] == os[i + 1];
        }
      }
      OffsetStep(os, rest, present, t);
      ScanOffsets(os[1..], rest, present, t1);
    }
  }

  /** A key that is none of `file.`, `cursor.`, `offset.` is skipped. */
  lemma ScanOther(e: (string, string), rest: Section, present: set<Path>, t: Tabs)
    requires !StartsWith(e.0, "file.") && !StartsWith(e.0, "cursor.") && !StartsWith(e.0, "offset.")
    ensures Scan([e] + rest, present, t) == Scan(rest, present, t)
  {
    assert ScanEntry(t, e, present) == Some(t);
    ScanCons(e, rest, present, t, t);
  }

  /** Neither `selected` nor `editor_widths` is one of the three list keys. */
  lemma LiteralKeysSkipped()
    ensures !StartsWith("selected", "file.") && !StartsWith("selected", "cursor.") && !StartsWith("selected", "offset.")
    ensures !StartsWith("editor_widths", "file.") && !StartsWith("editor_widths", "cursor.")
    ensures !StartsWith("editor_widths", "offset.")
  {
    OtherHead("selected", "file.");
    OtherHead("selected", "cursor.");
    OtherHead("selected", "offset.");
    OtherHead("editor_widths", "file.");
    OtherHead("editor_widths", "cursor.");
    OtherHead("editor_widths", "offset.");
  }

  /** The offsets, then `editor_widths`: the offsets are collected and the loop ends without a stop. */
  lemma ScanTailOffsets(os: seq<(nat, nat, nat, nat, nat)>, wi: (string, string), present: set<Path>, t: Tabs)
    requires wi.0 == "editor_widths"
    requires forall i :: 0 <= i < |os| ==> OffsetOk(os[i])
    ensures Scan(OffsetEntries(os) + [wi], present, t) == (t.(tabOffset := t.tabOffset + os), false)
  {
    var t1 := t.(tabOffset := t.tabOffset + os);
    assert Scan([], present, t1) == (t1, false);
    assert [wi] + [] == [wi];
    LiteralKeysSkipped();
    ScanOffsets(os, [wi], present, t);
    ScanOther(wi, [], present, t1);
  }

  lemma ScanTailCursors(cs: seq<(nat, nat, nat, nat)>, os: seq<(nat, nat, nat, nat, nat)>, wi: (string, string),
                        present: set<Path>, t: Tabs)
    requires wi.0 == "editor_widths"
    requires forall i :: 0 <= i < |cs| ==> CursorOk(cs[i])
    requires forall i :: 0 <= i < |os| ==> OffsetOk(os[i])
    ensures Scan(CursorEntries(cs) + (OffsetEntries(os) + [wi]), present, t) ==
      (t.(tabCursor := t.tabCursor + cs, tabOffset := t.tabOffset + os), false)
  {
    ScanCursors(cs, OffsetEntries(os) + [wi], present, t);
    ScanTailOffsets(os, wi, present, t.(tabCursor := t.tabCursor + cs));
  }

  lemma ScanTailFiles(ts: seq<(nat, nat, Path)>, cs: seq<(nat, nat, nat, nat)>, os: seq<(nat, nat, nat, nat, nat)>,
                      wi: (string, string), present: set<Path>, t: Tabs)
    requires wi.0 == "editor_widths"
    requires forall i :: 0 <= i < |ts| ==> FileOk(ts[i], present)
    requires forall i :: 0 <= i < |cs| ==> CursorOk(cs[i])
    requires forall i :: 0 <= i < |os| ==> OffsetOk(os[i])
    ensures Scan(FileEntries(ts) + (CursorEntries(cs) + (OffsetEntries(os) + [wi])), present, t) ==
      (t.(tabState := t.tabState + ts, tabCursor := t.tabCursor + cs, tabOffset := t.tabOffset + os), false)
  {
    ScanFiles(ts, CursorEntries(cs) + (OffsetEntries(os) + [wi]), present, t);
    ScanTailCursors(cs, os, wi, present, t.(tabState := t.tabState + ts));
  }

  /** The loop over `selected`, the three lists and `editor_widths` collects the lists and does not stop. */
  lemma ScanLists(sel: (string, string), ts: seq<(nat, nat, Path)>, cs: seq<(nat, nat, nat, nat)>,
                  os: seq<(nat, nat, nat, nat, nat)>, wi: (string, string), present: set<Path>)
    requires sel.0 == "selected" && wi.0 == "editor_widths"
    requires forall i :: 0 <= i < |ts| ==> FileOk(ts[i], present)
    requires forall i :: 0 <= i < |cs| ==> CursorOk(cs[i])
    requires forall i :: 0 <= i < |os| ==> OffsetOk(os[i])
    ensures Scan([sel] + (FileEntries(ts) + (CursorEntries(cs) + (OffsetEntries(os) + [wi]))), present, NoTabs) ==
      (NoTabs.(tabState := ts, tabCursor := cs, tabOffset := os), false)
  {
    var rest := FileEntries(ts) + (CursorEntries(cs) + (OffsetEntries(os) + [wi]));
    assert [] + ts == ts && [] + cs == cs && [] + os == os;
    LiteralKeysSkipped();
    ScanOther(sel, rest, present, NoTabs);
    ScanTailFiles(ts, cs, os, wi, present, NoTabs);
  }

  /** The loop over what `store` wrote collects the three lists and does not stop. */
  lemma ScanStored(t: Tabs, present: set<Path>)
    requires Restorable(t, present)
    ensures Scan(EditorEntries(t), present, NoTabs) ==
      (NoTabs.(tabState := t.tabState, tabCursor := t.tabCursor, tabOffset := t.tabOffset), false)
  {
    ScanLists(("selected", SelText(t.tabSelected.0, t.tabSelected.1)), t.tabState, t.tabCursor, t.tabOffset,
      ("editor_widths", WidthsText(t.editSplitAt)), present);
  }

  /** `get` finds `selected` and `editor_widths` in what `store` wrote. */
  lemma WidthsFound(t: Tabs, present: set<Path>)
    requires Restorable(t, present)
    ensures Get(EditorEntries(t), "editor_widths") == Some(WidthsText(t.editSplitAt))
    ensures Get(EditorEntries(t), "selected") == Some(SelText(t.tabSelected.0, t.tabSelected.1))
  {
    var es := EditorEntries(t);
    EditorKeys(t, present);
    var last := |es| - 1;
    assert es[last] == ("editor_widths", WidthsText(t.editSplitAt));
    GetAt(es, last, "editor_widths");
    GetAt(es, 0, "selected");
  }

  /** `ReadSection` on a section whose loop does not stop and whose two single keys parse. */
  lemma ReadSectionParts(sec: Section, present: set<Path>, t: Tabs, selText: string, widthsText: string)
    requires Scan(sec, present, NoTabs) ==
      (NoTabs.(tabState := t.tabState, tabCursor := t.tabCursor, tabOffset := t.tabOffset), false)
    requires Get(sec, "selected") == Some(selText) && ParseSelected(selText) == Some(t.tabSelected)
    requires Get(sec, "editor_widths") == Some(widthsText) && Widths(Split(widthsText, {','})) == t.editSplitAt
    ensures ReadSection(sec, present) == t
  {
  }

  /**
   * Everything of the session that `store` writes is read back by `load`:
   * the files, cursors and offsets in order, the selected tab and the
   * split widths.
   */
  lemma EditorRoundTrip(t: Tabs, present: set<Path>)
    requires Restorable(t, present)
    ensures ReadSection(SetAll([], EditorEntries(t)), present) == t
  {
    var selText := SelText(t.tabSelected.0, t.tabSelected.1);
    var widthsText := WidthsText(t.editSplitAt);
    assert ParseSelected(selText) == Some(t.tabSelected) by { SelectedRoundTrip(t.tabSelected.0, t.tabSelected.1); }
    assert Widths(Split(widthsText, {','})) == t.editSplitAt by { WidthsRoundTrip(t.editSplitAt); }
    EditorKeys(t, present);
    ScanStored(t, present);
    WidthsFound(t, present);
    ReadSectionParts(EditorEntries(t), present, t, selText, widthsText);
  }

  // ---------------------------------------------------------------------------
  // The general and [ui] sections, load and store

  /** `file_split_at` as `load` computes it: the `[ui]` value is parsed and then dropped. */
  function FileSplitAtAsWritten(ini: IniFile): (r: nat)
    ensures r == C.DefaultFileSplitAt
  {
    C.DefaultFileSplitAt
  }

  /** `file_split_at` as intended: the `[ui]` value, falling back to 15. */
  function FileSplitAt(ini: IniFile): (r: nat)
    ensures r <= C.U16Max
    ensures "ui" !in ini.sections ==> r == C.DefaultFileSplitAt
  {
    match Named(ini, "ui")
    case None => C.DefaultFileSplitAt
    case Some(sec) => C.Number(Get(sec, "file_split_at"), C.DefaultFileSplitAt, C.U16Max)
  }

  /**
   * The settings read from an INI document. `present` is the set of paths
   * that exist: a `file.` entry naming any other path ends the session part.
   */
  function FromIni(ini: IniFile, present: set<Path>): (r: Settings)
    ensures r.textWidth <= C.U16Max && r.fileSplitAt <= C.U16Max
    ensures C.CleanGlobs(r.globs)
    ensures r.loadFile == []
  {
    var sec := ini.general;
    C.GlobsClean(Get(sec, "file_pattern").GetOr("*.md"));
    Default.(
      theme := Get(sec, "theme").GetOr("Imperial"),
      textWidth := C.Number(Get(sec, "text_width"), C.DefaultTextWidth, C.U16Max),
      font := Trim(Get(sec, "font").GetOr("")),
      globs := C.Globs(Get(sec, "file_pattern").GetOr("*.md")),
      showCtrl := C.Flag(Get(sec, "show_ctrl"), false),
      showBreak := C.Flag(Get(sec, "show_break"), false),
      wrapText := C.Flag(Get(sec, "wrap_text"), false),
      showLinenr := C.Flag(Get(sec, "show_linenr"), true),
      logLevel := Trim(Get(sec, "log").GetOr("warn")),
      fileSplitAt := FileSplitAt(ini),
      tabs := ReadEditor(ini, present))
  }

  /**
   * `load`: no configuration directory or no file gives the defaults; a
   * file that cannot be read or parsed is an error.
   */
  function Load(file: Option<Result<IniFile>>, present: set<Path>): (r: Result<Settings>)
    ensures file.None? ==> r == Ok(Default)
    ensures file.Some? ==> (r.Err? <==> file.value.Err?)
    ensures file.Some? && file.value.Ok? ==> r == Ok(FromIni(file.value.value, present))
  {
    match file
    case None => Ok(Default)
    case Some(Err(e)) => Err(e)
    case Some(Ok(ini)) => Ok(FromIni(ini, present))
  }

  /** The general section `store` writes, key by key (the floating-point font size is left out). */
  function GeneralEntries(c: Settings): seq<(string, string)> {
    [("theme", c.theme),
     ("text_width", NatToString(c.textWidth)),
     ("font", c.font),
     ("file_pattern", C.GlobText(c.globs)),
     ("log", c.logLevel),
     ("show_ctrl", BoolToString(c.showCtrl)),
     ("show_break", BoolToString(c.showBreak)),
     ("wrap_text", BoolToString(c.wrapText)),
     ("show_linenr", BoolToString(c.showLinenr))]
  }

  function UiEntries(c: Settings): seq<(string, string)> {
    [("file_split_at", NatToString(c.fileSplitAt))]
  }

  /** The INI document `store` writes. */
  function Stored(c: Settings): (r: IniFile)
    ensures r.sections.Keys == {"ui", "editor"}
  {
    IniFile(SetAll([], GeneralEntries(c)),
      map["ui" := SetAll([], UiEntries(c)), "editor" := SetAll([], EditorEntries(c.tabs))])
  }

  /** `store`: without a configuration directory nothing is written. */
  function Store(c: Settings, hasConfigDir: bool): (r: Result<IniFile>)
    ensures r.Err? <==> !hasConfigDir
    ensures r.Ok? ==> r.value == Stored(c)
  {
    if hasConfigDir then Ok(Stored(c)) else Err(ConfigError("Can't save cfg."))
  }

  /** A file with no keys and no sections loads the defaults, except the log level, whose fallback is "warn". */
  lemma MissingKeys(ini: IniFile, present: set<Path>)
    requires ini.general == [] && ini.sections == map[]
    ensures FromIni(ini, present) == Default.(logLevel := "warn")
  {
    C.GlobsRoundTrip([]);
    TrimNoop("warn");
    TrimNoop("");
  }

  /** The values `store` writes and `load` reads back unchanged. */
  predicate Storable(c: Settings, present: set<Path>) {
    && c.textWidth <= C.U16Max && c.fileSplitAt <= C.U16Max
    && Trim(c.font) == c.font && Trim(c.logLevel) == c.logLevel
    && C.CleanGlobs(c.globs)
    && Restorable(c.tabs, present)
  }

  /** Nine pairs under the nine general keys: `get` finds each value after they are set. */
  lemma GeneralKeysFound(es: seq<(string, string)>)
    requires |es| == 9
    requires es[0].0 == "theme" && es[1].0 == "text_width" && es[2].0 == "font"
    requires es[3].0 == "file_pattern" && es[4].0 == "log" && es[5].0 == "show_ctrl"
    requires es[6].0 == "show_break" && es[7].0 == "wrap_text" && es[8].0 == "show_linenr"
    ensures var sec := SetAll([], es);
      && Get(sec, "theme") == Some(es[0].1) && Get(sec, "text_width") == Some(es[1].1)
      && Get(sec, "font") == Some(es[2].1) && Get(sec, "file_pattern") == Some(es[3].1)
      && Get(sec, "log") == Some(es[4].1) && Get(sec, "show_ctrl") == Some(es[5].1)
      && Get(sec, "show_break") == Some(es[6].1) && Get(sec, "wrap_text") == Some(es[7].1)
      && Get(sec, "show_linenr") == Some(es[8].1)
  {
    GeneralKeysDistinct(es);
    FreshFound(es);
  }

  lemma GeneralKeysDistinct(es: seq<(string, string)>)
    requires |es| == 9
    requires es[0].0 == "theme" && es[1].0 == "text_width" && es[2].0 == "font"
    requires es[3].0 == "file_pattern" && es[4].0 == "log" && es[5].0 == "show_ctrl"
    requires es[6].0 == "show_break" && es[7].0 == "wrap_text" && es[8].0 == "show_linenr"
    ensures DistinctKeys(es)
  {
  }

  /** The general section `store` writes holds each value under its key. */
  lemma GeneralFound(c: Settings)
    ensures var sec := Stored(c).general;
      && Get(sec, "theme") == Some(c.theme) && Get(sec, "text_width") == Some(NatToString(c.textWidth))
      && Get(sec, "font") == Some(c.font) && Get(sec, "file_pattern") == Some(C.GlobText(c.globs))
      && Get(sec, "log") == Some(c.logLevel) && Get(sec, "show_ctrl") == Some(BoolToString(c.showCtrl))
      && Get(sec, "show_break") == Some(BoolToString(c.showBreak))
      && Get(sec, "wrap_text") == Some(BoolToString(c.wrapText))
      && Get(sec, "show_linenr") == Some(BoolToString(c.showLinenr))
  {
    GeneralKeysFound(GeneralEntries(c));
  }

  /** `FromIni` on a document whose every key holds a value that reads back. */
  lemma FromIniParts(ini: IniFile, present: set<Path>, c: Settings, width: string, pattern: string,
                     ctrl: string, brk: string, wrap: string, linenr: string)
    requires Get(ini.general, "theme") == Some(c.theme)
    requires Get(ini.general, "text_width") == Some(width)
    requires C.Number(Some(width), C.DefaultTextWidth, C.U16Max) == c.textWidth
    requires Get(ini.general, "font") == Some(c.font) && Trim(c.font) == c.font
    requires Get(ini.general, "file_pattern") == Some(pattern) && C.Globs(pattern) == C.StoredGlobs(c.globs)
    requires Get(ini.general, "log") == Some(c.logLevel) && Trim(c.logLevel) == c.logLevel
    requires Get(ini.general, "show_ctrl") == Some(ctrl) && C.Flag(Some(ctrl), false) == c.showCtrl
    requires Get(ini.general, "show_break") == Some(brk) && C.Flag(Some(brk), false) == c.showBreak
    requires Get(ini.general, "wrap_text") == Some(wrap) && C.Flag(Some(wrap), false) == c.wrapText
    requires Get(ini.general, "show_linenr") == Some(linenr) && C.Flag(Some(linenr), true) == c.showLinenr
    requires FileSplitAt(ini) == c.fileSplitAt && ReadEditor(ini, present) == c.tabs
    ensures FromIni(ini, present) == c.(loadFile := [], globs := C.StoredGlobs(c.globs))
  {
  }

  /** The `[ui]` section `store` writes reads back its `file_split_at`. */
  lemma UiRoundTrip(c: Settings)
    requires c.fileSplitAt <= C.U16Max
    ensures FileSplitAt(Stored(c)) == c.fileSplitAt
  {
    assert SetAll([], UiEntries(c)) == UiEntries(c);
    C.NumberRoundTrip(c.fileSplitAt, C.DefaultFileSplitAt, C.U16Max);
  }

  /** As written, a stored `file_split_at` other than 15 is lost on the next start. */
  lemma AsWrittenSplitAtLost(c: Settings)
    requires c.fileSplitAt != C.DefaultFileSplitAt
    ensures FileSplitAtAsWritten(Stored(c)) != c.fileSplitAt
  {
  }

  /**
   * Storing and loading gives back what was stored: the files to open are
   * not stored and come back empty, and no globs come back as "*.md".
   */
  lemma StoreLoad(c: Settings, present: set<Path>)
    requires Storable(c, present)
    ensures FromIni(Stored(c), present) == c.(loadFile := [], globs := C.StoredGlobs(c.globs))
  {
    var width := NatToString(c.textWidth);
    var pattern := C.GlobText(c.globs);
    var ctrl, brk := BoolToString(c.showCtrl), BoolToString(c.showBreak);
    var wrap, linenr := BoolToString(c.wrapText), BoolToString(c.showLinenr);
    assert C.Number(Some(width), C.DefaultTextWidth, C.U16Max) == c.textWidth by {
      C.NumberRoundTrip(c.textWidth, C.DefaultTextWidth, C.U16Max);
    }
    assert C.Globs(pattern) == C.StoredGlobs(c.globs) by { C.GlobsRoundTrip(c.globs); }
    assert FileSplitAt(Stored(c)) == c.fileSplitAt by { UiRoundTrip(c); }
    assert ReadEditor(Stored(c), present) == c.tabs by { EditorRoundTrip(c.tabs, present); }
    GeneralFound(c);
    FromIniParts(Stored(c), present, c, width, pattern, ctrl, brk, wrap, linenr);
  }
}
