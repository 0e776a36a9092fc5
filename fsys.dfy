/**
 * The newer file-tree model, `FileSysStructure` of `fsys/mod.rs`: the
 * project root with its name and kind, the directory tree built from a
 * filtered walk and flattened with an explicit stack, and the current
 * directory's files matched by glob patterns, sorted and deduplicated.
 */
module Fsys {
  import opened Wrappers
  import opened Paths
  import opened Host
  import Roots
  import Sorting
  import FT = FsStructure

  /** The fields of `FileSysStructure`. */
  datatype FsysState = FsysState(
    root: Path,
    name: string,
    dirs: seq<Path>,
    display: seq<string>,
    isCargo: bool,
    isMdbook: bool,
    filesDir: Path,
    files: seq<Path>)

  /** `FileSysStructure::new`. */
  const Default := FsysState(Paths.Empty, "", [], [], false, false, Paths.Empty, [])

  /** The root `load_filesys` uses: the one `find_root` finds, or `path` itself. */
  function NewRoot(h: Host, p: Path): (r: Path)
    ensures Roots.RootFrom(h, p).None? ==> r == p
  {
    Roots.RootFrom(h, p).GetOr(p)
  }

  // ---------------------------------------------------------------------------
  // load_current

  /**
   * What one pattern contributes: failed entries are skipped, only files
   * are kept, and a relative path not starting with "." gets "./" in front.
   */
  function Found(h: Host, entries: seq<Option<Path>>): (r: seq<Path>)
    ensures forall j :: 0 <= j < |entries| && entries[j].Some? && entries[j].value in h.files ==>
      WithCurDir(entries[j].value) in r
    ensures forall f :: f in r ==>
      exists j :: 0 <= j < |entries| && entries[j].Some? && entries[j].value in h.files && f == WithCurDir(entries[j].value)
  {
    if |entries| == 0 then []
    else
      var init := entries[..|entries| - 1];
      var fs := Found(h, init);
      assert forall j :: 0 <= j < |init| ==> init[j] == entries[j];
      match entries[|entries| - 1]
      case None => fs
      case Some(f) => if f in h.files then fs + [WithCurDir(f)] else fs
  }

  /** One more entry: a file is appended to what the earlier entries found, anything else adds nothing. */
  lemma FoundStep(h: Host, entries: seq<Option<Path>>, k: nat, before: seq<Path>)
    requires k < |entries|
    ensures var fs := before + Found(h, entries[..k]);
      before + Found(h, entries[..k + 1]) ==
        if entries[k].Some? && entries[k].value in h.files then fs + [WithCurDir(entries[k].value)] else fs
  {
    assert entries[..k + 1][..k] == entries[..k];
    AppendAssoc(before, Found(h, entries[..k]), if entries[k].Some? then [WithCurDir(entries[k].value)] else []);
  }

  /**
   * The loop over the patterns: each is looked up in `dir`; a malformed
   * pattern stops the loop with an error and the files found so far.
   */
  function Matches(h: Host, dir: Path, pats: seq<string>): (r: (Result<()>, seq<Path>))
  {
    if |pats| == 0 then (Ok(()), [])
    else
      var (res, fs) := Matches(h, dir, pats[..|pats| - 1]);
      var pat := pats[|pats| - 1];
      if res.Err? then (res, fs)
      else if (dir, pat) !in h.globs then (Err(PatternError(pat)), fs)
      else (Ok(()), fs + Found(h, h.globs[(dir, pat)]))
  }

  /** `f` is a file some pattern matches in `dir`, as `Found` writes it. */
  ghost predicate Matched(h: Host, dir: Path, pats: seq<string>, f: Path) {
    exists i, j :: 0 <= i < |pats| && (dir, pats[i]) in h.globs && 0 <= j < |h.globs[(dir, pats[i])]| &&
      h.globs[(dir, pats[i])][j].Some? && h.globs[(dir, pats[i])][j].value in h.files &&
      f == WithCurDir(h.globs[(dir, pats[i])][j].value)
  }

  /** When every pattern is well formed, the files found are exactly those matched. */
  lemma {:induction false} MatchesComplete(h: Host, dir: Path, pats: seq<string>)
    ensures Matches(h, dir, pats).0.Ok? <==> forall i :: 0 <= i < |pats| ==> (dir, pats[i]) in h.globs
    ensures Matches(h, dir, pats).0.Ok? ==>
      forall f :: f in Matches(h, dir, pats).1 <==> Matched(h, dir, pats, f)
    decreases |pats|
  {
    if |pats| > 0 {
      var init := pats[..|pats| - 1];
      var pat := pats[|pats| - 1];
      MatchesComplete(h, dir, init);
      assert forall i :: 0 <= i < |init| ==> init[i] == pats[i];
      if Matches(h, dir, pats).0.Ok? {
        var fs := Matches(h, dir, init).1;
        var entries := h.globs[(dir, pat)];
        forall f ensures f in Matches(h, dir, pats).1 <==> Matched(h, dir, pats, f) {
          if f in fs {
            var i, j :| 0 <= i < |init| && (dir, init[i]) in h.globs && 0 <= j < |h.globs[(dir, init[i])]| &&
              h.globs[(dir, init[i])][j].Some? && h.globs[(dir, init[i])][j].value in h.files &&
              f == WithCurDir(h.globs[(dir, init[i])][j].value);
            assert pats[i] == init[i];
          } else if f in Found(h, entries) {
            var j :| 0 <= j < |entries| && entries[j].Some? && entries[j].value in h.files && f == WithCurDir(entries[j].value);
            assert pats[|pats| - 1] == pat;
          }
          if Matched(h, dir, pats, f) {
            var i, j :| 0 <= i < |pats| && (dir, pats[i]) in h.globs && 0 <= j < |h.globs[(dir, pats[i])]| &&
              h.globs[(dir, pats[i])][j].Some? && h.globs[(dir, pats[i])][j].value in h.files &&
              f == WithCurDir(h.globs[(dir, pats[i])][j].value);
            if i < |init| {
              assert init[i] == pats[i];
              assert Matched(h, dir, init, f);
            }
          }
        }
      }
    }
  }

  /** `load_current(path, globs)`: `files_dir` is set, the matches collected, then sorted and deduplicated. */
  function Current(s: FsysState, h: Host, path: Path, globs: seq<string>): (r: (Result<()>, FsysState))
    ensures r.1 == s.(filesDir := path, files := r.1.files)
  {
    var (res, fs) := Matches(h, path, globs);
    if res.Err? then (res, s.(filesDir := path, files := fs))
    else (res, s.(filesDir := path, files := SortDedupPaths(fs)))
  }

  /**
   * After `load_current` the files are strictly sorted (so free of
   * duplicates) and are exactly the matched files, each relative one
   * starting with "."; it fails exactly when a pattern is malformed.
   */
  lemma CurrentListsMatches(s: FsysState, h: Host, path: Path, globs: seq<string>)
    ensures var (res, r) := Current(s, h, path, globs);
      && r.filesDir == path
      && (res.Ok? <==> forall i :: 0 <= i < |globs| ==> (path, globs[i]) in h.globs)
      && (res.Ok? ==> Sorting.StrictlySorted(r.files, PathLess))
      && (res.Ok? ==> forall f :: f in r.files <==> Matched(h, path, globs, f))
      && (res.Ok? ==> forall f :: f in r.files && !f.absolute ==> StartsWithCurDir(f))
  {
    MatchesComplete(h, path, globs);
    var (res, r) := Current(s, h, path, globs);
    if res.Ok? {
      forall f | f in r.files && !f.absolute ensures StartsWithCurDir(f) {
        assert Matched(h, path, globs, f);
        var i, j :| 0 <= i < |globs| && (path, globs[i]) in h.globs && 0 <= j < |h.globs[(path, globs[i])]| &&
          h.globs[(path, globs[i])][j].Some? && h.globs[(path, globs[i])][j].value in h.files &&
          f == WithCurDir(h.globs[(path, globs[i])][j].value);
      }
    }
  }

  // ---------------------------------------------------------------------------
  // fs_recurse: the tree

  /** A node of the directory tree: the walk path it was created for, its name, its children. */
  datatype Node = Node(path: Path, name: string, items: seq<Node>)

  /** `items.iter().position(|v| v.name == c)`. */
  function Position(items: seq<Node>, c: string): (r: Option<nat>)
    ensures r.None? <==> forall k :: 0 <= k < |items| ==> items[k].name != c
    ensures r.Some? ==> (r.value < |items| && items[r.value].name == c &&
      forall k :: 0 <= k < r.value ==> items[k].name != c)
  {
    if |items| == 0 then None
    else if items[0].name == c then Some(0)
    else
      match Position(items[1..], c)
      case None => None
      case Some(k) => Some(k + 1)
  }

  /**
   * The descent along the components of `parent`: each component is found
   * among the branch's items by name, or appended as a new node that
   * records the whole `parent` path.
   */
  function AddUnder(items: seq<Node>, comps: seq<string>, parent: Path): (r: seq<Node>)
    ensures |items| <= |r| <= |items| + 1
    ensures forall k :: 0 <= k < |items| ==> r[k].name == items[k].name && r[k].path == items[k].path
    decreases |comps|
  {
    if |comps| == 0 then items
    else
      match Position(items, comps[0])
      case Some(k) => items[k := items[k].(items := AddUnder(items[k].items, comps[1..], parent))]
      case None => items + [Node(parent, comps[0], AddUnder([], comps[1..], parent))]
  }

  /** Names are unique among the items of every branch. */
  predicate UniqueNames(items: seq<Node>)
    decreases items
  {
    && (forall i, j :: 0 <= i < j < |items| ==> items[i].name != items[j].name)
    && (forall i :: 0 <= i < |items| ==> UniqueNames(items[i].items))
  }

  /** The branch reached by following `comps` by name exists. */
  predicate Reaches(items: seq<Node>, comps: seq<string>)
    decreases |comps|
  {
    |comps| == 0 ||
      (Position(items, comps[0]).Some? && Reaches(items[Position(items, comps[0]).value].items, comps[1..]))
  }

  /**
   * Adding a path keeps every name unique in its branch, keeps the
   * branches already there in their first-seen order, and makes the path
   * reachable.
   */
  lemma {:induction false} AddUnderShape(items: seq<Node>, comps: seq<string>, parent: Path)
    requires UniqueNames(items)
    ensures UniqueNames(AddUnder(items, comps, parent))
    ensures Reaches(AddUnder(items, comps, parent), comps)
    ensures |AddUnder(items, comps, parent)| == |items| + (if |comps| > 0 && Position(items, comps[0]).None? then 1 else 0)
    decreases |comps|
  {
    if |comps| > 0 {
      match Position(items, comps[0]) {
        case Some(k) =>
          AddUnderShape(items[k].items, comps[1..], parent);
          AddUnderFound(items, comps, parent, k);
        case None =>
          AddUnderShape([], comps[1..], parent);
          AddUnderNew(items, comps, parent);
      }
    }
  }

  /** The step of `AddUnderShape` into a branch already there. */
  lemma AddUnderFound(items: seq<Node>, comps: seq<string>, parent: Path, k: nat)
    requires UniqueNames(items) && |comps| > 0 && Position(items, comps[0]) == Some(k)
    requires var sub := AddUnder(items[k].items, comps[1..], parent);
      UniqueNames(sub) && Reaches(sub, comps[1..])
    ensures UniqueNames(AddUnder(items, comps, parent))
    ensures Reaches(AddUnder(items, comps, parent), comps)
    ensures |AddUnder(items, comps, parent)| == |items|
  {
    var n := items[k].(items := AddUnder(items[k].items, comps[1..], parent));
    assert AddUnder(items, comps, parent) == items[k := n];
    ReplaceNode(items, k, n, comps[0]);
  }

  /** Replacing a node by one of the same name with unique names below keeps names unique and positions in place. */
  lemma ReplaceNode(items: seq<Node>, k: nat, n: Node, c: string)
    requires UniqueNames(items) && k < |items| && n.name == items[k].name && UniqueNames(n.items)
    requires Position(items, c) == Some(k)
    ensures UniqueNames(items[k := n]) && Position(items[k := n], c) == Some(k)
  {
    var r := items[k := n];
    assert forall i :: 0 <= i < |r| ==> r[i].name == items[i].name;
  }

  /** The step of `AddUnderShape` that appends a new branch. */
  lemma AddUnderNew(items: seq<Node>, comps: seq<string>, parent: Path)
    requires UniqueNames(items) && |comps| > 0 && Position(items, comps[0]).None?
    requires var sub := AddUnder([], comps[1..], parent);
      UniqueNames(sub) && Reaches(sub, comps[1..])
    ensures UniqueNames(AddUnder(items, comps, parent))
    ensures Reaches(AddUnder(items, comps, parent), comps)
    ensures |AddUnder(items, comps, parent)| == |items| + 1
  {
    var r := AddUnder(items, comps, parent);
    assert r == items + [r[|items|]];
    PositionAppended(items, r[|items|], comps[0]);
  }

  /** A name not among the items is found at the node appended with it. */
  lemma PositionAppended(items: seq<Node>, n: Node, c: string)
    requires Position(items, c).None? && n.name == c
    ensures Position(items + [n], c) == Some(|items|)
  {
    assert (items + [n])[|items|].name == c;
    assert forall k :: 0 <= k < |items| ==> (items + [n])[k] == items[k];
  }

  /** `path.strip_prefix(base)`: the rest of `path` below `base`, as a relative path. */
  function StripPrefix(p: Path, base: Path): (r: Option<Path>)
    ensures r.Some? ==> !r.value.absolute && p.comps == base.comps + r.value.comps
  {
    if p.absolute == base.absolute && |base.comps| <= |p.comps| && p.comps[..|base.comps|] == base.comps then
      Some(Path(false, p.comps[|base.comps|..]))
    else None
  }

  /** Errors of the walk: a failed entry, or an entry outside the walked directory. */
  const EntryError := WalkError("walk entry")
  const PrefixError := WalkError("strip_prefix")

  /** One walk entry: it fails, or its parent (below `dir`) is added; the walked directory itself is skipped. */
  function Step(items: seq<Node>, dir: Path, e: Option<Path>): (r: Result<seq<Node>>)
  {
    match e
    case None => Err(EntryError)
    case Some(p) =>
      match StripPrefix(p, dir)
      case None => Err(PrefixError)
      case Some(rel) =>
        match Parent(rel)
        case None => Ok(items)
        case Some(par) => Ok(AddUnder(items, par.comps, par))
  }

  /** The loop over the walk, from the tree built so far. */
  function Grow(items: seq<Node>, dir: Path, entries: seq<Option<Path>>): (r: Result<seq<Node>>)
    decreases |entries|
  {
    if |entries| == 0 then Ok(items)
    else
      match Step(items, dir, entries[0])
      case Err(e) => Err(e)
      case Ok(next) => Grow(next, dir, entries[1..])
  }

  /** The tree below `dir`; a directory that cannot be walked fails. */
  function Built(h: Host, dir: Path): (r: Result<seq<Node>>)
  {
    if dir !in h.walks then Err(WalkError("walk")) else Grow([], dir, h.walks[dir])
  }

  /** Every tree the walk builds has unique names in each branch. */
  lemma {:induction false} GrowUnique(items: seq<Node>, dir: Path, entries: seq<Option<Path>>)
    requires UniqueNames(items)
    ensures Grow(items, dir, entries).Ok? ==> UniqueNames(Grow(items, dir, entries).value)
    decreases |entries|
  {
    if |entries| > 0 {
      match Step(items, dir, entries[0]) {
        case Err(_) =>
        case Ok(next) =>
          var rel := StripPrefix(entries[0].value, dir).value;
          if Parent(rel).Some? {
            AddUnderShape(items, Parent(rel).value.comps, Parent(rel).value);
          }
          GrowUnique(next, dir, entries[1..]);
      }
    }
  }

  // ---------------------------------------------------------------------------
  // fs_recurse: the flattening

  /** `dir.join(path)`: an absolute `path` replaces `dir`. */
  function Under(dir: Path, p: Path): Path {
    if p.absolute then p else Path(dir.absolute, dir.comps + p.comps)
  }

  /** One pushed pair: the directory and its display line. */
  datatype Line = Line(dir: Path, text: string)

  /**
   * The preorder walk of `items[i..]` with `prefix`: each node's line is the
   * prefix, '└' for the last sibling or '├' otherwise, and the name; its
   * children follow with the prefix extended by ' ' or '│'.
   */
  function FlatFrom(items: seq<Node>, i: nat, dir: Path, prefix: string): (r: seq<Line>)
    decreases items, |items| - i
  {
    if i >= |items| then []
    else
      var last := i + 1 == |items|;
      [Line(Under(dir, items[i].path), prefix + FT.Mark(last) + items[i].name)]
        + FlatFrom(items[i].items, 0, dir, prefix + FT.Indent(last))
        + FlatFrom(items, i + 1, dir, prefix)
  }

  function Dirs(ls: seq<Line>): (r: seq<Path>)
    ensures |r| == |ls| && forall k :: 0 <= k < |ls| ==> r[k] == ls[k].dir
  {
    seq(|ls|, k requires 0 <= k < |ls| => ls[k].dir)
  }

  function Texts(ls: seq<Line>): (r: seq<string>)
    ensures |r| == |ls| && forall k :: 0 <= k < |ls| ==> r[k] == ls[k].text
  {
    seq(|ls|, k requires 0 <= k < |ls| => ls[k].text)
  }

  /** A frame of the explicit stack: a branch, the next child to show, and the prefix. */
  datatype Frame = Frame(items: seq<Node>, idx: nat, prefix: string)

  /** What the frames still have to show, the top of the stack (the last frame) first. */
  function Pending(stack: seq<Frame>, dir: Path): seq<Line>
    decreases |stack|
  {
    if |stack| == 0 then []
    else
      var v := stack[|stack| - 1];
      FlatFrom(v.items, v.idx, dir, v.prefix) + Pending(stack[..|stack| - 1], dir)
  }

  /** One turn of the stack loop on a frame with a child left: its line, then the rest in order. */
  lemma PendingStep(rest: seq<Frame>, v: Frame, dir: Path)
    requires v.idx < |v.items|
    ensures var last := v.idx + 1 == |v.items|;
      var b := v.items[v.idx];
      var next := Frame(b.items, 0, v.prefix + FT.Indent(last));
      var v1 := v.(idx := v.idx + 1);
      var s1 := rest + (if v1.idx < |v.items| then [v1] else []);
      var s2 := s1 + (if |b.items| > 0 then [next] else []);
      Pending(rest + [v], dir) == [Line(Under(dir, b.path), v.prefix + FT.Mark(last) + b.name)] + Pending(s2, dir)
  {
    var last := v.idx + 1 == |v.items|;
    var b := v.items[v.idx];
    var next := Frame(b.items, 0, v.prefix + FT.Indent(last));
    var v1 := v.(idx := v.idx + 1);
    var s1 := rest + (if v1.idx < |v.items| then [v1] else []);
    var s2 := s1 + (if |b.items| > 0 then [next] else []);
    var line := Line(Under(dir, b.path), v.prefix + FT.Mark(last) + b.name);
    var kids := FlatFrom(b.items, 0, dir, v.prefix + FT.Indent(last));
    var sibs := FlatFrom(v.items, v.idx + 1, dir, v.prefix);
    PendingSnoc(rest, v, dir);
    assert FlatFrom(v.items, v.idx, dir, v.prefix) == [line] + kids + sibs;
    assert Pending(s1, dir) == sibs + Pending(rest, dir) by {
      if v1.idx < |v.items| {
        PendingSnoc(rest, v1, dir);
      } else {
        assert s1 == rest && sibs == [];
      }
    }
    assert Pending(s2, dir) == kids + Pending(s1, dir) by {
      if |b.items| > 0 {
        PendingSnoc(s1, next, dir);
      } else {
        assert s2 == s1 && kids == [];
      }
    }
    AppendAssoc4([line], kids, sibs, Pending(rest, dir));
  }

  /** A frame pushed on top is shown first. */
  lemma PendingSnoc(stack: seq<Frame>, v: Frame, dir: Path)
    ensures Pending(stack + [v], dir) == FlatFrom(v.items, v.idx, dir, v.prefix) + Pending(stack, dir)
  {
    assert (stack + [v])[..|stack|] == stack;
  }

  /** Popping a finished frame leaves what is pending unchanged. */
  lemma PopDone(stack: seq<Frame>, dir: Path)
    requires |stack| > 0 && stack[|stack| - 1].idx >= |stack[|stack| - 1].items|
    ensures Pending(stack, dir) == Pending(stack[..|stack| - 1], dir)
  {
  }

  /** One turn of the loop keeps `out + Pending(stack)` and shortens what is pending. */
  lemma StepKeeps(out: seq<Line>, rest: seq<Frame>, v: Frame, dir: Path, stack: seq<Frame>, line: Line, all: seq<Line>)
    requires v.idx < |v.items| && out + Pending(rest + [v], dir) == all
    requires var last := v.idx + 1 == |v.items|;
      var b := v.items[v.idx];
      && line == Line(Under(dir, b.path), v.prefix + FT.Mark(last) + b.name)
      && stack == rest + (if v.idx + 1 < |v.items| then [v.(idx := v.idx + 1)] else [])
           + (if |b.items| > 0 then [Frame(b.items, 0, v.prefix + FT.Indent(last))] else [])
    ensures (out + [line]) + Pending(stack, dir) == all
    ensures |Pending(stack, dir)| < |Pending(rest + [v], dir)|
    ensures Dirs(out + [line]) == Dirs(out) + [line.dir] && Texts(out + [line]) == Texts(out) + [line.text]
  {
    PendingStep(rest, v, dir);
    AppendAssoc(out, [line], Pending(stack, dir));
  }

  lemma AppendAssoc<T>(a: seq<T>, b: seq<T>, c: seq<T>)
    ensures a + b + c == a + (b + c)
  {
  }

  lemma AppendAssoc4<T>(a: seq<T>, b: seq<T>, c: seq<T>, d: seq<T>)
    ensures a + b + c + d == a + (b + (c + d))
  {
  }

  /**
   * The display after a change of root: the root and its name, then the
   * tree's preorder lines.
   */
  function Rescan(s: FsysState, h: Host, root: Path): (r: (Result<()>, FsysState))
    ensures r.1.root == root && r.1.filesDir == s.filesDir && r.1.files == s.files
  {
    var s1 := s.(name := "", root := root, dirs := [], display := []);
    match Naming(s1, h)
    case Err(e) => (Err(e), s1)
    case Ok(s2) => Walk(s2, h)
  }

  /** The root's name and kind: the cargo package name, else the mdbook title, else its file name. */
  function Naming(s: FsysState, h: Host): (r: Result<FsysState>)
    ensures r.Ok? ==> r.value == s.(name := r.value.name, isCargo := r.value.isCargo, isMdbook := r.value.isMdbook)
  {
    match ManifestName(h, s.root, "Cargo.toml", "package", "name")
    case Err(e) => Err(e)
    case Ok(Some(n)) => Ok(s.(name := n, isCargo := true, isMdbook := false))
    case Ok(None) =>
      match ManifestName(h, s.root, "book.toml", "book", "title")
      case Err(e) => Err(e)
      case Ok(Some(n)) => Ok(s.(name := n, isCargo := false, isMdbook := true))
      case Ok(None) => Ok(s.(name := FileName(s.root).GetOr("."), isCargo := false, isMdbook := false))
  }

  /** Pushes the root's entry, then `fs_recurse(root, "")`. */
  function Walk(s: FsysState, h: Host): (r: (Result<()>, FsysState))
  {
    var s1 := s.(dirs := s.dirs + [s.root], display := s.display + [s.name]);
    match Built(h, s.root)
    case Err(e) => (Err(e), s1)
    case Ok(tree) =>
      var ls := FlatFrom(tree, 0, s.root, "");
      (Ok(()), s1.(dirs := s1.dirs + Dirs(ls), display := s1.display + Texts(ls)))
  }

  /** `load_filesys(path)`: nothing happens when the root stays; otherwise the tree is rebuilt. */
  function Filesys(s: FsysState, h: Host, p: Path): (r: (Result<()>, FsysState))
    ensures r.1.root == NewRoot(h, p)
    ensures s.root == NewRoot(h, p) ==> r == (Ok(()), s)
  {
    if s.root == NewRoot(h, p) then (Ok(()), s) else Rescan(s, h, NewRoot(h, p))
  }

  /** `load(path, globs)`: `load_current`, then `load_filesys`, stopping at the first error. */
  function Loaded(s: FsysState, h: Host, p: Path, globs: seq<string>): (r: (Result<()>, FsysState))
  {
    var (res, s1) := Current(s, h, p, globs);
    if res.Err? then (res, s1) else Filesys(s1, h, p)
  }

  /**
   * The name is chosen in priority order (cargo package name, mdbook
   * title, the root's last component, "."), the project never becomes both
   * a cargo project and a book (a manifest error leaves the flags as they
   * were), and the first entry shown is the root under
   * its name, with `dirs` and `display` of equal length.
   */
  lemma RescanNames(s: FsysState, h: Host, root: Path)
    ensures var (res, r) := Rescan(s, h, root);
      var cargo := ManifestName(h, root, "Cargo.toml", "package", "name");
      var book := ManifestName(h, root, "book.toml", "book", "title");
      && (!(s.isCargo && s.isMdbook) ==> !(r.isCargo && r.isMdbook))
      && (cargo.Ok? && cargo.value.Some? ==> r.name == cargo.value.value && r.isCargo)
      && (cargo == Ok(None) && book.Ok? && book.value.Some? ==> r.name == book.value.value && r.isMdbook && !r.isCargo)
      && (cargo == Ok(None) && book == Ok(None) ==> r.name == FileName(root).GetOr(".") && !r.isCargo && !r.isMdbook)
      && (cargo.Err? || (cargo == Ok(None) && book.Err?) ==> res.Err? && r.dirs == [] && r.display == [])
      && |r.dirs| == |r.display|
      && (|r.dirs| > 0 ==> r.dirs[0] == root && r.display[0] == r.name)
      && (res.Ok? ==> (Built(h, root).Ok? && r.dirs == [root] + Dirs(FlatFrom(Built(h, root).value, 0, root, ""))
            && r.display == [r.name] + Texts(FlatFrom(Built(h, root).value, 0, root, ""))))
  {
    var s1 := s.(name := "", root := root, dirs := [], display := []);
    match ManifestName(h, root, "Cargo.toml", "package", "name") {
      case Err(e) =>
      case Ok(Some(n)) => WalkShape(s1.(name := n, isCargo := true, isMdbook := false), h);
      case Ok(None) =>
        match ManifestName(h, root, "book.toml", "book", "title") {
          case Err(e) =>
          case Ok(Some(n)) => WalkShape(s1.(name := n, isCargo := false, isMdbook := true), h);
          case Ok(None) => WalkShape(s1.(name := FileName(root).GetOr("."), isCargo := false, isMdbook := false), h);
        }
    }
  }

  /** From an empty display, the walk's first entry is the root under its name. */
  lemma WalkShape(s: FsysState, h: Host)
    requires s.dirs == [] && s.display == []
    ensures var (res, r) := Walk(s, h);
      && r.root == s.root && r.name == s.name && r.isCargo == s.isCargo && r.isMdbook == s.isMdbook
      && |r.dirs| == |r.display| && |r.dirs| > 0 && r.dirs[0] == s.root && r.display[0] == s.name
      && (res.Err? <==> Built(h, s.root).Err?)
      && (res.Ok? ==>
            r.dirs == [s.root] + Dirs(FlatFrom(Built(h, s.root).value, 0, s.root, "")) &&
            r.display == [s.name] + Texts(FlatFrom(Built(h, s.root).value, 0, s.root, "")))
  {
    assert s.dirs + [s.root] == [s.root] && s.display + [s.name] == [s.name];
  }

  /** Loading the same path again changes nothing, and `load` stops at a malformed pattern. */
  lemma LoadedStops(s: FsysState, h: Host, p: Path, globs: seq<string>)
    ensures var s1 := Filesys(s, h, p).1; Filesys(s1, h, p) == (Ok(()), s1)
    ensures Current(s, h, p, globs).0.Err? ==>
      Loaded(s, h, p, globs).0.Err? && Loaded(s, h, p, globs).1.root == s.root &&
      Loaded(s, h, p, globs).1.dirs == s.dirs && Loaded(s, h, p, globs).1.display == s.display
  {
  }

  // ---------------------------------------------------------------------------
  // The object

  class FileSysStructure {
    var root: Path
    var name: string
    var dirs: seq<Path>
    var display: seq<string>
    var isCargo: bool
    var isMdbook: bool
    var filesDir: Path
    var files: seq<Path>

    function State(): FsysState
      reads this
    {
      FsysState(root, name, dirs, display, isCargo, isMdbook, filesDir, files)
    }

    constructor ()
      ensures State() == Default
    {
      root, name, dirs, display := Paths.Empty, "", [], [];
      isCargo, isMdbook := false, false;
      filesDir, files := Paths.Empty, [];
    }

    /** `load`. */
    method Load(h: Host, p: Path, globs: seq<string>) returns (res: Result<()>)
      modifies this
      ensures (res, State()) == Loaded(old(State()), h, p, globs)
    {
      res := LoadCurrent(h, p, globs);
      if res.Err? {
        return;
      }
      res := LoadFilesys(h, p);
    }

    /** `load_filesys`. */
    method LoadFilesys(h: Host, p: Path) returns (res: Result<()>)
      modifies this
      ensures (res, State()) == Filesys(old(State()), h, p)
    {
      var found := Roots.FindRoot(h, p);
      var newRoot := if found.Some? then found.value else p;
      assert newRoot == NewRoot(h, p);
      if root == newRoot {
        return Ok(());
      }
      name := "";
      root := newRoot;
      dirs := [];
      display := [];
      assert State() == old(State()).(name := "", root := newRoot, dirs := [], display := []);
      res := NameRoot(h);
      if res.Err? {
        return;
      }
      res := WalkRoot(h);
    }

    /** The middle of `load_filesys`: the root's name and kind from its manifests. */
    method NameRoot(h: Host) returns (res: Result<()>)
      modifies this
      ensures var r := Naming(old(State()), h);
        && (r.Err? ==> res == Err(r.error) && State() == old(State()))
        && (r.Ok? ==> res == Ok(()) && State() == r.value)
    {
      var cargo := ManifestName(h, root, "Cargo.toml", "package", "name");
      if cargo.Err? {
        return Err(cargo.error);
      }
      if cargo.value.Some? {
        name, isCargo, isMdbook := cargo.value.value, true, false;
      } else {
        var book := ManifestName(h, root, "book.toml", "book", "title");
        if book.Err? {
          return Err(book.error);
        }
        if book.value.Some? {
          name, isCargo, isMdbook := book.value.value, false, true;
        } else {
          name, isCargo, isMdbook := FileName(root).GetOr("."), false, false;
        }
      }
      res := Ok(());
    }

    /** The end of `load_filesys`: the root's own entry, then `fs_recurse(root, "")`. */
    method WalkRoot(h: Host) returns (res: Result<()>)
      modifies this
      ensures (res, State()) == Walk(old(State()), h)
    {
      dirs := dirs + [root];
      display := display + [name];
      ghost var s1 := State();
      res, dirs, display := FsRecurse(h, root, dirs, display);
      assert State() == s1.(dirs := dirs, display := display);
    }

    /** `load_current`: every pattern's matches, then sorted and deduplicated. */
    method LoadCurrent(h: Host, path: Path, globs: seq<string>) returns (res: Result<()>)
      modifies this
      ensures (res, State()) == Current(old(State()), h, path, globs)
    {
      filesDir := path;
      files := [];
      var i := 0;
      while i < |globs|
        invariant i <= |globs|
        invariant Matches(h, path, globs[..i]) == (Ok(()), files)
        invariant State() == old(State()).(filesDir := path, files := files)
      {
        assert globs[..i + 1][..i] == globs[..i];
        var pat := globs[i];
        if (path, pat) !in h.globs {
          assert globs[..i + 1] == globs[..i] + [pat];
          MatchesStops(h, path, globs, i + 1);
          return Err(PatternError(pat));
        }
        var entries := h.globs[(path, pat)];
        ghost var before := files;
        var k := 0;
        while k < |entries|
          invariant k <= |entries|
          invariant files == before + Found(h, entries[..k])
          invariant State() == old(State()).(filesDir := path, files := files)
        {
          FoundStep(h, entries, k, before);
          match entries[k] {
            case None =>
            case Some(f) =>
              if f in h.files {
                files := files + [WithCurDir(f)];
              }
          }
          k := k + 1;
        }
        assert entries[..k] == entries;
        i := i + 1;
      }
      assert globs[..i] == globs;
      files := SortDedupPaths(files);
      res := Ok(());
    }
  }

  /** An error at pattern `i - 1` is the loop's result whatever follows. */
  lemma {:induction false} MatchesStops(h: Host, dir: Path, pats: seq<string>, i: nat)
    requires 0 < i <= |pats| && Matches(h, dir, pats[..i]).0.Err?
    ensures Matches(h, dir, pats) == Matches(h, dir, pats[..i])
    decreases |pats|
  {
    if i < |pats| {
      var init := pats[..|pats| - 1];
      assert init[..i] == pats[..i];
      MatchesStops(h, dir, init, i);
    } else {
      assert pats[..i] == pats;
    }
  }

  /**
   * `fs_recurse(dir, "", dirs, display)`: the tree is built from the walk,
   * then flattened onto the two vectors; an error comes before any push.
   */
  method FsRecurse(h: Host, dir: Path, dirs: seq<Path>, display: seq<string>)
    returns (res: Result<()>, newDirs: seq<Path>, newDisplay: seq<string>)
    ensures Built(h, dir).Err? ==>
      res == Err(Built(h, dir).error) && newDirs == dirs && newDisplay == display
    ensures Built(h, dir).Ok? ==>
      var tree := Built(h, dir).value;
      res == Ok(()) && newDirs == dirs + Dirs(FlatFrom(tree, 0, dir, "")) &&
      newDisplay == display + Texts(FlatFrom(tree, 0, dir, ""))
  {
    newDirs, newDisplay := dirs, display;
    var built := BuildTree(h, dir);
    if built.Err? {
      return Err(built.error), newDirs, newDisplay;
    }
    newDirs, newDisplay := Flatten(built.value, dir, dirs, display);
    res := Ok(());
  }

  /** The loop over the walk entries. */
  method BuildTree(h: Host, dir: Path) returns (r: Result<seq<Node>>)
    ensures r == Built(h, dir)
  {
    if dir !in h.walks {
      return Err(WalkError("walk"));
    }
    var entries := h.walks[dir];
    var tree: seq<Node> := [];
    var k := 0;
    while k < |entries|
      invariant k <= |entries|
      invariant Grow(tree, dir, entries[k..]) == Built(h, dir)
    {
      var step := Step(tree, dir, entries[k]);
      if step.Err? {
        return Err(step.error);
      }
      tree := step.value;
      k := k + 1;
    }
    r := Ok(tree);
  }

  /** The stack loop: pop a frame, show its next child, push the frame back and then the child's frame. */
  method Flatten(tree: seq<Node>, dir: Path, dirs: seq<Path>, display: seq<string>)
    returns (newDirs: seq<Path>, newDisplay: seq<string>)
    ensures newDirs == dirs + Dirs(FlatFrom(tree, 0, dir, ""))
    ensures newDisplay == display + Texts(FlatFrom(tree, 0, dir, ""))
  {
    newDirs, newDisplay := dirs, display;
    var stack := [Frame(tree, 0, "")];
    ghost var out: seq<Line> := [];
    assert Pending(stack, dir) == FlatFrom(tree, 0, dir, "") + Pending([], dir);
    while |stack| > 0
      invariant out + Pending(stack, dir) == FlatFrom(tree, 0, dir, "")
      invariant newDirs == dirs + Dirs(out) && newDisplay == display + Texts(out)
      decreases |Pending(stack, dir)|, |stack|
    {
      ghost var before := Pending(stack, dir);
      var v := stack[|stack| - 1];
      var rest := stack[..|stack| - 1];
      if v.idx >= |v.items| {
        PopDone(stack, dir);
        stack := rest;
        continue;
      }
      var last := v.idx + 1 == |v.items|;
      var b := v.items[v.idx];
      var line := Line(Under(dir, b.path), v.prefix + FT.Mark(last) + b.name);
      var next := Frame(b.items, 0, v.prefix + FT.Indent(last));
      stack := rest;
      if v.idx + 1 < |v.items| {
        stack := stack + [v.(idx := v.idx + 1)];
      }
      if |b.items| > 0 {
        stack := stack + [next];
      }
      StepKeeps(out, rest, v, dir, stack, line, FlatFrom(tree, 0, dir, ""));
      newDirs := newDirs + [line.dir];
      newDisplay := newDisplay + [line.text];
      out := out + [line];
    }
    assert out + [] == out;
  }
}
