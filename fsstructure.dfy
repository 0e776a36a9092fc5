/**
 * The older file-tree model, `FileSysStructure` of `fs_structure.rs`: the
 * project root and its name, the directory tree drawn by a recursive walk
 * (`dirs` and `display` side by side), and the markdown files of the
 * current directory.
 */
module FsStructure {
  import opened Wrappers
  import opened Paths
  import opened Host
  import Roots
  import Sorting

  /** The fields of `FileSysStructure`. */
  datatype FsState = FsState(
    root: Path,
    name: string,
    dirs: seq<Path>,
    display: seq<string>,
    filesDir: Path,
    files: seq<Path>)

  /** `FileSysStructure::default`. */
  const Default := FsState(Paths.Empty, "", [], [], Paths.Empty, [])

  /** `dirs` and `display` are filled in lockstep. */
  predicate Lockstep(s: FsState) {
    |s.dirs| == |s.display|
  }

  // ---------------------------------------------------------------------------
  // find_root

  /** `find_root`: a relative path is first made to start with ".". */
  function FindRootOf(h: Host, p: Path): Option<Path> {
    Roots.RootFrom(h, WithCurDir(p))
  }

  /** The root `load_filesys` compares with: the found root, or `path` itself. */
  function NewRoot(h: Host, p: Path): Path {
    FindRootOf(h, p).GetOr(p)
  }

  // ---------------------------------------------------------------------------
  // fs_recurse

  /** The one error `fs_recurse` reports for a failed listing entry. */
  const EntryError := IoError("read_dir entry")

  /**
   * The scan of one listing: a failed entry is an error, ".git" is
   * skipped, and only directories are kept, in listing order.
   */
  function Subdirs(h: Host, dir: Path, names: seq<Option<string>>): (r: Result<seq<Path>>)
    ensures r.Ok? ==> forall f :: f in r.value ==> Parent(f) == Some(dir)
    ensures r.Err? <==> exists k :: 0 <= k < |names| && names[k].None?
    ensures r.Err? ==> r.error == EntryError
  {
    if |names| == 0 then Ok([])
    else
      var init := names[..|names| - 1];
      assert names == init + [names[|names| - 1]];
      match Subdirs(h, dir, init)
      case Err(e) => Err(e)
      case Ok(tmp) =>
        match names[|names| - 1]
        case None => Err(EntryError)
        case Some(n) =>
          var f := Join(dir, n);
          if FileName(f) == Some(".git") || f !in h.dirs then Ok(tmp) else Ok(tmp + [f])
  }

  /** A measure that shrinks from a listed directory to any of its children. */
  function Height(h: Host, dir: Path): nat {
    if dir in h.listings && |dir.comps| <= h.depth then h.depth - |dir.comps| + 1 else 0
  }

  /**
   * `fs_recurse(dir, prefix)`: the directories below `dir` in preorder
   * (siblings sorted) with their display lines; on an error, what was
   * pushed before it.
   */
  function Tree(h: Host, dir: Path, prefix: string): (r: (Result<()>, seq<Path>, seq<string>))
    requires Finite(h)
    ensures |r.1| == |r.2|
    decreases Height(h, dir), 1, 0
  {
    if dir !in h.listings then (Err(IoError("read_dir")), [], [])
    else
      match Subdirs(h, dir, h.listings[dir])
      case Err(e) => (Err(e), [], [])
      case Ok(tmp) =>
        var kids := SortPaths(tmp);
        assert forall f :: f in kids ==> f in multiset(tmp);
        Children(h, dir, kids, 0, prefix)
  }

  /** `p` lies strictly inside `dir`. */
  predicate Below(p: Path, dir: Path) {
    p.absolute == dir.absolute && |dir.comps| < |p.comps| && p.comps[..|dir.comps|] == dir.comps
  }

  /** The marker drawn before a name: the last sibling closes the branch. */
  function Mark(last: bool): string {
    if last then "└" else "├"
  }

  /** What the children of an entry inherit below the entry's marker. */
  function Indent(last: bool): string {
    if last then " " else "│"
  }

  /** The display name of a directory ("???" when it has no file name). */
  function DisplayName(f: Path): string {
    match FileName(f)
    case Some(n) => n
    case None => "???"
  }

  /** The loop of `fs_recurse` over the sorted subdirectories, from index `i`. */
  function Children(h: Host, dir: Path, kids: seq<Path>, i: nat, prefix: string): (r: (Result<()>, seq<Path>, seq<string>))
    requires Finite(h) && dir in h.listings && i <= |kids|
    requires forall f :: f in kids ==> Parent(f) == Some(dir)
    ensures |r.1| == |r.2|
    decreases Height(h, dir), 0, |kids| - i
  {
    if i == |kids| then (Ok(()), [], [])
    else
      var f := kids[i];
      var last := i + 1 == |kids|;
      var line := prefix + Mark(last) + DisplayName(f);
      assert Parent(f) == Some(dir);
      var sub := Tree(h, f, prefix + Indent(last));
      if sub.0.Err? then
        (sub.0, [f] + sub.1, [line] + sub.2)
      else
        var rest := Children(h, dir, kids, i + 1, prefix);
        (rest.0, [f] + sub.1 + rest.1, [line] + sub.2 + rest.2)
  }

  /** Every line starts with `prefix`. */
  predicate Prefixed(lines: seq<string>, prefix: string) {
    forall k :: 0 <= k < |lines| ==> prefix <= lines[k]
  }

  /** Every path lies below `dir`. */
  predicate AllBelow(ps: seq<Path>, dir: Path) {
    forall k :: 0 <= k < |ps| ==> Below(ps[k], dir)
  }

  lemma BelowParent(dir: Path, f: Path, ps: seq<Path>)
    requires Parent(f) == Some(dir) && AllBelow(ps, f)
    ensures Below(f, dir) && AllBelow(ps, dir)
  {
    forall k | 0 <= k < |ps| ensures Below(ps[k], dir) {
      assert ps[k].comps[..|dir.comps|] == ps[k].comps[..|f.comps|][..|dir.comps|];
    }
  }

  lemma PrefixedWeaken(lines: seq<string>, prefix: string, more: string)
    requires Prefixed(lines, prefix + more)
    ensures Prefixed(lines, prefix)
  {
    forall k | 0 <= k < |lines| ensures prefix <= lines[k] {
      assert prefix <= prefix + more;
    }
  }

  /** One child of the walk: its line, its subtree and what follows keep the prefix and stay below `dir`. */
  lemma ChildShape(line: string, f: Path, sub: (Result<()>, seq<Path>, seq<string>),
                   rest: (Result<()>, seq<Path>, seq<string>), r: (Result<()>, seq<Path>, seq<string>),
                   prefix: string, dir: Path)
    requires prefix <= line && Below(f, dir)
    requires Prefixed(sub.2, prefix) && AllBelow(sub.1, dir)
    requires sub.0.Ok? ==> Prefixed(rest.2, prefix) && AllBelow(rest.1, dir)
    requires sub.0.Err? ==> r == (sub.0, [f] + sub.1, [line] + sub.2)
    requires sub.0.Ok? ==> r == (rest.0, [f] + sub.1 + rest.1, [line] + sub.2 + rest.2)
    ensures Prefixed(r.2, prefix) && AllBelow(r.1, dir)
  {
    assert Prefixed([line], prefix) && AllBelow([f], dir);
    if sub.0.Ok? {
      ShapeConcat([line], sub.2, rest.2, prefix, [f], sub.1, rest.1, dir);
    } else {
      ShapeConcat([line], sub.2, [], prefix, [f], sub.1, [], dir);
    }
  }

  lemma ShapeConcat(a: seq<string>, b: seq<string>, c: seq<string>, prefix: string,
                    x: seq<Path>, y: seq<Path>, z: seq<Path>, dir: Path)
    requires Prefixed(a, prefix) && Prefixed(b, prefix) && Prefixed(c, prefix)
    requires AllBelow(x, dir) && AllBelow(y, dir) && AllBelow(z, dir)
    ensures Prefixed(a + b, prefix) && Prefixed(a + b + c, prefix)
    ensures AllBelow(x + y, dir) && AllBelow(x + y + z, dir)
  {
  }

  /**
   * Every line of the walk starts with the prefix it was given, and every
   * directory it lists lies below the directory it started from.
   */
  lemma {:induction false} TreeShape(h: Host, dir: Path, prefix: string)
    requires Finite(h)
    ensures Prefixed(Tree(h, dir, prefix).2, prefix)
    ensures AllBelow(Tree(h, dir, prefix).1, dir)
    decreases Height(h, dir), 1, 0
  {
    if dir in h.listings {
      match Subdirs(h, dir, h.listings[dir]) {
        case Err(_) =>
        case Ok(tmp) =>
          var kids := SortPaths(tmp);
          assert forall f :: f in kids ==> f in multiset(tmp);
          ChildrenShape(h, dir, kids, 0, prefix);
      }
    }
  }

  lemma {:induction false} ChildrenShape(h: Host, dir: Path, kids: seq<Path>, i: nat, prefix: string)
    requires Finite(h) && dir in h.listings && i <= |kids|
    requires forall f :: f in kids ==> Parent(f) == Some(dir)
    ensures Prefixed(Children(h, dir, kids, i, prefix).2, prefix)
    ensures AllBelow(Children(h, dir, kids, i, prefix).1, dir)
    decreases Height(h, dir), 0, |kids| - i
  {
    if i < |kids| {
      var f := kids[i];
      var last := i + 1 == |kids|;
      assert Parent(f) == Some(dir);
      TreeShape(h, f, prefix + Indent(last));
      if Tree(h, f, prefix + Indent(last)).0.Ok? {
        ChildrenShape(h, dir, kids, i + 1, prefix);
      }
      ChildrenShapeStep(h, dir, kids, i, prefix);
    }
  }

  /** The step of `ChildrenShape` for child `i`, from the shape of its subtree and of the children after it. */
  lemma ChildrenShapeStep(h: Host, dir: Path, kids: seq<Path>, i: nat, prefix: string)
    requires Finite(h) && dir in h.listings && i < |kids|
    requires forall f :: f in kids ==> Parent(f) == Some(dir)
    requires var sub := Tree(h, kids[i], prefix + Indent(i + 1 == |kids|));
      && Prefixed(sub.2, prefix + Indent(i + 1 == |kids|)) && AllBelow(sub.1, kids[i])
      && (sub.0.Ok? ==>
            Prefixed(Children(h, dir, kids, i + 1, prefix).2, prefix) &&
            AllBelow(Children(h, dir, kids, i + 1, prefix).1, dir))
    ensures Prefixed(Children(h, dir, kids, i, prefix).2, prefix)
    ensures AllBelow(Children(h, dir, kids, i, prefix).1, dir)
  {
    var f := kids[i];
    var last := i + 1 == |kids|;
    var line := prefix + Mark(last) + DisplayName(f);
    assert Parent(f) == Some(dir);
    var sub := Tree(h, f, prefix + Indent(last));
    BelowParent(dir, f, sub.1);
    PrefixedWeaken(sub.2, prefix, Indent(last));
    assert prefix <= line;
    var rest := Children(h, dir, kids, i + 1, prefix);
    ChildrenStep(h, dir, kids, i, prefix, line, sub, rest);
    ChildShape(line, f, sub, rest, Children(h, dir, kids, i, prefix), prefix, dir);
  }

  // ---------------------------------------------------------------------------
  // load_current

  /** `load_current`'s listing: entries whose extension is "md"; none when the directory cannot be read. */
  function MdFiles(dir: Path, names: seq<Option<string>>): (r: seq<Path>)
    ensures forall f :: f in r ==> Parent(f) == Some(dir) && Extension(f) == Some("md")
    ensures forall n :: Some(n) in names && Extension(Join(dir, n)) == Some("md") ==> Join(dir, n) in r
  {
    if |names| == 0 then []
    else
      var init := names[..|names| - 1];
      assert names == init + [names[|names| - 1]];
      var fs := MdFiles(dir, init);
      match names[|names| - 1]
      case None => fs
      case Some(n) => if Extension(Join(dir, n)) == Some("md") then fs + [Join(dir, n)] else fs
  }

  function Current(s: FsState, h: Host, path: Path): (r: FsState)
    ensures r.filesDir == path
    ensures r == s.(filesDir := path, files := r.files)
    ensures path !in h.listings ==> r.files == []
  {
    s.(filesDir := path, files := if path in h.listings then MdFiles(path, h.listings[path]) else [])
  }

  // ---------------------------------------------------------------------------
  // load_filesys

  /**
   * The rebuild after a root change: the name falls back from the cargo
   * package name to the mdbook title to the root's file name to "";
   * then the tree below the root.
   */
  function Rescan(s: FsState, h: Host, root: Path): (r: (Result<()>, FsState))
    requires Finite(h)
    ensures r.1.root == root && Lockstep(r.1)
    ensures r.1.filesDir == s.filesDir && r.1.files == s.files
    ensures r.0.Ok? ==> r.1.dirs == Tree(h, root, "").1 && r.1.display == Tree(h, root, "").2
  {
    var s1 := s.(name := "", root := root, dirs := [], display := []);
    match ManifestName(h, root, "Cargo.toml", "package", "name")
    case Err(e) => (Err(e), s1)
    case Ok(Some(n)) => Walk(s1.(name := n), h)
    case Ok(None) =>
      match ManifestName(h, root, "book.toml", "package", "title")
      case Err(e) => (Err(e), s1)
      case Ok(Some(n)) => Walk(s1.(name := n), h)
      case Ok(None) => Walk(s1.(name := FileName(root).GetOr("")), h)
  }

  function Walk(s: FsState, h: Host): (r: (Result<()>, FsState))
    requires Finite(h)
    ensures r.0 == Tree(h, s.root, "").0
    ensures r.1 == s.(dirs := s.dirs + Tree(h, s.root, "").1, display := s.display + Tree(h, s.root, "").2)
  {
    var t := Tree(h, s.root, "");
    (t.0, s.(dirs := s.dirs + t.1, display := s.display + t.2))
  }

  /** `load_filesys` as written: it compares with the found root but stores `path`. */
  function FilesysAsWritten(s: FsState, h: Host, p: Path): (r: (Result<()>, FsState))
    requires Finite(h)
    ensures s.root == NewRoot(h, p) ==> r == (Ok(()), s)
    ensures s.root != NewRoot(h, p) ==> r.1.root == p
  {
    if s.root == NewRoot(h, p) then (Ok(()), s) else Rescan(s, h, p)
  }

  /** `load_filesys` storing the root it found, as the newer `fsys` version does. */
  function Filesys(s: FsState, h: Host, p: Path): (r: (Result<()>, FsState))
    requires Finite(h)
    ensures r.1.root == NewRoot(h, p)
    ensures Lockstep(s) ==> Lockstep(r.1)
    ensures s.root == NewRoot(h, p) ==> r == (Ok(()), s)
  {
    if s.root == NewRoot(h, p) then (Ok(()), s) else Rescan(s, h, NewRoot(h, p))
  }

  /**
   * The two versions differ only when the stored root changes and the
   * root found is not `p` itself.
   */
  lemma FilesysAgrees(s: FsState, h: Host, p: Path)
    requires Finite(h)
    ensures FilesysAsWritten(s, h, p) == Filesys(s, h, p) <==> s.root == NewRoot(h, p) || NewRoot(h, p) == p
  {
  }

  /**
   * `load`: the current directory's files, then the tree. Afterwards the
   * structure lists the markdown files of `p` and stands at the root found
   * for `p`.
   */
  function Loaded(s: FsState, h: Host, p: Path): (r: (Result<()>, FsState))
    requires Finite(h)
    ensures r.1.filesDir == p && r.1.files == Current(s, h, p).files
    ensures r.1.root == NewRoot(h, p)
    ensures Lockstep(s) ==> Lockstep(r.1)
    ensures s.root == NewRoot(h, p) ==> r == (Ok(()), Current(s, h, p))
  {
    Filesys(Current(s, h, p), h, p)
  }

  /**
   * Loading the same directory again finds the same root and changes
   * nothing, whatever the first load reported.
   */
  lemma FilesysIdempotent(s: FsState, h: Host, p: Path)
    requires Finite(h)
    ensures var s1 := Filesys(s, h, p).1; Filesys(s1, h, p) == (Ok(()), s1)
  {
  }

  /**
   * After a successful change of root the tree is the walk of the found
   * root, and the name is the project's own when it has one.
   */
  lemma FilesysShowsRoot(s: FsState, h: Host, p: Path)
    requires Finite(h)
    requires s.root != NewRoot(h, p)
    ensures var (res, s1) := Filesys(s, h, p);
      var root := NewRoot(h, p);
      res.Ok? ==> (s1.dirs == Tree(h, root, "").1 && s1.display == Tree(h, root, "").2 &&
        (ManifestName(h, root, "Cargo.toml", "package", "name").Ok? &&
         ManifestName(h, root, "Cargo.toml", "package", "name").value.Some? ==>
           s1.name == ManifestName(h, root, "Cargo.toml", "package", "name").value.value))
  {
  }

  const ProjectDir := Path(true, ["proj"])
  const DocsDir := Path(true, ["proj", "docs"])

  /** A cargo project "demo" at /proj with one subdirectory, docs. */
  const DemoHost := Host(
    {Join(ProjectDir, "Cargo.toml")},
    map[Join(ProjectDir, "Cargo.toml") := Ok(map["package" := TopTable(map["name" := Str("demo")])])],
    map[ProjectDir := [Some("docs")], DocsDir := []],
    {DocsDir},
    {},
    map[],
    map[],
    2)

  /**
   * Loading /proj/docs inside the project: as written the model keeps
   * /proj/docs as the root and names it "docs", with an empty tree; the
   * corrected version shows the project "demo" with its docs directory.
   */
  lemma AsWrittenKeepsSubdirectory()
    ensures Finite(DemoHost)
    ensures NewRoot(DemoHost, DocsDir) == ProjectDir
    ensures var r := FilesysAsWritten(Default, DemoHost, DocsDir).1;
      r.root == DocsDir && r.name == "docs" && r.dirs == []
    ensures var r := Filesys(Default, DemoHost, DocsDir).1;
      r.root == ProjectDir && r.name == "demo" && r.dirs == [DocsDir] && r.display == ["└docs"]
  {
    var h := DemoHost;
    DemoTrees();
    DemoRoot();
    assert ManifestName(h, DocsDir, "Cargo.toml", "package", "name") == Ok(None);
    assert ManifestName(h, DocsDir, "book.toml", "package", "title") == Ok(None);
    assert FileName(DocsDir) == Some("docs");
    assert Rescan(Default, h, DocsDir).1.name == "docs";
    assert Rescan(Default, h, ProjectDir).1.name == "demo";
  }

  /** The demo's `docs` directory has no marker of its own; the project root /proj is found above it. */
  lemma DemoRoot()
    ensures Finite(DemoHost)
    ensures NewRoot(DemoHost, DocsDir) == ProjectDir
    ensures ManifestName(DemoHost, ProjectDir, "Cargo.toml", "package", "name") == Ok(Some("demo"))
  {
    var h := DemoHost;
    assert Join(DocsDir, "Cargo.toml") !in h.present;
    assert Join(DocsDir, "book.toml") !in h.present;
    assert DocsDir.comps[..1] == ["proj"];
    assert Parent(DocsDir) == Some(ProjectDir);
    assert Roots.RootFrom(h, DocsDir) == Some(ProjectDir);
  }

  /** The walks of the demo project: /proj lists docs, which has no subdirectories. */
  lemma DemoTrees()
    ensures Finite(DemoHost)
    ensures Tree(DemoHost, DocsDir, "") == (Ok(()), [], [])
    ensures Tree(DemoHost, ProjectDir, "") == (Ok(()), [DocsDir], ["└docs"])
  {
    var h := DemoHost;
    assert Join(ProjectDir, "docs") == DocsDir;
    assert FileName(DocsDir) == Some("docs");
    assert [Some("docs")][..0] == [];
    assert Subdirs(h, DocsDir, []) == Ok([]);
    assert Tree(h, DocsDir, "") == (Ok(()), [], []);
    var names: seq<Option<string>> := [Some("docs")];
    assert names[..|names| - 1] == [];
    assert "docs" != ".git";
    assert DocsDir in h.dirs;
    assert Subdirs(h, ProjectDir, names) == Ok([] + [DocsDir]);
    assert h.listings[ProjectDir] == names;
    assert SortPaths([DocsDir]) == [DocsDir];
    assert Tree(h, DocsDir, " ") == (Ok(()), [], []);
    assert DisplayName(DocsDir) == "docs";
    assert "" + Mark(true) + "docs" == "└docs";
    ChildrenStep(h, ProjectDir, [DocsDir], 0, "", "└docs", Tree(h, DocsDir, " "), (Ok(()), [], []));
    assert [DocsDir] + [] + [] == [DocsDir] && ["└docs"] + [] + [] == ["└docs"];
    assert Children(h, ProjectDir, [DocsDir], 1, "") == (Ok(()), [], []);
    assert Children(h, ProjectDir, [DocsDir], 0, "") == (Ok(()), [DocsDir], ["└docs"]);
  }


  // ---------------------------------------------------------------------------
  // The object

  class FileSysStructure {
    var root: Path
    var name: string
    var dirs: seq<Path>
    var display: seq<string>
    var filesDir: Path
    var files: seq<Path>

    function State(): FsState
      reads this
    {
      FsState(root, name, dirs, display, filesDir, files)
    }

    constructor ()
      ensures State() == Default
    {
      root, name, dirs, display, filesDir, files := Paths.Empty, "", [], [], Paths.Empty, [];
    }

    /** `load`. */
    method Load(h: Host, p: Path) returns (res: Result<()>)
      requires Finite(h)
      modifies this
      ensures (res, State()) == Loaded(old(State()), h, p)
    {
      LoadCurrent(h, p);
      res := LoadFilesys(h, p);
    }

    /** `load_filesys`, storing the root it found. */
    method LoadFilesys(h: Host, p: Path) returns (res: Result<()>)
      requires Finite(h)
      modifies this
      ensures (res, State()) == Filesys(old(State()), h, p)
    {
      var found := FindRoot(h, p);
      var newRoot := if found.Some? then found.value else p;
      if root == newRoot {
        return Ok(());
      }
      name := "";
      root := newRoot;
      dirs := [];
      display := [];
      var cargo := ManifestName(h, root, "Cargo.toml", "package", "name");
      if cargo.Err? {
        return Err(cargo.error);
      }
      if cargo.value.Some? {
        name := cargo.value.value;
      } else {
        var book := ManifestName(h, root, "book.toml", "package", "title");
        if book.Err? {
          return Err(book.error);
        }
        if book.value.Some? {
          name := book.value.value;
        } else {
          name := FileName(root).GetOr("");
        }
      }
      res, dirs, display := FsRecurse(h, root, "", dirs, display);
    }

    /** `load_current`: the markdown entries of `path`, in listing order. */
    method LoadCurrent(h: Host, path: Path)
      modifies this
      ensures State() == Current(old(State()), h, path)
    {
      filesDir := path;
      files := [];
      if path in h.listings {
        var names := h.listings[path];
        var k := 0;
        while k < |names|
          invariant k <= |names|
          invariant files == MdFiles(path, names[..k])
          invariant State() == old(State()).(filesDir := path, files := files)
        {
          assert names[..k + 1][..k] == names[..k];
          match names[k] {
            case None =>
            case Some(n) =>
              var f := Join(path, n);
              if Extension(f) == Some("md") {
                files := files + [f];
              }
          }
          k := k + 1;
        }
        assert names[..k] == names;
      }
    }
  }

  /** A walk's outcome with what it pushed appended to two vectors already holding `dirs` and `display`. */
  function Pushed(dirs: seq<Path>, display: seq<string>, c: (Result<()>, seq<Path>, seq<string>)): (Result<()>, seq<Path>, seq<string>) {
    (c.0, dirs + c.1, display + c.2)
  }

  /** The loop invariant of `PushChildren` carried over one subdirectory. */
  lemma PushStep(h: Host, dir: Path, kids: seq<Path>, i: nat, prefix: string, dirs: seq<Path>, display: seq<string>)
    requires Finite(h) && dir in h.listings && i < |kids|
    requires forall f :: f in kids ==> Parent(f) == Some(dir)
    ensures var last := i + 1 == |kids|;
      var sub := Tree(h, kids[i], prefix + Indent(last));
      var dirs' := dirs + [kids[i]] + sub.1;
      var display' := display + [prefix + Mark(last) + DisplayName(kids[i])] + sub.2;
      Pushed(dirs, display, Children(h, dir, kids, i, prefix)) ==
        if sub.0.Err? then (sub.0, dirs', display')
        else Pushed(dirs', display', Children(h, dir, kids, i + 1, prefix))
  {
    var line := prefix + Mark(i + 1 == |kids|) + DisplayName(kids[i]);
    var sub := Tree(h, kids[i], prefix + Indent(i + 1 == |kids|));
    var rest := Children(h, dir, kids, i + 1, prefix);
    ChildrenStep(h, dir, kids, i, prefix, line, sub, rest);
    Assoc(dirs, [kids[i]], sub.1, rest.1);
    Assoc(display, [line], sub.2, rest.2);
  }

  lemma Assoc<T>(a: seq<T>, b: seq<T>, c: seq<T>, d: seq<T>)
    ensures a + (b + c) == a + b + c
    ensures a + (b + c + d) == a + b + c + d
  {
  }

  /** One turn of the loop over the subdirectories: the entry, its subtree, the rest. */
  lemma ChildrenStep(h: Host, dir: Path, kids: seq<Path>, i: nat, prefix: string,
                     line: string, sub: (Result<()>, seq<Path>, seq<string>),
                     rest: (Result<()>, seq<Path>, seq<string>))
    requires Finite(h) && dir in h.listings && i < |kids|
    requires forall f :: f in kids ==> Parent(f) == Some(dir)
    requires line == prefix + Mark(i + 1 == |kids|) + DisplayName(kids[i])
    requires sub == Tree(h, kids[i], prefix + Indent(i + 1 == |kids|))
    requires rest == Children(h, dir, kids, i + 1, prefix)
    ensures sub.0.Err? ==> Children(h, dir, kids, i, prefix) == (sub.0, [kids[i]] + sub.1, [line] + sub.2)
    ensures sub.0.Ok? ==>
      Children(h, dir, kids, i, prefix) == (rest.0, [kids[i]] + sub.1 + rest.1, [line] + sub.2 + rest.2)
  {
  }

  /**
   * `fs_recurse(dir, prefix, dirs, display)`: pushes the walk below `dir`
   * onto the two vectors it is lent.
   */
  method FsRecurse(h: Host, dir: Path, prefix: string, dirs: seq<Path>, display: seq<string>)
    returns (res: Result<()>, dirs': seq<Path>, display': seq<string>)
    requires Finite(h)
    ensures var t := Tree(h, dir, prefix);
      res == t.0 && dirs' == dirs + t.1 && display' == display + t.2
    decreases Height(h, dir), 1
  {
    dirs', display' := dirs, display;
    if dir !in h.listings {
      return Err(IoError("read_dir")), dirs', display';
    }
    var tmp := ScanDirs(h, dir, h.listings[dir]);
    if tmp.Err? {
      return Err(tmp.error), dirs', display';
    }
    var kids := SortPaths(tmp.value);
    assert forall f :: f in kids ==> Parent(f) == Some(dir) by {
      forall f | f in kids ensures Parent(f) == Some(dir) {
        assert f in multiset(tmp.value);
      }
    }
    res, dirs', display' := PushChildren(h, dir, kids, prefix, dirs, display);
  }

  /** The loop of `fs_recurse` over the sorted subdirectories of `dir`. */
  method PushChildren(h: Host, dir: Path, kids: seq<Path>, prefix: string, dirs: seq<Path>, display: seq<string>)
    returns (res: Result<()>, dirs': seq<Path>, display': seq<string>)
    requires Finite(h) && dir in h.listings
    requires forall f :: f in kids ==> Parent(f) == Some(dir)
    ensures var c := Children(h, dir, kids, 0, prefix);
      res == c.0 && dirs' == dirs + c.1 && display' == display + c.2
    decreases Height(h, dir), 0, 1
  {
    dirs', display' := dirs, display;
    var i := 0;
    while i < |kids|
      invariant i <= |kids|
      invariant Pushed(dirs, display, Children(h, dir, kids, 0, prefix)) ==
                Pushed(dirs', display', Children(h, dir, kids, i, prefix))
      decreases |kids| - i
    {
      PushStep(h, dir, kids, i, prefix, dirs', display');
      var r;
      r, dirs', display' := PushChild(h, dir, kids, i, prefix, dirs', display');
      if r.Err? {
        return r, dirs', display';
      }
      i := i + 1;
    }
    assert dirs' + [] == dirs' && display' + [] == display';
    res := Ok(());
  }

  /** One turn of that loop: the entry's line, then the walk below the entry. */
  method PushChild(h: Host, dir: Path, kids: seq<Path>, i: nat, prefix: string, dirs: seq<Path>, display: seq<string>)
    returns (res: Result<()>, dirs': seq<Path>, display': seq<string>)
    requires Finite(h) && dir in h.listings && i < |kids|
    requires forall f :: f in kids ==> Parent(f) == Some(dir)
    ensures var last := i + 1 == |kids|;
      var sub := Tree(h, kids[i], prefix + Indent(last));
      res == sub.0 && dirs' == dirs + [kids[i]] + sub.1 &&
      display' == display + [prefix + Mark(last) + DisplayName(kids[i])] + sub.2
    decreases Height(h, dir), 0, 0
  {
    var f := kids[i];
    var last := i + 1 == |kids|;
    assert Parent(f) == Some(dir);
    res, dirs', display' := FsRecurse(h, f, prefix + Indent(last), dirs + [f], display + [prefix + Mark(last) + DisplayName(f)]);
  }

  /** The scan loop of `fs_recurse` over one listing. */
  method ScanDirs(h: Host, dir: Path, names: seq<Option<string>>) returns (r: Result<seq<Path>>)
    ensures r == Subdirs(h, dir, names)
  {
    var tmp: seq<Path> := [];
    var k := 0;
    while k < |names|
      invariant k <= |names|
      invariant Subdirs(h, dir, names[..k]) == Ok(tmp)
    {
      assert names[..k + 1][..k] == names[..k];
      if names[k].None? {
        return Err(EntryError);
      }
      var f := Join(dir, names[k].value);
      if FileName(f) != Some(".git") && f in h.dirs {
        tmp := tmp + [f];
      }
      k := k + 1;
    }
    assert names[..k] == names;
    r := Ok(tmp);
  }

  /** `find_root` of this version, through the shared loop. */
  method FindRoot(h: Host, p: Path) returns (r: Option<Path>)
    ensures r == FindRootOf(h, p)
  {
    r := Roots.FindRoot(h, WithCurDir(p));
  }
}
