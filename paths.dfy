/**
 * File paths as `std::path::Path` sees them: an absolute flag and the
 * sequence of components. A leading "." component is Rust's `CurDir`;
 * ".." is `ParentDir`; every other component is a `Normal` name.
 */
module Paths {
  import opened Wrappers
  import opened Strings
  import Sorting

  datatype Path = Path(absolute: bool, comps: seq<string>)

  const Empty := Path(false, [])
  const CurDir := Path(false, ["."])

  /** `Path::parent`: the path without its last component; None for "" and "/". */
  function Parent(p: Path): (r: Option<Path>)
    ensures r.Some? ==> r.value.absolute == p.absolute && |r.value.comps| + 1 == |p.comps|
    ensures r.None? <==> p.comps == []
  {
    if p.comps == [] then None else Some(Path(p.absolute, p.comps[..|p.comps| - 1]))
  }

  /** `Path::file_name`: the last component when it is a normal name. */
  function FileName(p: Path): (r: Option<string>)
    ensures r.Some? ==> |p.comps| > 0 && r.value == p.comps[|p.comps| - 1] && r.value != []
  {
    if p.comps == [] then None
    else
      var last := p.comps[|p.comps| - 1];
      if last == "." || last == ".." || last == [] then None else Some(last)
  }

  /** `Path::join` of a single name. */
  function Join(p: Path, name: string): (r: Path)
    ensures Parent(r) == Some(p)
  {
    Path(p.absolute, p.comps + [name])
  }

  /** `Path::join` of a relative path. */
  function JoinPath(p: Path, rel: Path): Path
    requires !rel.absolute
  {
    Path(p.absolute, p.comps + rel.comps)
  }

  /** Index of the last '.' in a name, if any. */
  function LastDot(name: string): (r: Option<nat>)
    ensures r.Some? ==> r.value < |name| && name[r.value] == '.'
    ensures r.Some? ==> forall j :: r.value < j < |name| ==> name[j] != '.'
    ensures r.None? ==> forall j :: 0 <= j < |name| ==> name[j] != '.'
  {
    if |name| == 0 then None
    else if name[|name| - 1] == '.' then Some(|name| - 1)
    else LastDot(name[..|name| - 1])
  }

  /**
   * `Path::extension`: the part of the file name after its last '.', unless
   * that '.' is the name's first character (".bashrc" has no extension).
   */
  function ExtensionOfName(name: string): Option<string> {
    match LastDot(name)
    case None => None
    case Some(k) => if k == 0 then None else Some(name[k + 1..])
  }

  function Extension(p: Path): Option<string> {
    match FileName(p)
    case None => None
    case Some(name) => ExtensionOfName(name)
  }

  /** `Path::file_stem`: the file name without its extension. */
  function StemOfName(name: string): string {
    match LastDot(name)
    case None => name
    case Some(k) => if k == 0 then name else name[..k]
  }

  /**
   * `PathBuf::set_extension(ext)`: replaces the extension of the file name
   * (or adds one); does nothing when the path has no file name.
   */
  function SetExtension(p: Path, ext: string): (r: Path)
    ensures Parent(r) == Parent(p)
  {
    match FileName(p)
    case None => p
    case Some(name) =>
      var stem := StemOfName(name);
      var newName := if ext == [] then stem else stem + "." + ext;
      Path(p.absolute, p.comps[..|p.comps| - 1] + [newName])
  }

  /** The editor's rule for new and saved-as files: no extension means ".md". */
  function DefaultMd(p: Path): Path {
    if Extension(p).None? then SetExtension(p, "md") else p
  }

  /** The last '.' of a name is where its contract says: there is only one such index. */
  lemma LastDotAt(s: string, k: nat)
    requires k < |s| && s[k] == '.'
    requires forall j :: k < j < |s| ==> s[j] != '.'
    ensures LastDot(s) == Some(k)
  {
  }

  lemma LastDotAppend(name: string, ext: string)
    requires forall j :: 0 <= j < |ext| ==> ext[j] != '.'
    ensures LastDot(name + "." + ext) == Some(|name|)
  {
    var s := name + "." + ext;
    forall j | |name| < j < |s| ensures s[j] != '.' {
      assert s[j] == ext[j - |name| - 1];
    }
    LastDotAt(s, |name|);
  }

  /**
   * A path with a file name but no extension gets exactly the extension "md"
   * in the same directory; a path that already has an extension is left alone.
   */
  lemma DefaultMdExtension(p: Path)
    ensures FileName(p).Some? ==> Extension(DefaultMd(p)).Some?
    ensures Extension(p).None? && FileName(p).Some? ==> Extension(DefaultMd(p)) == Some("md")
    ensures Extension(p).Some? ==> DefaultMd(p) == p
    ensures Parent(DefaultMd(p)) == Parent(p)
  {
    if Extension(p).None? && FileName(p).Some? {
      var name := FileName(p).value;
      var stem := StemOfName(name);
      assert stem == name;
      LastDotAppend(stem, "md");
      var q := DefaultMd(p);
      assert q.comps[|q.comps| - 1] == stem + "." + "md";
      assert FileName(q) == Some(stem + "." + "md");
      assert (stem + "." + "md")[|stem| + 1..] == "md";
    }
  }

  /** Applying the default twice is the same as once. */
  lemma DefaultMdIdempotent(p: Path)
    ensures DefaultMd(DefaultMd(p)) == DefaultMd(p)
  {
    DefaultMdExtension(p);
  }

  /** True when the first component is `CurDir` (`path.starts_with(".")`). */
  predicate StartsWithCurDir(p: Path) {
    !p.absolute && |p.comps| > 0 && p.comps[0] == "."
  }

  /** `PathBuf::from(".").join(p)` for a relative path, `p` itself otherwise. */
  function WithCurDir(p: Path): (r: Path)
    ensures !p.absolute ==> StartsWithCurDir(r)
  {
    if p.absolute || StartsWithCurDir(p) then p else Path(false, ["."] + p.comps)
  }

  // ---------------------------------------------------------------------------
  // The order of paths: component by component, `RootDir` < `CurDir` <
  // `ParentDir` < normal names, names by string order.

  function Rank(c: string): nat {
    if c == "." then 0 else if c == ".." then 1 else 2
  }

  predicate CompLess(x: string, y: string) {
    Rank(x) < Rank(y) || (Rank(x) == 2 && Rank(y) == 2 && StrLess(x, y))
  }

  predicate CompsLess(a: seq<string>, b: seq<string>)
    decreases |a|
  {
    if |a| == 0 then |b| > 0
    else if |b| == 0 then false
    else if CompLess(a[0], b[0]) then true
    else if a[0] == b[0] then CompsLess(a[1..], b[1..])
    else false
  }

  /**
   * Absolute paths first, then by components. Rust's order would put the
   * empty relative path before "/"; the model never sorts an empty
   * relative path, because relative matches always start with ".".
   */
  predicate PathLess(a: Path, b: Path) {
    if a.absolute != b.absolute then a.absolute else CompsLess(a.comps, b.comps)
  }

  lemma CompLessStrict(x: string, y: string, z: string)
    ensures !CompLess(x, x)
    ensures CompLess(x, y) && CompLess(y, z) ==> CompLess(x, z)
    ensures x != y ==> CompLess(x, y) || CompLess(y, x)
  {
    StrLessIrreflexive(x);
    if CompLess(x, y) && CompLess(y, z) && Rank(x) == 2 && Rank(y) == 2 && Rank(z) == 2 {
      StrLessTransitive(x, y, z);
    }
    if x != y && Rank(x) == 2 && Rank(y) == 2 {
      StrLessTotal(x, y);
    }
  }

  lemma {:induction false} CompsLessIrreflexive(a: seq<string>)
    ensures !CompsLess(a, a)
    decreases |a|
  {
    if |a| > 0 {
      CompLessStrict(a[0], a[0], a[0]);
      CompsLessIrreflexive(a[1..]);
    }
  }

  lemma {:induction false} CompsLessTransitive(a: seq<string>, b: seq<string>, c: seq<string>)
    requires CompsLess(a, b) && CompsLess(b, c)
    ensures CompsLess(a, c)
    decreases |a|
  {
    if |a| > 0 && |b| > 0 && |c| > 0 {
      CompLessStrict(a[0], b[0], c[0]);
      CompLessStrict(b[0], a[0], c[0]);
      CompLessStrict(a[0], c[0], b[0]);
      if a[0] == b[0] && b[0] == c[0] {
        CompsLessTransitive(a[1..], b[1..], c[1..]);
      }
    }
  }

  lemma {:induction false} CompsLessTotal(a: seq<string>, b: seq<string>)
    requires a != b
    ensures CompsLess(a, b) || CompsLess(b, a)
    decreases |a|
  {
    if |a| > 0 && |b| > 0 {
      CompLessStrict(a[0], b[0], b[0]);
      if a[0] == b[0] {
        assert a == [a[0]] + a[1..] && b == [b[0]] + b[1..];
        CompsLessTotal(a[1..], b[1..]);
      }
    }
  }

  /** The path order is a strict total order, so sorting by it is well defined. */
  lemma PathLessIsStrictTotal()
    ensures Sorting.StrictTotalOrder(PathLess)
  {
    forall x: Path ensures !PathLess(x, x) {
      CompsLessIrreflexive(x.comps);
    }
    forall x: Path, y: Path, z: Path | PathLess(x, y) && PathLess(y, z)
      ensures PathLess(x, z)
    {
      if x.absolute == y.absolute && y.absolute == z.absolute {
        CompsLessTransitive(x.comps, y.comps, z.comps);
      }
    }
    forall x: Path, y: Path | x != y ensures PathLess(x, y) || PathLess(y, x) {
      if x.absolute == y.absolute {
        CompsLessTotal(x.comps, y.comps);
      }
    }
  }

  /** The `str` order is a strict total order. */
  lemma StrLessIsStrictTotal()
    ensures Sorting.StrictTotalOrder(StrLess)
  {
    forall x: string ensures !StrLess(x, x) {
      StrLessIrreflexive(x);
    }
    forall x: string, y: string, z: string | StrLess(x, y) && StrLess(y, z)
      ensures StrLess(x, z)
    {
      StrLessTransitive(x, y, z);
    }
    forall x: string, y: string | x != y ensures StrLess(x, y) || StrLess(y, x) {
      StrLessTotal(x, y);
    }
  }

  /** `paths.sort(); paths.dedup();` */
  function SortDedupPaths(xs: seq<Path>): (r: seq<Path>)
    ensures Sorting.StrictlySorted(r, PathLess)
    ensures forall p :: p in r <==> p in xs
  {
    PathLessIsStrictTotal();
    Sorting.SortDedup(xs, PathLess)
  }

  /** `paths.sort()`: sorted, and a permutation of the input. */
  function SortPaths(xs: seq<Path>): (r: seq<Path>)
    ensures Sorting.Sorted(r, PathLess)
    ensures multiset(r) == multiset(xs)
  {
    PathLessIsStrictTotal();
    Sorting.Sort(xs, PathLess)
  }

  /** `strings.sort(); strings.dedup();` */
  function SortDedupStrings(xs: seq<string>): (r: seq<string>)
    ensures Sorting.StrictlySorted(r, StrLess)
    ensures forall s :: s in r <==> s in xs
  {
    StrLessIsStrictTotal();
    Sorting.SortDedup(xs, StrLess)
  }

  /** A list that is already sorted without duplicates is its own sort-and-dedup. */
  lemma SortDedupStringsSorted(xs: seq<string>)
    requires Sorting.StrictlySorted(xs, StrLess)
    ensures SortDedupStrings(xs) == xs
  {
    StrLessIsStrictTotal();
    Sorting.SortedUnique(SortDedupStrings(xs), xs, StrLess);
  }
}
