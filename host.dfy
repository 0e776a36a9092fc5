/**
 * The file system as the file-tree code queries it. Every query the code
 * makes (`Path::exists`, `is_dir`, `is_file`, `fs::read_dir`,
 * `fs::read_to_string` followed by a TOML parse, `glob::glob` and
 * `ignore::WalkBuilder`) is answered from a table of this value.
 */
module Host {
  import opened Wrappers
  import opened Paths

  /** A value inside a TOML table: only strings are read. */
  datatype Scalar = Str(s: string) | NonStr

  /** A top-level TOML value: a table of scalars, or anything else. */
  datatype TomlTop = TopTable(entries: map<string, Scalar>) | TopOther

  type TomlDoc = map<string, TomlTop>

  datatype Host = Host(
    present: set<Path>,                              // `Path::exists`
    manifests: map<Path, Result<TomlDoc>>,           // read + parse; an absent entry fails to read
    listings: map<Path, seq<Option<string>>>,        // `fs::read_dir`: entry names, None for a failed entry
    dirs: set<Path>,                                 // `Path::is_dir`
    files: set<Path>,                                // `Path::is_file`
    globs: map<(Path, string), seq<Option<Path>>>,   // `glob::glob(dir.join(pattern))`; absent: malformed pattern
    walks: map<Path, seq<Option<Path>>>,             // `WalkBuilder::new(dir)`, None for a failed entry
    depth: nat)                                      // no listed directory has more components

  /** The host describes a finite tree: listed directories are at most `depth` deep. */
  predicate Finite(h: Host) {
    forall p :: p in h.listings ==> |p.comps| <= h.depth
  }

  /**
   * `cargo_name` / `mdbook_name`: when `dir.join(file)` exists, it is read
   * and parsed (either may fail); the value is the string under `key` in
   * the table `table` ("" when it is not a string), or None.
   */
  function ManifestName(h: Host, dir: Path, file: string, table: string, key: string): (r: Result<Option<string>>)
    ensures Join(dir, file) !in h.present ==> r == Ok(None)
    ensures r.Err? ==> Join(dir, file) in h.present
  {
    var m := Join(dir, file);
    if m !in h.present then Ok(None)
    else if m !in h.manifests then Err(IoError("read_to_string"))
    else
      match h.manifests[m]
      case Err(e) => Err(e)
      case Ok(doc) =>
        if table in doc && doc[table].TopTable? && key in doc[table].entries then
          match doc[table].entries[key]
          case Str(s) => Ok(Some(s))
          case NonStr => Ok(Some(""))
        else Ok(None)
  }
}

/**
 * `find_root`: the loop that walks from a directory up through its parents
 * to the first one holding a Cargo.toml or a book.toml.
 */
module Roots {
  import opened Wrappers
  import opened Paths
  import opened Host

  predicate HasMarker(h: Host, p: Path) {
    Join(p, "Cargo.toml") in h.present || Join(p, "book.toml") in h.present
  }

  /** The ancestor `k` levels above `p` (`Up(p, 0) == p`). */
  function Up(p: Path, k: nat): (r: Path)
    requires k <= |p.comps|
    ensures r.absolute == p.absolute && |r.comps| == |p.comps| - k
  {
    Path(p.absolute, p.comps[..|p.comps| - k])
  }

  /** What the loop computes, one parent at a time. */
  function RootFrom(h: Host, p: Path): Option<Path>
    decreases |p.comps|
  {
    if Join(p, "Cargo.toml") in h.present then Some(p)
    else if Join(p, "book.toml") in h.present then Some(p)
    else
      match Parent(p)
      case None => None
      case Some(q) => RootFrom(h, q)
  }

  lemma UpParent(p: Path, k: nat)
    requires 0 < |p.comps| && k + 1 <= |p.comps|
    ensures Up(Parent(p).value, k) == Up(p, k + 1)
  {
  }

  /**
   * The root found is the nearest of `p` and its ancestors that holds a
   * marker; None means neither `p` nor any ancestor holds one.
   */
  lemma {:induction false} RootFromNearest(h: Host, p: Path)
    ensures RootFrom(h, p).None? <==> forall k :: 0 <= k <= |p.comps| ==> !HasMarker(h, Up(p, k))
    ensures RootFrom(h, p).Some? ==>
      exists k :: 0 <= k <= |p.comps| && RootFrom(h, p) == Some(Up(p, k)) && HasMarker(h, Up(p, k)) &&
        forall j :: 0 <= j < k ==> !HasMarker(h, Up(p, j))
    decreases |p.comps|
  {
    assert Up(p, 0) == p;
    if !HasMarker(h, p) && |p.comps| > 0 {
      var q := Parent(p).value;
      RootFromNearest(h, q);
      forall k | 0 <= k <= |q.comps| ensures Up(q, k) == Up(p, k + 1) {
        UpParent(p, k);
      }
      if RootFrom(h, q).None? {
        forall k | 0 <= k <= |p.comps| ensures !HasMarker(h, Up(p, k)) {
          if k > 0 {
            assert Up(p, k) == Up(q, k - 1);
          }
        }
      } else {
        var k :| 0 <= k <= |q.comps| && RootFrom(h, q) == Some(Up(q, k)) && HasMarker(h, Up(q, k)) &&
          forall j :: 0 <= j < k ==> !HasMarker(h, Up(q, j));
        forall j | 0 <= j < k + 1 ensures !HasMarker(h, Up(p, j)) {
          if j > 0 {
            assert Up(p, j) == Up(q, j - 1);
          }
        }
        assert RootFrom(h, p) == Some(Up(p, k + 1));
      }
    }
  }

  /** The loop itself: check Cargo.toml, then book.toml, then go to the parent. */
  method FindRoot(h: Host, p: Path) returns (r: Option<Path>)
    ensures r == RootFrom(h, p)
  {
    var path := p;
    while true
      invariant RootFrom(h, path) == RootFrom(h, p)
      decreases |path.comps|
    {
      if Join(path, "Cargo.toml") in h.present {
        return Some(path);
      }
      if Join(path, "book.toml") in h.present {
        return Some(path);
      }
      match Parent(path) {
        case Some(v) => path := v;
        case None => return None;
      }
    }
  }
}
