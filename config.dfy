/**
 * `MDConfig` of the older `config.rs`: the defaults, the fallback chain for
 * each key of the INI file's general section, and the glob list written
 * as one `file_pattern` value. The glob codec and the value fallbacks are
 * shared with the newer configuration in `Cfg`.
 */
module Config {
  import opened Wrappers
  import opened Strings
  import opened Ini
  import Paths
  import Sorting

  const DefaultFileSplitAt: nat := 15
  const DefaultTextWidth: nat := 65
  const U16Max: nat := 0xFFFF

  datatype OldConfig = OldConfig(
    theme: string,
    textWidth: nat,
    loadFile: seq<Paths.Path>,
    globs: seq<string>,
    fileSplitAt: nat,
    showCtrl: bool,
    logLevel: string)

  /** `MDConfig::default` (the locale is left out). */
  const Default := OldConfig("Imperial", DefaultTextWidth, [], ["*.md"], DefaultFileSplitAt, false, "debug")

  // ---------------------------------------------------------------------------
  // Values with fallbacks

  /**
   * `get(k).unwrap_or(default.to_string()).parse().unwrap_or(default)` for
   * an unsigned type whose largest value is `max`.
   */
  function Number(v: Option<string>, default: nat, max: nat): (r: nat)
    requires default <= max
    ensures r <= max
    ensures v.None? ==> r == default
    ensures v.Some? ==> r == ParseUint(v.value, max).GetOr(default)
  {
    ParsePrint(default, max);
    ParseUint(v.GetOr(NatToString(default)), max).GetOr(default)
  }

  /** `get(k).unwrap_or(default).parse().unwrap_or(default)` for a `bool`. */
  function Flag(v: Option<string>, default: bool): (r: bool)
    ensures v.None? ==> r == default
    ensures v == Some("true") ==> r
    ensures v == Some("false") ==> !r
    ensures v.Some? && v.value != "true" && v.value != "false" ==> r == default
  {
    ParseBool(v.GetOr(BoolToString(default))).GetOr(default)
  }

  /** A number is written in decimal and read back exactly, whenever it fits the type. */
  lemma NumberRoundTrip(n: nat, default: nat, max: nat)
    requires n <= max && default <= max
    ensures Number(Some(NatToString(n)), default, max) == n
  {
    ParsePrint(n, max);
  }

  lemma FlagRoundTrip(b: bool, default: bool)
    ensures Flag(Some(BoolToString(b)), default) == b
  {
  }

  // ---------------------------------------------------------------------------
  // Globs

  const GlobSeps: set<char> := {' ', ','}

  /** `file_pattern` as written: the globs joined with ", ", or "*.md" for none. */
  function GlobText(globs: seq<string>): string {
    if |globs| == 0 then "*.md" else Join(globs, ", ")
  }

  /** The globs as `load` reads them: split on ' ' and ',', every piece kept, sorted and deduplicated. */
  function GlobsAsWritten(v: string): (r: seq<string>)
    ensures Sorting.StrictlySorted(r, StrLess)
    ensures forall g :: g in r <==> g in Split(v, GlobSeps)
  {
    Paths.SortDedupStrings(Split(v, GlobSeps))
  }

  /** The globs as intended: the empty pieces between ", " dropped as well. */
  function Globs(v: string): (r: seq<string>)
    ensures Sorting.StrictlySorted(r, StrLess)
    ensures forall g :: g in r <==> g in Split(v, GlobSeps) && g != []
  {
    Paths.SortDedupStrings(NonEmpty(Split(v, GlobSeps)))
  }

  /** A glob list as `load` leaves it: sorted, no duplicates, no empty glob, no separator inside a glob. */
  predicate CleanGlobs(globs: seq<string>) {
    && Sorting.StrictlySorted(globs, StrLess)
    && forall k :: 0 <= k < |globs| ==> globs[k] != [] && NoneOf(globs[k], GlobSeps)
  }

  /** What `load` gives for the `file_pattern` that `store` wrote. */
  function StoredGlobs(globs: seq<string>): seq<string> {
    if |globs| == 0 then ["*.md"] else globs
  }

  /** Writing clean globs and reading them back returns them (an empty list comes back as "*.md"). */
  lemma GlobsRoundTrip(globs: seq<string>)
    requires CleanGlobs(globs)
    ensures Globs(GlobText(globs)) == StoredGlobs(globs)
  {
    if |globs| == 0 {
      SplitNone("*.md", GlobSeps);
      assert NonEmpty(["*.md"]) == ["*.md"];
      assert Sorting.StrictlySorted(["*.md"], StrLess);
      Paths.SortDedupStringsSorted(["*.md"]);
    } else {
      SplitJoinCommaSpace(globs);
      Paths.SortDedupStringsSorted(globs);
    }
  }

  /** Every glob `load` reads back from a `file_pattern` is clean. */
  lemma GlobsClean(v: string)
    ensures CleanGlobs(Globs(v))
  {
    SplitPieces(v, GlobSeps);
    var r := Globs(v);
    forall k | 0 <= k < |r| ensures r[k] != [] && NoneOf(r[k], GlobSeps) {
      assert r[k] in r;
    }
  }

  /**
   * As written, two or more globs come back with an extra empty glob: the
   * space after each ',' leaves an empty piece between the two separators.
   */
  lemma AsWrittenGlobsGainEmpty(globs: seq<string>)
    requires CleanGlobs(globs) && |globs| >= 2
    ensures "" in GlobsAsWritten(GlobText(globs)) && "" !in globs
    ensures GlobsAsWritten(GlobText(globs)) != StoredGlobs(globs)
  {
    var rest := Join(globs[1..], ", ");
    assert GlobText(globs) == globs[0] + ", " + rest;
    SplitCommaSpace(globs[0], rest);
    assert Split(GlobText(globs), GlobSeps)[1] == "";
  }

  // ---------------------------------------------------------------------------
  // load and store

  /** The configuration read from the INI file's general section. */
  function FromIni(ini: IniFile): (r: OldConfig)
    ensures r.textWidth <= U16Max && r.fileSplitAt <= U16Max
    ensures CleanGlobs(r.globs)
  {
    var sec := ini.general;
    GlobsClean(Get(sec, "file_pattern").GetOr("*.md"));
    Default.(
      theme := Get(sec, "theme").GetOr("Imperial"),
      fileSplitAt := Number(Get(sec, "file_split_at"), DefaultFileSplitAt, U16Max),
      textWidth := Number(Get(sec, "text_width"), DefaultTextWidth, U16Max),
      globs := Globs(Get(sec, "file_pattern").GetOr("*.md")),
      logLevel := Trim(Get(sec, "log").GetOr("warn")))
  }

  /**
   * `load`: no configuration directory or no file gives the defaults; a
   * file that cannot be read or parsed is an error.
   */
  function Load(file: Option<Result<IniFile>>): (r: Result<OldConfig>)
    ensures file.None? ==> r == Ok(Default)
    ensures file.Some? ==> (r.Err? <==> file.value.Err?)
    ensures file.Some? && file.value.Err? ==> r == Err(file.value.error)
    ensures file.Some? && file.value.Ok? ==> r == Ok(FromIni(file.value.value))
  {
    match file
    case None => Ok(Default)
    case Some(Err(e)) => Err(e)
    case Some(Ok(ini)) => Ok(FromIni(ini))
  }

  /** The general section `store` writes, key by key. */
  function Entries(c: OldConfig): seq<(string, string)> {
    [("theme", c.theme),
     ("file_split_at", NatToString(c.fileSplitAt)),
     ("text_width", NatToString(c.textWidth)),
     ("file_pattern", GlobText(c.globs)),
     ("log", c.logLevel)]
  }

  /** `store`: the INI document written to the configuration file. */
  function Stored(c: OldConfig): (r: IniFile)
    ensures r.sections == map[]
  {
    IniFile(SetAll([], Entries(c)), map[])
  }

  /**
   * `store` of `config.rs`, the older configuration, which writes its own
   * keys (`Stored`). Like `Cfg.Store`, without a configuration directory
   * nothing is written.
   */
  function Store(c: OldConfig, hasConfigDir: bool): (r: Result<IniFile>)
    ensures r.Err? <==> !hasConfigDir
    ensures r.Ok? ==> r.value == Stored(c)
  {
    if hasConfigDir then Ok(Stored(c)) else Err(ConfigError("Can't save config."))
  }

  /** A file with none of the keys loads the defaults, except the log level, whose fallback is "warn". */
  lemma MissingKeys(ini: IniFile)
    requires ini.general == []
    ensures FromIni(ini) == Default.(logLevel := "warn")
  {
    GlobsRoundTrip([]);
    TrimNoop("warn");
  }

  /** The values `store` writes and `load` reads back unchanged. */
  predicate Storable(c: OldConfig) {
    && c.textWidth <= U16Max && c.fileSplitAt <= U16Max
    && Trim(c.logLevel) == c.logLevel
    && CleanGlobs(c.globs)
  }

  /**
   * Storing and loading gives back what was stored: `show_ctrl` and the
   * files to open are not stored and come back as defaults, and no globs
   * come back as "*.md".
   */
  lemma StoreLoad(c: OldConfig)
    requires Storable(c)
    ensures FromIni(Stored(c)) == c.(loadFile := [], showCtrl := false, globs := StoredGlobs(c.globs))
  {
    StoredGeneral(Entries(c));
    NumberRoundTrip(c.fileSplitAt, DefaultFileSplitAt, U16Max);
    NumberRoundTrip(c.textWidth, DefaultTextWidth, U16Max);
    GlobsRoundTrip(c.globs);
  }

  /** Five pairs under the five general keys: `get` finds each value after they are set. */
  lemma StoredGeneral(es: seq<(string, string)>)
    requires |es| == 5
    requires es[0].0 == "theme" && es[1].0 == "file_split_at" && es[2].0 == "text_width"
    requires es[3].0 == "file_pattern" && es[4].0 == "log"
    ensures var sec := SetAll([], es);
      && Get(sec, "theme") == Some(es[0].1) && Get(sec, "file_split_at") == Some(es[1].1)
      && Get(sec, "text_width") == Some(es[2].1) && Get(sec, "file_pattern") == Some(es[3].1)
      && Get(sec, "log") == Some(es[4].1)
  {
    StoredKeysDistinct(es);
    FreshFound(es);
  }

  lemma StoredKeysDistinct(es: seq<(string, string)>)
    requires |es| == 5
    requires es[0].0 == "theme" && es[1].0 == "file_split_at" && es[2].0 == "text_width"
    requires es[3].0 == "file_pattern" && es[4].0 == "log"
    ensures DistinctKeys(es)
  {
  }
}
