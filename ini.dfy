/**
 * The INI document the configuration is read from and written to: a
 * general section and named sections, each an ordered list of key/value
 * pairs. `get` finds the first pair with the key; `set` replaces the value
 * of a key already present in place, or appends a new pair.
 */
module Ini {
  import opened Wrappers

  type Section = seq<(string, string)>

  datatype IniFile = IniFile(general: Section, sections: map<string, Section>)

  predicate HasKey(sec: Section, k: string) {
    exists i :: 0 <= i < |sec| && sec[i].0 == k
  }

  /** `Properties::get`: the value of the first pair with key `k`. */
  function Get(sec: Section, k: string): (r: Option<string>)
    ensures r.None? <==> !HasKey(sec, k)
    ensures r.Some? ==> exists i :: 0 <= i < |sec| && sec[i] == (k, r.value)
  {
    if |sec| == 0 then None
    else if sec[0].0 == k then Some(sec[0].1)
    else
      var r := Get(sec[1..], k);
      assert forall i :: 0 <= i < |sec| - 1 ==> sec[1..][i] == sec[i + 1];
      r
  }

  /** `Properties::insert` (behind `set`): a present key keeps its place and gets the new value. */
  function Set(sec: Section, k: string, v: string): (r: Section)
    ensures !HasKey(sec, k) ==> r == sec + [(k, v)]
    ensures HasKey(sec, k) ==> |r| == |sec|
  {
    if |sec| == 0 then [(k, v)]
    else if sec[0].0 == k then [(k, v)] + sec[1..]
    else
      assert forall i :: 0 <= i < |sec| - 1 ==> sec[1..][i] == sec[i + 1];
      [sec[0]] + Set(sec[1..], k, v)
  }

  /** After `set`, `get` finds the new value, and every other key is as before. */
  lemma {:induction false} GetSet(sec: Section, k: string, v: string, k2: string)
    ensures Get(Set(sec, k, v), k2) == if k2 == k then Some(v) else Get(sec, k2)
    decreases |sec|
  {
    if |sec| > 0 && sec[0].0 != k {
      GetSet(sec[1..], k, v, k2);
    }
  }

  /** `get` finds the first pair with the key. */
  lemma {:induction false} GetAt(sec: Section, i: nat, k: string)
    requires i < |sec| && sec[i].0 == k
    requires forall j :: 0 <= j < i ==> sec[j].0 != k
    ensures Get(sec, k) == Some(sec[i].1)
    decreases i
  {
    if i > 0 {
      GetAt(sec[1..], i - 1, k);
    }
  }

  /** A run of `set` calls, in order. */
  function SetAll(sec: Section, kvs: seq<(string, string)>): (r: Section)
    decreases |kvs|
  {
    if |kvs| == 0 then sec else SetAll(Set(sec, kvs[0].0, kvs[0].1), kvs[1..])
  }

  predicate DistinctKeys(kvs: seq<(string, string)>) {
    forall i, j :: 0 <= i < j < |kvs| ==> kvs[i].0 != kvs[j].0
  }

  /** Setting keys that are all new, each once, lays the pairs out in the order they were set. */
  lemma {:induction false} SetAllFresh(sec: Section, kvs: seq<(string, string)>)
    requires DistinctKeys(kvs)
    requires forall i :: 0 <= i < |kvs| ==> !HasKey(sec, kvs[i].0)
    ensures SetAll(sec, kvs) == sec + kvs
    decreases |kvs|
  {
    if |kvs| > 0 {
      var sec1 := Set(sec, kvs[0].0, kvs[0].1);
      assert sec1 == sec + [kvs[0]];
      forall i | 0 <= i < |kvs| - 1 ensures !HasKey(sec1, kvs[1..][i].0) {
        assert kvs[1..][i] == kvs[i + 1];
      }
      SetAllFresh(sec1, kvs[1..]);
      assert sec1 + kvs[1..] == sec + kvs;
    }
  }

  lemma {:induction false} SetAllAppend(sec: Section, a: seq<(string, string)>, b: seq<(string, string)>)
    ensures SetAll(sec, a + b) == SetAll(SetAll(sec, a), b)
    decreases |a|
  {
    if |a| > 0 {
      assert (a + b)[1..] == a[1..] + b;
      SetAllAppend(Set(sec, a[0].0, a[0].1), a[1..], b);
    } else {
      assert a + b == b;
    }
  }

  /** One more `set` after a run of them. */
  lemma SetAllSnoc(sec: Section, kvs: seq<(string, string)>, kv: (string, string))
    ensures SetAll(sec, kvs + [kv]) == Set(SetAll(sec, kvs), kv.0, kv.1)
  {
    SetAllAppend(sec, kvs, [kv]);
    assert [kv][1..] == [];
  }

  /** `get` on two parts: the first part wins. */
  lemma {:induction false} GetAppend(a: Section, b: Section, k: string)
    ensures Get(a + b, k) == if HasKey(a, k) then Get(a, k) else Get(b, k)
    decreases |a|
  {
    if |a| > 0 {
      assert (a + b)[1..] == a[1..] + b;
      GetAppend(a[1..], b, k);
      if !HasKey(a, k) {
        assert !HasKey(a[1..], k);
      } else if a[0].0 != k {
        var i :| 0 <= i < |a| && a[i].0 == k;
        assert a[1..][i - 1].0 == k;
      }
    } else {
      assert a + b == b;
    }
  }

  /** `ini.section(Some(name))`. */
  function Named(ini: IniFile, name: string): (r: Option<Section>)
    ensures r.Some? <==> name in ini.sections
  {
    if name in ini.sections then Some(ini.sections[name]) else None
  }

  /** Setting distinct keys on an empty section: `get` finds each value under its key. */
  lemma FreshFound(kvs: seq<(string, string)>)
    requires DistinctKeys(kvs)
    ensures forall i :: 0 <= i < |kvs| ==> Get(SetAll([], kvs), kvs[i].0) == Some(kvs[i].1)
  {
    SetAllFresh([], kvs);
    assert [] + kvs == kvs;
    forall i | 0 <= i < |kvs| ensures Get(kvs, kvs[i].0) == Some(kvs[i].1) {
      GetAt(kvs, i, kvs[i].0);
    }
  }
}
