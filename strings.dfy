/**
 * The string primitives the editor relies on from Rust's standard library:
 * `str::split` on a set of separator characters, `str::trim`, the unsigned
 * integer and boolean `FromStr` parsers, integer `Display`, and the
 * lexicographic order of `str`.
 */
module Strings {
  import opened Wrappers

  // ---------------------------------------------------------------------------
  // Whitespace and trimming

  /** Unicode White_Space, the set `char::is_whitespace` (and so `str::trim`) uses. */
  predicate IsWhitespace(c: char) {
    ('\U{9}' <= c <= '\U{D}') || c == ' ' || c == '\U{85}' || c == '\U{A0}'
    || c == '\U{1680}' || ('\U{2000}' <= c <= '\U{200A}') || c == '\U{2028}'
    || c == '\U{2029}' || c == '\U{202F}' || c == '\U{205F}' || c == '\U{3000}'
  }

  function TrimStart(s: string): (r: string)
    ensures |r| <= |s| && r == s[|s| - |r|..]
    ensures r == [] || !IsWhitespace(r[0])
    ensures forall i :: 0 <= i < |s| - |r| ==> IsWhitespace(s[i])
  {
    if |s| > 0 && IsWhitespace(s[0]) then TrimStart(s[1..]) else s
  }

  function TrimEnd(s: string): (r: string)
    ensures |r| <= |s| && r == s[..|r|]
    ensures r == [] || !IsWhitespace(r[|r| - 1])
    ensures forall i :: |r| <= i < |s| ==> IsWhitespace(s[i])
  {
    if |s| > 0 && IsWhitespace(s[|s| - 1]) then TrimEnd(s[..|s| - 1]) else s
  }

  predicate Blank(s: string) {
    forall i :: 0 <= i < |s| ==> IsWhitespace(s[i])
  }

  /** `r` is `s` with the whitespace before position `n` and after `r` itself cut off. */
  predicate TrimmedAt(s: string, n: nat, r: string) {
    n + |r| <= |s| && r == s[n..n + |r|] && Blank(s[..n]) && Blank(s[n + |r|..])
  }

  /** `str::trim`: leading and trailing whitespace removed. */
  function Trim(s: string): string {
    TrimEnd(TrimStart(s))
  }

  /** `trim` gives a middle part of `s`: only whitespace is cut off around it, and none is left at its ends. */
  lemma TrimCutsWhitespace(s: string)
    ensures var r := Trim(s); r == [] || (!IsWhitespace(r[0]) && !IsWhitespace(r[|r| - 1]))
    ensures exists n :: TrimmedAt(s, n, Trim(s))
  {
    var t := TrimStart(s);
    TrimSlices(s, t, |s| - |t|, TrimEnd(t));
  }

  lemma TrimSlices(s: string, t: string, n: nat, r: string)
    requires n <= |s| && t == s[n..] && |r| <= |t| && r == t[..|r|]
    requires forall i :: |r| <= i < |t| ==> IsWhitespace(t[i])
    requires forall i :: 0 <= i < n ==> IsWhitespace(s[i])
    ensures TrimmedAt(s, n, r)
  {
    var u := s[n + |r|..];
    forall i | 0 <= i < |u| ensures IsWhitespace(u[i]) {
      assert u[i] == t[|r| + i];
    }
  }

  /** A string that starts and ends with non-whitespace is its own trim. */
  lemma TrimNoop(s: string)
    requires s == [] || (!IsWhitespace(s[0]) && !IsWhitespace(s[|s| - 1]))
    ensures Trim(s) == s
  {
  }

  // ---------------------------------------------------------------------------
  // Splitting and joining

  /** Index of the first character of `s` in `seps`, or |s| when there is none. */
  function FirstIndexOf(s: string, seps: set<char>): (i: nat)
    ensures i <= |s|
    ensures forall j :: 0 <= j < i ==> s[j] !in seps
    ensures i < |s| ==> s[i] in seps
  {
    if |s| == 0 then 0
    else if s[0] in seps then 0
    else 1 + FirstIndexOf(s[1..], seps)
  }

  /**
   * `s.split(seps)`: the pieces between separator characters, in order.
   * There is always one piece more than there are separators, so the empty
   * string splits into one empty piece.
   */
  function Split(s: string, seps: set<char>): (r: seq<string>)
    decreases |s|
  {
    var i := FirstIndexOf(s, seps);
    if i == |s| then [s] else [s[..i]] + Split(s[i + 1..], seps)
  }

  predicate NoneOf(s: string, seps: set<char>) {
    forall j :: 0 <= j < |s| ==> s[j] !in seps
  }

  lemma {:induction false} SplitPieces(s: string, seps: set<char>)
    ensures |Split(s, seps)| >= 1
    ensures forall k :: 0 <= k < |Split(s, seps)| ==> NoneOf(Split(s, seps)[k], seps)
    decreases |s|
  {
    var i := FirstIndexOf(s, seps);
    if i < |s| {
      SplitPieces(s[i + 1..], seps);
    }
  }

  /** Splitting at the first separator: the part before it, then the rest split. */
  lemma SplitCons(a: string, c: char, b: string, seps: set<char>)
    requires NoneOf(a, seps) && c in seps
    ensures Split(a + [c] + b, seps) == [a] + Split(b, seps)
  {
    var s := a + [c] + b;
    FirstIndexOfPrefix(a, [c] + b, seps);
    assert s == a + ([c] + b);
    assert s[..|a|] == a;
    assert s[|a| + 1..] == b;
  }

  lemma {:induction false} FirstIndexOfPrefix(a: string, b: string, seps: set<char>)
    requires NoneOf(a, seps)
    ensures FirstIndexOf(a + b, seps) == |a| + FirstIndexOf(b, seps)
    decreases |a|
  {
    if |a| > 0 {
      assert (a + b)[1..] == a[1..] + b;
      FirstIndexOfPrefix(a[1..], b, seps);
    } else {
      assert a + b == b;
    }
  }

  lemma SplitNone(a: string, seps: set<char>)
    requires NoneOf(a, seps)
    ensures Split(a, seps) == [a]
  {
    FirstIndexOfPrefix(a, [], seps);
    assert a + [] == a;
  }

  /** `parts.join(sep)`. */
  function Join(parts: seq<string>, sep: string): string
    decreases |parts|
  {
    if |parts| == 0 then ""
    else if |parts| == 1 then parts[0]
    else parts[0] + sep + Join(parts[1..], sep)
  }

  /** Joining one more part appends the separator and the part. */
  lemma {:induction false} JoinSnoc(parts: seq<string>, p: string, sep: string)
    ensures Join(parts + [p], sep) == if |parts| == 0 then p else Join(parts, sep) + sep + p
    decreases |parts|
  {
    if |parts| == 0 {
      assert parts + [p] == [p];
    } else if |parts| == 1 {
      assert parts + [p] == [parts[0], p];
      assert [parts[0], p][1..] == [p];
    } else {
      assert (parts + [p])[1..] == parts[1..] + [p];
      JoinSnoc(parts[1..], p, sep);
    }
  }

  /** Joining on one separator character undoes splitting on it. */
  lemma {:induction false} JoinSplit(s: string, c: char)
    ensures Join(Split(s, {c}), [c]) == s
    decreases |s|
  {
    var i := FirstIndexOf(s, {c});
    if i < |s| {
      var rest := s[i + 1..];
      JoinSplit(rest, c);
      SplitPieces(rest, {c});
      assert Split(s, {c})[1..] == Split(rest, {c});
      assert s == s[..i] + [c] + rest;
    }
  }

  /** Splitting a join undoes it, provided no piece holds a separator. */
  lemma {:induction false} SplitJoin(parts: seq<string>, c: char, seps: set<char>)
    requires |parts| >= 1 && c in seps
    requires forall k :: 0 <= k < |parts| ==> NoneOf(parts[k], seps)
    ensures Split(Join(parts, [c]), seps) == parts
    decreases |parts|
  {
    if |parts| == 1 {
      SplitNone(parts[0], seps);
    } else {
      SplitJoin(parts[1..], c, seps);
      SplitCons(parts[0], c, Join(parts[1..], [c]), seps);
      assert [parts[0]] + parts[1..] == parts;
    }
  }

  /** The non-empty pieces only, in order (`filter(|v| !v.is_empty())`). */
  function NonEmpty(xs: seq<string>): (r: seq<string>)
    ensures forall k :: 0 <= k < |r| ==> r[k] != []
    ensures forall x :: x in r <==> x in xs && x != []
  {
    if |xs| == 0 then []
    else if xs[0] == [] then NonEmpty(xs[1..])
    else [xs[0]] + NonEmpty(xs[1..])
  }

  lemma NonEmptyAppend(a: seq<string>, b: seq<string>)
    ensures NonEmpty(a + b) == NonEmpty(a) + NonEmpty(b)
  {
    if |a| > 0 {
      assert (a + b)[1..] == a[1..] + b;
      NonEmptyAppend(a[1..], b);
    } else {
      assert a + b == b;
    }
  }

  /**
   * Joining with ", " and then splitting on both ' ' and ',' (dropping the
   * empty pieces between the two separator characters) gives back the list,
   * for pieces that are non-empty and hold neither separator.
   */
  lemma {:induction false} SplitJoinCommaSpace(parts: seq<string>)
    requires forall k :: 0 <= k < |parts| ==> parts[k] != [] && NoneOf(parts[k], {' ', ','})
    ensures |parts| >= 1 ==> NonEmpty(Split(Join(parts, ", "), {' ', ','})) == parts
    decreases |parts|
  {
    if |parts| == 1 {
      SplitNone(parts[0], {' ', ','});
    } else if |parts| > 1 {
      SplitJoinCommaSpace(parts[1..]);
      SplitCommaSpace(parts[0], Join(parts[1..], ", "));
      NonEmptyAppend([parts[0], ""], Split(Join(parts[1..], ", "), {' ', ','}));
      assert NonEmpty([parts[0], ""]) == [parts[0]];
      assert [parts[0]] + parts[1..] == parts;
    }
  }

  /** ", " between two parts leaves an empty piece. */
  lemma SplitCommaSpace(a: string, rest: string)
    requires NoneOf(a, {' ', ','})
    ensures Split(a + ", " + rest, {' ', ','}) == [a, ""] + Split(rest, {' ', ','})
  {
    var seps := {' ', ','};
    var none: string := [];
    var tail := none + [' '] + rest;
    assert a + ", " + rest == a + [','] + tail;
    SplitCons(a, ',', tail, seps);
    SplitCons(none, ' ', rest, seps);
    assert [a] + ([none] + Split(rest, seps)) == [a, ""] + Split(rest, seps);
  }

  // ---------------------------------------------------------------------------
  // Numbers

  predicate IsDigit(c: char) { '0' <= c <= '9' }

  predicate AllDigits(s: string) { forall i :: 0 <= i < |s| ==> IsDigit(s[i]) }

  function DigitValue(c: char): nat requires IsDigit(c) { c as int - '0' as int }

  function DigitChar(d: nat): (c: char)
    requires d < 10
    ensures IsDigit(c) && DigitValue(c) == d
  {
    ('0' as int + d) as char
  }

  /** The value of a string of decimal digits, most significant first. */
  function DigitsValue(s: string): nat
    requires AllDigits(s)
  {
    if |s| == 0 then 0 else DigitsValue(s[..|s| - 1]) * 10 + DigitValue(s[|s| - 1])
  }

  /**
   * `s.parse::<uN>()` where `max` is the largest value of the type: an
   * optional leading '+', then at least one ASCII digit, and a value that fits.
   * No whitespace is accepted.
   */
  function ParseUint(s: string, max: nat): (r: Option<nat>)
    ensures r.Some? ==> r.value <= max
    ensures r.Some? ==> |s| > 0
  {
    if |s| == 0 then None
    else
      var d := if s[0] == '+' then s[1..] else s;
      if |d| == 0 || !AllDigits(d) then None
      else if DigitsValue(d) <= max then Some(DigitsValue(d))
      else None
  }

  /** `n.to_string()`: decimal digits, no sign, no leading zero. */
  function NatToString(n: nat): (s: string)
    decreases n
  {
    if n < 10 then [DigitChar(n)] else NatToString(n / 10) + [DigitChar(n % 10)]
  }

  lemma {:induction false} NatToStringDigits(n: nat)
    ensures |NatToString(n)| >= 1 && AllDigits(NatToString(n))
    ensures DigitsValue(NatToString(n)) == n
    decreases n
  {
    if n >= 10 {
      NatToStringDigits(n / 10);
      var s := NatToString(n);
      assert s[..|s| - 1] == NatToString(n / 10);
    }
  }

  /** Parsing a printed number gives it back whenever it fits the type. */
  lemma ParsePrint(n: nat, max: nat)
    requires n <= max
    ensures ParseUint(NatToString(n), max) == Some(n)
  {
    NatToStringDigits(n);
  }

  /** A printed number holds only digits: no separator and no whitespace. */
  lemma PrintedIsPlain(n: nat, seps: set<char>)
    requires forall c :: c in seps ==> !IsDigit(c)
    ensures NoneOf(NatToString(n), seps)
    ensures Trim(NatToString(n)) == NatToString(n)
  {
    NatToStringDigits(n);
    var s := NatToString(n);
    assert IsDigit(s[0]) && IsDigit(s[|s| - 1]);
    TrimNoop(s);
  }

  /** `s.parse::<bool>()`. */
  function ParseBool(s: string): (r: Option<bool>)
    ensures r == Some(true) <==> s == "true"
    ensures r == Some(false) <==> s == "false"
  {
    if s == "true" then Some(true) else if s == "false" then Some(false) else None
  }

  function BoolToString(b: bool): string { if b then "true" else "false" }

  // ---------------------------------------------------------------------------
  // Prefixes and order

  predicate StartsWith(s: string, prefix: string) {
    |prefix| <= |s| && s[..|prefix|] == prefix
  }

  /** The order of `str`: lexicographic by character (UTF-8 byte order agrees with it). */
  predicate StrLess(a: string, b: string)
    decreases |a|
  {
    if |a| == 0 then |b| > 0
    else if |b| == 0 then false
    else if a[0] < b[0] then true
    else if a[0] == b[0] then StrLess(a[1..], b[1..])
    else false
  }

  lemma {:induction false} StrLessIrreflexive(a: string)
    ensures !StrLess(a, a)
    decreases |a|
  {
    if |a| > 0 { StrLessIrreflexive(a[1..]); }
  }

  lemma {:induction false} StrLessTransitive(a: string, b: string, c: string)
    requires StrLess(a, b) && StrLess(b, c)
    ensures StrLess(a, c)
    decreases |a|
  {
    if |a| > 0 && |b| > 0 && |c| > 0 && a[0] == b[0] && b[0] == c[0] {
      StrLessTransitive(a[1..], b[1..], c[1..]);
    }
  }

  lemma {:induction false} StrLessTotal(a: string, b: string)
    requires a != b
    ensures StrLess(a, b) || StrLess(b, a)
    decreases |a|
  {
    if |a| > 0 && |b| > 0 && a[0] == b[0] {
      assert a == [a[0]] + a[1..] && b == [b[0]] + b[1..];
      StrLessTotal(a[1..], b[1..]);
    }
  }
}
