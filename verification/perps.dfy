/**
 * The string, file-name and list logic of perps_data_fetcher.py: name
 * sanitising, the choice of the per-exchange file to append into (largest
 * numeric suffix, rotated once the file reaches 3 MB), the rows appended to it,
 * the per-exchange index of file names, the combined daily summary, and the
 * selection of an exchange's tickers.
 *
 * The directory listing, the size of the current file and every loaded JSON
 * document are parameters; nothing here reads or writes files.
 */
module Perps {
  import opened Wrappers
  import opened Decimal

  const DataRoot: string := "data/perps"
  const MaxJsonMb: nat := 3
  /** The rotation threshold in bytes, MAX_JSON_MB * 1024 * 1024. */
  const MaxJsonBytes: nat := MaxJsonMb * 1024 * 1024
  /** The width of the zero-padded numeric suffix of a data file. */
  const SuffixWidth: nat := 5
  const JsonExt: string := ".json"

  // ---- Strings ----

  /** `s.replace(from, to)` for single characters. */
  function Replace(s: string, from: char, to: char): (r: string)
    ensures |r| == |s|
    ensures forall i :: 0 <= i < |s| ==> r[i] == if s[i] == from then to else s[i]
  {
    if s == [] then [] else [if s[0] == from then to else s[0]] + Replace(s[1..], from, to)
  }

  /** The characters `sanitize` turns into '_'. */
  predicate IsSeparator(c: char) {
    c == ' ' || c == '(' || c == ')' || c == '-'
  }

  /** `sanitize`: each space, '(', ')' and '-' becomes '_'; everything else stays. */
  function Sanitize(name: string): (r: string)
    ensures |r| == |name|
    ensures forall i :: 0 <= i < |name| ==> r[i] == if IsSeparator(name[i]) then '_' else name[i]
  {
    Replace(Replace(Replace(Replace(name, ' ', '_'), '(', '_'), ')', '_'), '-', '_')
  }

  predicate IsClean(s: string) {
    forall i :: 0 <= i < |s| ==> !IsSeparator(s[i])
  }

  lemma SanitizeIsClean(name: string)
    ensures IsClean(Sanitize(name))
  {
  }

  /** Sanitising a sanitised name changes nothing. */
  lemma SanitizeIdempotent(name: string)
    ensures Sanitize(Sanitize(name)) == Sanitize(name)
  {
  }

  /** `str.lower` on one character (ASCII letters only). */
  function LowerChar(c: char): char {
    if 'A' <= c <= 'Z' then (c as int - 'A' as int + 'a' as int) as char else c
  }

  /** `s.lower()` (ASCII letters only). */
  function Lower(s: string): (r: string)
    ensures |r| == |s|
    ensures forall i :: 0 <= i < |s| ==> r[i] == LowerChar(s[i])
  {
    if s == [] then [] else [LowerChar(s[0])] + Lower(s[1..])
  }

  predicate StartsWith(s: string, prefix: string) {
    |prefix| <= |s| && s[..|prefix|] == prefix
  }

  predicate EndsWith(s: string, suffix: string) {
    |suffix| <= |s| && s[|s| - |suffix|..] == suffix
  }

  /** The index of the last occurrence of `c` in `s`, if any. */
  function LastIndexOf(s: string, c: char): (r: Option<nat>)
    ensures r.None? <==> forall i :: 0 <= i < |s| ==> s[i] != c
    ensures r.Some? ==> r.value < |s| && s[r.value] == c
    ensures r.Some? ==> forall i :: r.value < i < |s| ==> s[i] != c
    decreases |s|
  {
    if s == [] then None
    else if s[|s| - 1] == c then Some(|s| - 1)
    else LastIndexOf(s[..|s| - 1], c)
  }

  /** `s.rsplit(sep, 1)`: one part when `sep` does not occur, else the text before and after its last occurrence. */
  function RSplitOnce(s: string, sep: char): seq<string> {
    match LastIndexOf(s, sep)
    case None => [s]
    case Some(i) => [s[..i], s[i + 1..]]
  }

  /**
   * `rsplit(sep, 1)` gives the whole text when `sep` does not occur, and
   * otherwise two parts that rejoin around `sep`, the second free of `sep`.
   */
  lemma RSplitOnceRejoins(s: string, sep: char)
    ensures var r := RSplitOnce(s, sep);
      && (|r| == 1 || |r| == 2)
      && (|r| == 1 <==> forall i :: 0 <= i < |s| ==> s[i] != sep)
      && (|r| == 1 ==> r[0] == s)
      && (|r| == 2 ==> r[0] + [sep] + r[1] == s && forall i :: 0 <= i < |r[1]| ==> r[1][i] != sep)
  {
    match LastIndexOf(s, sep)
    case None =>
    case Some(i) =>
      assert s[..i] + [sep] + s[i + 1..] == s;
  }

  /** `os.path.join(folder, name)` on POSIX. */
  function Join(folder: string, name: string): (r: string)
    ensures EndsWith(r, name)
    ensures (name == [] || name[0] != '/') ==> StartsWith(r, folder)
  {
    if |name| > 0 && name[0] == '/' then name
    else if folder == [] || folder[|folder| - 1] == '/' then folder + name
    else folder + "/" + name
  }

  /** `os.path.basename(path)` on POSIX: the text after the last '/'. */
  function Basename(path: string): (r: string)
    ensures EndsWith(path, r)
    ensures forall i :: 0 <= i < |r| ==> r[i] != '/'
    ensures |r| < |path| ==> path[|path| - |r| - 1] == '/'
  {
    match LastIndexOf(path, '/')
    case None => path
    case Some(i) => path[i + 1..]
  }

  /** A relative name joined to a non-empty folder sits right after a '/'. */
  lemma JoinSlash(folder: string, name: string)
    requires folder != [] && name != [] && name[0] != '/'
    ensures EndsWith(Join(folder, name), "/" + name)
  {
    var r := Join(folder, name);
    if folder[|folder| - 1] == '/' {
      assert r == folder + name;
      assert r[|r| - |name| - 1..] == [folder[|folder| - 1]] + name;
    } else {
      assert r == folder + "/" + name;
      assert r[|r| - |name| - 1..] == "/" + name;
    }
  }

  /** A name without '/' joined to a folder is the basename of the result. */
  lemma BasenameOfJoin(folder: string, name: string)
    requires forall i :: 0 <= i < |name| ==> name[i] != '/'
    requires |name| > 0
    ensures Basename(Join(folder, name)) == name
  {
    var p := Join(folder, name);
    if folder != [] && !(folder[|folder| - 1] == '/') {
      assert p == folder + "/" + name;
      assert p[|folder|] == '/';
      var r := LastIndexOf(p, '/');
      assert r.value == |folder|;
      assert p[|folder| + 1..] == name;
    } else if folder != [] {
      assert p == folder + name;
      assert p[|folder| - 1] == '/';
      var r := LastIndexOf(p, '/');
      assert r.value == |folder| - 1;
      assert p[|folder|..] == name;
    } else {
      assert p == name;
    }
  }

  // ---- Choosing the file to append into ----

  /**
   * The suffix a directory entry contributes in get_current_json_path: it must
   * start with the base name and end with ".json", and the text after the last
   * '_' of the name without ".json" must be digits.
   */
  function SuffixOf(fname: string, base: string): (r: Option<nat>)
    ensures r.Some? ==> StartsWith(fname, base) && EndsWith(fname, JsonExt)
  {
    if StartsWith(fname, base) && EndsWith(fname, JsonExt) then
      var parts := RSplitOnce(fname[..|fname| - |JsonExt|], '_');
      if |parts| == 2 && IsDigits(parts[1]) then Some(ParseDigits(parts[1])) else None
    else None
  }

  /**
   * An entry that starts with the base name and reads `<pre>_<digits>.json`
   * is counted, with the value of those digits.
   */
  lemma SuffixOfDigits(fname: string, base: string, pre: string, d: string)
    requires StartsWith(fname, base)
    requires fname == pre + "_" + d + JsonExt && IsDigits(d)
    ensures SuffixOf(fname, base) == Some(ParseDigits(d))
  {
    assert fname[|fname| - |JsonExt|..] == JsonExt;
    var stem := fname[..|fname| - |JsonExt|];
    assert stem == pre + "_" + d;
    assert stem[|pre|] == '_';
    assert forall i :: |pre| < i < |stem| ==> stem[i] == d[i - |pre| - 1];
    var r := LastIndexOf(stem, '_');
    assert r.value == |pre|;
    assert stem[r.value + 1..] == d;
  }

  /**
   * Conversely, a counted entry reads `<pre>_<digits>.json` and contributes
   * the value of those digits.
   */
  lemma SuffixOfCounted(fname: string, base: string)
    requires SuffixOf(fname, base).Some?
    ensures StartsWith(fname, base)
    ensures exists pre, d :: fname == pre + "_" + d + JsonExt && IsDigits(d) && SuffixOf(fname, base).value == ParseDigits(d)
  {
    var stem := fname[..|fname| - |JsonExt|];
    RSplitOnceRejoins(stem, '_');
    var parts := RSplitOnce(stem, '_');
    assert fname == stem + JsonExt;
    assert fname == parts[0] + "_" + parts[1] + JsonExt;
  }

  /** What one entry adds to `existing`: its suffix, or nothing. */
  function Contribution(fname: string, base: string): seq<nat> {
    match SuffixOf(fname, base) case Some(v) => [v] case None => []
  }

  /** The `existing` list: the suffixes of the counted entries, in listing order. */
  function Existing(names: seq<string>, base: string): (r: seq<nat>)
    ensures forall v :: v in r <==> exists i :: 0 <= i < |names| && SuffixOf(names[i], base) == Some(v)
  {
    if names == [] then []
    else
      var r := Contribution(names[0], base) + Existing(names[1..], base);
      assert forall i :: 1 <= i < |names| ==> names[i] == names[1..][i - 1];
      r
  }

  /** `max(xs)`. */
  function Max(xs: seq<nat>): (m: nat)
    requires xs != []
    ensures m in xs
    ensures forall x :: x in xs ==> x <= m
  {
    if |xs| == 1 then xs[0]
    else
      var rest := Max(xs[1..]);
      assert forall x :: x in xs ==> x == xs[0] || x in xs[1..];
      if xs[0] < rest then rest else xs[0]
  }

  /** The suffix get_current_json_path picks: the largest counted one, or 1 when none counts. */
  function CurrentSuffix(names: seq<string>, base: string): (r: nat)
    ensures (forall i :: 0 <= i < |names| ==> SuffixOf(names[i], base).None?) ==> r == 1
    ensures (exists i :: 0 <= i < |names| && SuffixOf(names[i], base).Some?) ==>
      (exists i :: 0 <= i < |names| && SuffixOf(names[i], base) == Some(r))
    ensures forall i :: 0 <= i < |names| && SuffixOf(names[i], base).Some? ==> SuffixOf(names[i], base).value <= r
  {
    var existing := Existing(names, base);
    if existing == [] then 1
    else
      assert forall i :: 0 <= i < |names| && SuffixOf(names[i], base).Some? ==> SuffixOf(names[i], base).value in existing;
      Max(existing)
  }

  /** `f"{base_name}_{suffix:05}.json"`. */
  function JsonName(base: string, suffix: nat): string {
    base + "_" + ZeroPad(suffix, SuffixWidth) + JsonExt
  }

  /** get_current_json_path. */
  function CurrentJsonPath(folder: string, base: string, names: seq<string>): (r: string)
    ensures EndsWith(r, JsonName(base, CurrentSuffix(names, base)))
    ensures SuffixOf(JsonName(base, CurrentSuffix(names, base)), base) == Some(CurrentSuffix(names, base))
  {
    JsonNameRoundTrip(base, CurrentSuffix(names, base));
    Join(folder, JsonName(base, CurrentSuffix(names, base)))
  }

  /** A file named by JsonName is counted by the suffix scan, with the suffix it was named for. */
  lemma {:induction false} JsonNameRoundTrip(base: string, suffix: nat)
    ensures SuffixOf(JsonName(base, suffix), base) == Some(suffix)
  {
    var digits := ZeroPad(suffix, SuffixWidth);
    var fname := JsonName(base, suffix);
    assert fname[..|base|] == base;
    assert fname[|fname| - |JsonExt|..] == JsonExt;
    var stem := fname[..|fname| - |JsonExt|];
    assert stem == base + "_" + digits;
    assert stem[|base|] == '_';
    var r := LastIndexOf(stem, '_');
    assert r.value == |base|;
    assert stem[r.value + 1..] == digits;
  }

  /**
   * Once a file with a suffix at least the current one is in the folder, the
   * scan picks exactly that suffix.
   */
  lemma NewFileBecomesCurrent(names: seq<string>, base: string, suffix: nat)
    requires suffix >= CurrentSuffix(names, base)
    ensures CurrentSuffix(names + [JsonName(base, suffix)], base) == suffix
  {
    JsonNameRoundTrip(base, suffix);
    CurrentSuffixSnocLarger(names, base, JsonName(base, suffix), suffix);
  }

  /** Adding an entry whose suffix is at least the current one makes that suffix current. */
  lemma CurrentSuffixSnocLarger(names: seq<string>, base: string, fname: string, v: nat)
    requires SuffixOf(fname, base) == Some(v) && v >= CurrentSuffix(names, base)
    ensures CurrentSuffix(names + [fname], base) == v
  {
    var names' := names + [fname];
    assert SuffixOf(names'[|names|], base) == Some(v);
    var r := CurrentSuffix(names', base);
    var i :| 0 <= i < |names'| && SuffixOf(names'[i], base) == Some(r);
    if i < |names| {
      assert names'[i] == names[i];
    }
  }

  /** Listing one more entry extends `existing` by that entry's suffix, if it has one. */
  lemma {:induction false} ExistingSnoc(names: seq<string>, base: string, fname: string)
    ensures Existing(names + [fname], base) == Existing(names, base) + Contribution(fname, base)
    decreases |names|
  {
    if names != [] {
      assert (names + [fname])[1..] == names[1..] + [fname];
      ExistingSnoc(names[1..], base, fname);
      assert Existing(names + [fname], base)
        == Contribution(names[0], base) + Existing(names[1..] + [fname], base);
    } else {
      assert [fname][1..] == [];
    }
  }

  /** A value no larger than the maximum does not change it. */
  lemma MaxSnocSmaller(xs: seq<nat>, v: nat)
    requires xs != [] && v <= Max(xs)
    ensures Max(xs + [v]) == Max(xs)
  {
    var m := Max(xs + [v]);
    assert Max(xs) in xs + [v];
    assert m in xs || m == v;
  }

  /** Adding an entry with a smaller suffix to a folder that already counts some file changes nothing. */
  lemma CurrentSuffixSnocSmaller(names: seq<string>, base: string, fname: string, v: nat, j: nat)
    requires j < |names| && SuffixOf(names[j], base).Some?
    requires SuffixOf(fname, base) == Some(v) && v <= CurrentSuffix(names, base)
    ensures CurrentSuffix(names + [fname], base) == CurrentSuffix(names, base)
  {
    var existing := Existing(names, base);
    assert SuffixOf(names[j], base).value in existing;
    ExistingSnoc(names, base, fname);
    assert Existing(names + [fname], base) == existing + [v];
    MaxSnocSmaller(existing, v);
  }


  // ---- Rotation ----

  /**
   * The suffix rotate_json_if_needed settles on, given the size of the current
   * file (None when it does not exist).
   */
  function RotatedSuffix(names: seq<string>, base: string, size: Option<nat>): (r: nat)
    ensures r == CurrentSuffix(names, base) || r == CurrentSuffix(names, base) + 1
    ensures r == CurrentSuffix(names, base) + 1 <==> size.Some? && size.value >= 3 * 1024 * 1024
  {
    var current := CurrentSuffix(names, base);
    if size.Some? && size.value >= MaxJsonBytes then current + 1 else current
  }

  /** rotate_json_if_needed, with the suffix incremented as intended. */
  function RotateJsonIfNeeded(folder: string, base: string, names: seq<string>, size: Option<nat>): (r: string)
    ensures EndsWith(r, JsonName(base, RotatedSuffix(names, base, size)))
  {
    Join(folder, JsonName(base, RotatedSuffix(names, base, size)))
  }

  /** A full current file moves the path to the next suffix; otherwise the current path is kept. */
  lemma RotationRule(folder: string, base: string, names: seq<string>, size: Option<nat>)
    ensures size.Some? && size.value >= MaxJsonBytes ==>
      RotateJsonIfNeeded(folder, base, names, size) == Join(folder, JsonName(base, CurrentSuffix(names, base) + 1))
    ensures !(size.Some? && size.value >= MaxJsonBytes) ==>
      RotateJsonIfNeeded(folder, base, names, size) == CurrentJsonPath(folder, base, names)
  {
  }

  /** After the rotated file is written, the next scan of the folder picks it. */
  lemma RotatedFileIsNextCurrent(base: string, names: seq<string>, size: Option<nat>)
    ensures CurrentSuffix(names + [JsonName(base, RotatedSuffix(names, base, size))], base)
         == RotatedSuffix(names, base, size)
  {
    NewFileBecomesCurrent(names, base, RotatedSuffix(names, base, size));
  }

  /** `path[-10:-5]`: Python's slice from the tenth-last to the fifth-last character. */
  function SliceTenToFive(path: string): string {
    var start := if |path| >= 10 then |path| - 10 else 0;
    var end := if |path| >= 5 then |path| - 5 else 0;
    path[start..end]
  }

  /**
   * `int(text)`, defined on digit strings; None stands for any other text. The
   * only text this is applied to is a slice of a generated file name, which is
   * digits whenever the suffix has at most five of them.
   */
  function ParseInt(text: string): Option<nat> {
    if IsDigits(text) then Some(ParseDigits(text)) else None
  }

  /**
   * rotate_json_if_needed as written: a full file's suffix is re-read from the
   * five characters before ".json" of the path, `int(path[-10:-5]) + 1`.
   */
  function RotateAsWritten(folder: string, base: string, names: seq<string>, size: Option<nat>): (r: Option<string>)
    ensures !(size.Some? && size.value >= MaxJsonBytes) ==> r == Some(CurrentJsonPath(folder, base, names))
  {
    var path := CurrentJsonPath(folder, base, names);
    if size.Some? && size.value >= MaxJsonBytes then
      match ParseInt(SliceTenToFive(path))
      case Some(suffix) => Some(Join(folder, JsonName(base, suffix + 1)))
      case None => None
    else Some(path)
  }

  /** The slice only looks at the last ten characters, which a join leaves alone. */
  lemma SliceOfJoin(folder: string, name: string)
    requires |name| >= 10
    ensures SliceTenToFive(Join(folder, name)) == name[|name| - 10..|name| - 5]
  {
    var path := Join(folder, name);
    assert path[|path| - |name|..] == name;
    assert path[|path| - 10..|path| - 5] == path[|path| - |name|..][|name| - 10..|name| - 5];
  }

  /** In `<base>_<digits>.json` the slice is the last five digits. */
  lemma SliceOfJsonName(base: string, digits: string)
    requires |digits| >= 5
    ensures var name := base + "_" + digits + JsonExt;
      |name| >= 10 && name[|name| - 10..|name| - 5] == digits[|digits| - 5..]
  {
  }

  /** A suffix below 100000 is read back whole from the five characters before ".json". */
  lemma SliceReadsSuffix(folder: string, base: string, current: nat)
    requires current < 100000
    ensures ParseInt(SliceTenToFive(Join(folder, JsonName(base, current)))) == Some(current)
  {
    var digits := ZeroPad(current, SuffixWidth);
    FiveDigitsSuffice(current);
    SliceOfJsonName(base, digits);
    SliceOfJoin(folder, JsonName(base, current));
    assert digits[|digits| - 5..] == digits;
  }

  /** Below 100000 the suffix fits in five digits and the code as written rotates as intended. */
  lemma RotateAsWrittenBelowLimit(folder: string, base: string, names: seq<string>, size: Option<nat>)
    requires CurrentSuffix(names, base) < 100000
    ensures RotateAsWritten(folder, base, names, size) == Some(RotateJsonIfNeeded(folder, base, names, size))
  {
    var current := CurrentSuffix(names, base);
    SliceReadsSuffix(folder, base, current);
    assert CurrentJsonPath(folder, base, names) == Join(folder, JsonName(base, current));
  }

  lemma DigitsOf100000()
    ensures ToDigits(100000) == "100000"
  {
    assert ToDigits(1) == "1";
    assert ToDigits(10) == "10";
    assert ToDigits(100) == "100";
    assert ToDigits(1000) == "1000";
    assert ToDigits(10000) == "10000";
  }

  lemma WrapDigits()
    ensures ZeroPad(100000, SuffixWidth) == "100000"
    ensures ZeroPad(1, SuffixWidth) == "00001"
    ensures ParseInt("00000") == Some(0)
  {
    DigitsOf100000();
    assert ToDigits(1) == "1";
    assert ToDigits(0) == "0";
    assert ZeroPad(0, SuffixWidth) == "00000";
  }

  lemma WrapExampleCurrent(base: string)
    ensures CurrentSuffix([JsonName(base, 100000)], base) == 100000
  {
    JsonNameRoundTrip(base, 100000);
    var names := [JsonName(base, 100000)];
    assert SuffixOf(names[0], base) == Some(100000);
  }

  lemma WrapExampleSlice(folder: string, base: string)
    ensures ParseInt(SliceTenToFive(Join(folder, JsonName(base, 100000)))) == Some(0)
  {
    var digits := ZeroPad(100000, SuffixWidth);
    WrapDigits();
    SliceOfJsonName(base, digits);
    SliceOfJoin(folder, JsonName(base, 100000));
    assert digits[|digits| - 5..] == "00000";
  }

  /**
   * After the wrap the folder holds `<base>_100000.json` and `<base>_00001.json`;
   * the scan still picks 100000, so every later full run is sent back to
   * `<base>_00001.json` again.
   */
  lemma WrapRepeats(folder: string, base: string)
    ensures CurrentSuffix([JsonName(base, 100000), JsonName(base, 1)], base) == 100000
    ensures RotateAsWritten(folder, base, [JsonName(base, 100000), JsonName(base, 1)], Some(MaxJsonBytes))
         == Some(Join(folder, JsonName(base, 1)))
  {
    var names := [JsonName(base, 100000), JsonName(base, 1)];
    WrapRepeatsScan(base);
    assert CurrentJsonPath(folder, base, names) == Join(folder, JsonName(base, 100000));
    WrapExampleSlice(folder, base);
  }

  lemma WrapRepeatsScan(base: string)
    ensures CurrentSuffix([JsonName(base, 100000), JsonName(base, 1)], base) == 100000
  {
    var first := [JsonName(base, 100000)];
    JsonNameRoundTrip(base, 100000);
    JsonNameRoundTrip(base, 1);
    WrapExampleCurrent(base);
    CurrentSuffixSnocSmaller(first, base, JsonName(base, 1), 1, 0);
    assert first + [JsonName(base, 1)] == [JsonName(base, 100000), JsonName(base, 1)];
  }

  /**
   * With only `<base>_100000.json` in the folder and that file full, the five
   * characters before ".json" are "00000", so the code as written goes back to
   * suffix 1 instead of on to 100001.
   */
  lemma RotateAsWrittenWrapsAt100000(folder: string, base: string)
    ensures RotateAsWritten(folder, base, [JsonName(base, 100000)], Some(MaxJsonBytes))
         == Some(Join(folder, JsonName(base, 1)))
    ensures RotateJsonIfNeeded(folder, base, [JsonName(base, 100000)], Some(MaxJsonBytes))
         == Join(folder, JsonName(base, 100001))
  {
    WrapExampleCurrent(base);
    WrapExampleSlice(folder, base);
  }

  // ---- Rows, index and summary ----

  /** A numeric ticker field as loaded: absent, null or "" (NoValue), a value `float` accepts, or anything else. */
  datatype Field = NoValue | Numeric(value: real) | NotNumeric

  /** One ticker record of the API response; absent keys are None. */
  datatype Ticker = Ticker(market: Option<string>, symbol: Option<string>, openInterest: Field, volume24h: Field)

  /** One row of a per-exchange data file. */
  datatype Row = Row(symbol: string, openInterest: real, volume24h: real, date: int)

  /** A JSON document as `load_json` returns it: no file, a list, or some other value. */
  datatype Document<T> = Missing | ListDoc(items: seq<T>) | OtherDoc

  /** One row of the combined daily summary. */
  datatype Summary = Summary(date: int, market: string, sumVolume24h: real)

  /** `float(x) if x not in [None, ""] else 0`, with a failed conversion also giving 0. */
  function Coerce(f: Field): (r: real)
    ensures f.Numeric? ==> r == f.value
    ensures !f.Numeric? ==> r == 0.0
  {
    match f
    case Numeric(v) => v
    case _ => 0.0
  }

  /** The row written for one ticker. */
  function RowOf(t: Ticker, date: int): (r: Row)
    ensures r.date == date
    ensures t.symbol.Some? ==> r.symbol == t.symbol.value
    ensures t.symbol.None? ==> r.symbol == ""
    ensures r.openInterest == (if t.openInterest.Numeric? then t.openInterest.value else 0.0)
    ensures r.volume24h == (if t.volume24h.Numeric? then t.volume24h.value else 0.0)
  {
    Row(t.symbol.GetOr(""), Coerce(t.openInterest), Coerce(t.volume24h), date)
  }

  /** The list rows are appended to: the loaded list, or [] when the document is not a list. */
  function PriorRows(doc: Document<Row>): seq<Row> {
    if doc.ListDoc? then doc.items else []
  }

  /** `load_json(path) or []` for the index, whose document is None when the file is missing. */
  function IndexOrEmpty(doc: Option<seq<string>>): seq<string> {
    doc.GetOr([])
  }

  predicate NoDuplicates(xs: seq<string>) {
    forall i, j :: 0 <= i < j < |xs| ==> xs[i] != xs[j]
  }

  /** The index update: append the file name unless it is already listed. */
  function AddToIndex(index: seq<string>, name: string): (r: seq<string>)
    ensures name in r
    ensures |index| <= |r| <= |index| + 1 && r[..|index|] == index
    ensures forall x :: x in r <==> x in index || x == name
    ensures name in index ==> r == index
    ensures NoDuplicates(index) ==> NoDuplicates(r)
  {
    if name in index then index else index + [name]
  }

  /** Repeating the index update changes nothing. */
  lemma AddToIndexIdempotent(index: seq<string>, name: string)
    ensures AddToIndex(AddToIndex(index, name), name) == AddToIndex(index, name)
  {
  }

  /** The folder and base name an exchange's files use: `sanitize(exchange.lower())`. */
  function SafeName(exchange: string): (r: string)
    ensures |r| == |exchange| && IsClean(r)
    ensures forall i :: 0 <= i < |r| ==> r[i] == if IsSeparator(LowerChar(exchange[i])) then '_' else LowerChar(exchange[i])
  {
    Sanitize(Lower(exchange))
  }

  function ExchangeFolder(exchange: string): (r: string)
    ensures EndsWith(r, SafeName(exchange))
    ensures (exchange == [] || exchange[0] != '/') ==> StartsWith(r, DataRoot + "/")
  {
    Join(DataRoot, SafeName(exchange))
  }

  /** The name of the per-exchange index file. */
  function IndexName(base: string): string {
    "combined_" + base + JsonExt
  }

  /** `combined_<base>.json` in the exchange's folder. */
  function IndexPath(exchange: string): (r: string)
    ensures StartsWith(r, ExchangeFolder(exchange))
    ensures EndsWith(r, "/" + IndexName(SafeName(exchange)))
  {
    var folder := ExchangeFolder(exchange);
    var name := IndexName(SafeName(exchange));
    assert |folder| > 0 by {
      if SafeName(exchange) == [] || SafeName(exchange)[0] != '/' {
        assert StartsWith(folder, DataRoot);
      }
    }
    JoinSlash(folder, name);
    Join(folder, name)
  }

  /** If `base` starts `combined_<base>`, that text repeats "combined_" over and over. */
  lemma {:induction false} IndexStemPeriodic(base: string, k: nat)
    requires base == ("combined_" + base)[..|base|]
    requires k < |"combined_" + base|
    ensures ("combined_" + base)[k] == "combined_"[k % 9]
    decreases k
  {
    if k >= 9 {
      IndexStemPeriodic(base, k - 9);
      assert ("combined_" + base)[k] == base[k - 9];
      assert (k - 9) % 9 == k % 9;
    }
  }

  /** The text after the last '_' of `combined_<base>`, when it starts with `base`, is not a number. */
  lemma IndexStemTail(base: string)
    requires base == ("combined_" + base)[..|base|]
    ensures var stem := "combined_" + base;
      LastIndexOf(stem, '_').Some? && !IsDigits(stem[LastIndexOf(stem, '_').value + 1..])
  {
    var stem := "combined_" + base;
    assert stem[8] == '_';
    var i := LastIndexOf(stem, '_').value;
    IndexStemPeriodic(base, i);
    assert i % 9 == 8;
    if i + 1 < |stem| {
      IndexStemPeriodic(base, i + 1);
      assert stem[i + 1..][0] == 'c';
    }
  }

  /**
   * The index file lives in the same folder as the data files but is never
   * taken for one: whatever the base name, the scan does not count it.
   */
  lemma IndexFileNeverCounted(base: string)
    ensures SuffixOf(IndexName(base), base) == None
  {
    var fname := IndexName(base);
    if StartsWith(fname, base) && EndsWith(fname, JsonExt) {
      var stem := fname[..|fname| - |JsonExt|];
      assert stem == "combined_" + base;
      assert base == stem[..|base|];
      IndexStemTail(base);
    }
  }

  /** What save_exchange_data writes: the data file's path and rows, and the index. */
  datatype Saved = Saved(path: string, rows: seq<Row>, indexPath: string, index: seq<string>)

  /** One row per ticker, in order. */
  function RowsOf(tickers: seq<Ticker>, date: int): (r: seq<Row>)
    ensures |r| == |tickers|
    ensures forall k :: 0 <= k < |r| ==> r[k].date == date && r[k].volume24h == Coerce(tickers[k].volume24h)
  {
    seq(|tickers|, k requires 0 <= k < |tickers| => RowOf(tickers[k], date))
  }

  /** The loop of save_exchange_data that appends a row per ticker to the loaded rows. */
  method AppendRows(prior: seq<Row>, tickers: seq<Ticker>, date: int) returns (rows: seq<Row>)
    ensures rows == prior + RowsOf(tickers, date)
  {
    rows := prior;
    for k := 0 to |tickers|
      invariant rows == prior + RowsOf(tickers[..k], date)
    {
      var row := RowOf(tickers[k], date);
      assert RowsOf(tickers[..k + 1], date) == RowsOf(tickers[..k], date) + [row];
      rows := rows + [row];
    }
    assert tickers[..|tickers|] == tickers;
  }

  /** The rows written keep everything loaded before them, then hold the tickers' rows in order. */
  lemma RowsLayout(prior: seq<Row>, tickers: seq<Ticker>, date: int)
    ensures var rows := prior + RowsOf(tickers, date);
      && |rows| == |prior| + |tickers|
      && rows[..|prior|] == prior
      && forall k :: 0 <= k < |tickers| ==> rows[|prior| + k] == RowOf(tickers[k], date)
  {
  }

  /**
   * save_exchange_data. `names` is the exchange folder's listing, `size` the size
   * of the current data file (None when it does not exist), `doc` the document
   * loaded from the chosen path and `indexDoc` the loaded index.
   */
  method SaveExchangeData(exchange: string, tickers: seq<Ticker>, date: int, names: seq<string>,
                          size: Option<nat>, doc: Document<Row>, indexDoc: Option<seq<string>>)
    returns (saved: Saved)
    ensures saved.path == RotateJsonIfNeeded(ExchangeFolder(exchange), SafeName(exchange), names, size)
    ensures saved.rows == PriorRows(doc) + RowsOf(tickers, date)
    ensures saved.indexPath == IndexPath(exchange)
    ensures saved.index == AddToIndex(IndexOrEmpty(indexDoc), Basename(saved.path))
  {
    var safe := SafeName(exchange);
    var folder := ExchangeFolder(exchange);
    var path := RotateJsonIfNeeded(folder, safe, names, size);
    var rows := AppendRows(PriorRows(doc), tickers, date);
    var indexPath := Join(folder, IndexName(safe));
    var index := AddToIndex(IndexOrEmpty(indexDoc), Basename(path));
    saved := Saved(path, rows, indexPath, index);
  }

  /** update_daily_combined: the loaded summary (or []) with one record appended. */
  function UpdateDailyCombined(combined: Option<seq<Summary>>, exchange: string, sumVolume: real, date: int): (r: seq<Summary>)
    ensures var prior := combined.GetOr([]);
      && |r| == |prior| + 1
      && r[..|prior|] == prior
      && r[|prior|].date == date && r[|prior|].market == Sanitize(exchange) && r[|prior|].sumVolume24h == sumVolume
  {
    combined.GetOr([]) + [Summary(date, Sanitize(exchange), sumVolume)]
  }

  /** Every market name in the summary is free of the characters `sanitize` replaces, and stays so. */
  lemma DailyCombinedStaysClean(combined: seq<Summary>, exchange: string, sumVolume: real, date: int)
    requires forall i :: 0 <= i < |combined| ==> IsClean(combined[i].market)
    ensures var r := UpdateDailyCombined(Some(combined), exchange, sumVolume, date);
      forall i :: 0 <= i < |r| ==> IsClean(r[i].market)
  {
    SanitizeIsClean(exchange);
  }

  /** The summary is appended to, not upserted: a second update for the same day and exchange adds a second record. */
  lemma DailyCombinedRepeats(combined: seq<Summary>, exchange: string, v1: real, v2: real, date: int)
    ensures var once := UpdateDailyCombined(Some(combined), exchange, v1, date);
      var twice := UpdateDailyCombined(Some(once), exchange, v2, date);
      && |twice| == |combined| + 2
      && twice[|combined|].date == twice[|combined| + 1].date == date
      && twice[|combined|].market == twice[|combined| + 1].market == Sanitize(exchange)
  {
    var once := UpdateDailyCombined(Some(combined), exchange, v1, date);
    assert once[|combined|] == Summary(date, Sanitize(exchange), v1);
  }

  // ---- Selecting an exchange's tickers ----

  /** `item.get("market", "").lower() == ex_name.lower()`. */
  predicate MarketMatches(t: Ticker, exName: string)
    ensures MarketMatches(t, exName) <==>
      var m := t.market.GetOr("");
      |m| == |exName| && forall i :: 0 <= i < |m| ==> LowerChar(m[i]) == LowerChar(exName[i])
  {
    Lower(t.market.GetOr("")) == Lower(exName)
  }

  /** The list comprehension that picks an exchange's tickers out of the API response. */
  function SelectTickers(all: seq<Ticker>, exName: string): (r: seq<Ticker>)
    ensures forall t :: t in r ==> t in all && MarketMatches(t, exName)
    ensures forall t :: t in all && MarketMatches(t, exName) ==> t in r
    ensures |r| <= |all|
  {
    if all == [] then []
    else (if MarketMatches(all[0], exName) then [all[0]] else []) + SelectTickers(all[1..], exName)
  }

  /** Selection keeps the original order: selecting from a concatenation concatenates the selections. */
  lemma {:induction false} SelectTickersAppend(a: seq<Ticker>, b: seq<Ticker>, exName: string)
    ensures SelectTickers(a + b, exName) == SelectTickers(a, exName) + SelectTickers(b, exName)
  {
    if a == [] {
      assert a + b == b;
    } else {
      assert (a + b)[0] == a[0];
      assert (a + b)[1..] == a[1..] + b;
      SelectTickersAppend(a[1..], b, exName);
    }
  }

  /** Each ticker is kept exactly as many times as it occurs when its market matches, and never otherwise. */
  lemma {:induction false} SelectTickersCounts(all: seq<Ticker>, exName: string, t: Ticker)
    ensures multiset(SelectTickers(all, exName))[t] == if MarketMatches(t, exName) then multiset(all)[t] else 0
  {
    if all != [] {
      SelectTickersCounts(all[1..], exName, t);
      assert all == [all[0]] + all[1..];
    }
  }
}
