/**
 * Placing a downloaded image in the download folder: the image is fetched to
 * a temporary file, which is then renamed to the target name, replaces an
 * existing file of the same size, or is given the next free-looking number
 * (`downloadImage`, src/utils.ts, and its older form in app/js/puppeteer.js).
 *
 * The folder is a map from file name to size in bytes, with the names in
 * the order `readdirSync` lists them: libuv's `scandir` sorts them with
 * `strcmp`, which on UTF-8 names is the order of their code points
 * (`Below`). A write or rename that creates a name inserts it at its place
 * in that order. The placement lemmas hold for whatever order the listing has.
 */
module Folder {
  import opened Text
  import opened Numbers
  import opened Naming

  datatype Dir = Dir(files: map<string, nat>, listing: seq<string>)

  /** The listing names every file, in `strcmp` order. */
  ghost predicate Valid(d: Dir) {
    Sorted(d.listing) && forall n :: n in d.files <==> n in d.listing
  }

  // ---------------------------------------------------------------- the order of readdirSync

  /** `strcmp(a, b) < 0`: the first differing character decides, and a proper prefix comes first. */
  predicate Below(a: string, b: string)
    decreases |a|
  {
    |b| > 0 && (|a| == 0 || a[0] < b[0] || (a[0] == b[0] && Below(a[1..], b[1..])))
  }

  /** `Below` is a strict total order. */
  lemma {:induction false} BelowIrreflexive(a: string)
    ensures !Below(a, a)
    decreases |a|
  {
    if |a| > 0 {
      BelowIrreflexive(a[1..]);
    }
  }

  lemma {:induction false} BelowTrans(a: string, b: string, c: string)
    requires Below(a, b) && Below(b, c)
    ensures Below(a, c)
    decreases |a|
  {
    if |a| > 0 && a[0] == b[0] && b[0] == c[0] {
      BelowTrans(a[1..], b[1..], c[1..]);
    }
  }

  lemma {:induction false} BelowTotal(a: string, b: string)
    ensures a == b || Below(a, b) || Below(b, a)
    decreases |a|
  {
    if |a| > 0 && |b| > 0 && a[0] == b[0] {
      BelowTotal(a[1..], b[1..]);
      if a[1..] == b[1..] {
        assert a == [a[0]] + a[1..] && b == [b[0]] + b[1..];
      }
    }
  }

  /** Names sharing a prefix are ordered by what follows it. */
  lemma {:induction false} BelowAfterPrefix(p: string, a: string, b: string)
    ensures Below(p + a, p + b) == Below(a, b)
    decreases |p|
  {
    if |p| > 0 {
      assert (p + a)[0] == p[0] && (p + b)[0] == p[0];
      assert (p + a)[1..] == p[1..] + a && (p + b)[1..] == p[1..] + b;
      BelowAfterPrefix(p[1..], a, b);
    } else {
      assert p + a == a && p + b == b;
    }
  }

  /** Every name before every later one. */
  ghost predicate Sorted(xs: seq<string>) {
    forall i, j :: 0 <= i < j < |xs| ==> Below(xs[i], xs[j])
  }

  /** A sorted listing names no file twice. */
  lemma SortedNoDup(xs: seq<string>)
    requires Sorted(xs)
    ensures NoDup(xs)
  {
    forall i, j | 0 <= i < j < |xs|
      ensures xs[i] != xs[j]
    {
      BelowIrreflexive(xs[i]);
    }
  }

  lemma SortedCons(a: string, ys: seq<string>)
    requires Sorted(ys) && forall y :: y in ys ==> Below(a, y)
    ensures Sorted([a] + ys)
  {
    var r := [a] + ys;
    forall i, j | 0 <= i < j < |r|
      ensures Below(r[i], r[j])
    {
      if i > 0 {
        assert r[i] == ys[i - 1] && r[j] == ys[j - 1];
      } else {
        assert r[j] == ys[j - 1];
      }
    }
  }

  /**
   * Two listings in `strcmp` order of the same names are equal: the listing
   * of a valid folder is exactly what `readdirSync` returns for its files.
   */
  lemma {:induction false} SortedUnique(a: seq<string>, b: seq<string>)
    requires Sorted(a) && Sorted(b)
    requires forall y :: y in a <==> y in b
    ensures a == b
    decreases |a|
  {
    assert |a| == 0 <==> |b| == 0 by {
      if |a| > 0 {
        assert a[0] in b;
      }
      if |b| > 0 {
        assert b[0] in a;
      }
    }
    if |a| > 0 {
      assert a[0] == b[0] by {
        assert a[0] in b && b[0] in a;
        var i :| 0 <= i < |b| && b[i] == a[0];
        var j :| 0 <= j < |a| && a[j] == b[0];
        if i > 0 && j > 0 {
          BelowTrans(a[0], b[0], a[0]);
          BelowIrreflexive(a[0]);
          assert false;
        }
      }
      SortedNoDup(a);
      SortedNoDup(b);
      forall y
        ensures y in a[1..] <==> y in b[1..]
      {
        TailMember(a, y);
        TailMember(b, y);
      }
      SortedTail(a);
      SortedTail(b);
      SortedUnique(a[1..], b[1..]);
      assert a == [a[0]] + a[1..] && b == [b[0]] + b[1..];
    }
  }

  lemma SortedTail(xs: seq<string>)
    requires Sorted(xs) && |xs| > 0
    ensures Sorted(xs[1..])
  {
    forall i, j | 0 <= i < j < |xs[1..]|
      ensures Below(xs[1..][i], xs[1..][j])
    {
      assert xs[1..][i] == xs[i + 1] && xs[1..][j] == xs[j + 1];
    }
  }

  lemma TailMember(xs: seq<string>, y: string)
    requires |xs| > 0 && NoDup(xs)
    ensures y in xs[1..] <==> y in xs && y != xs[0]
  {
    if y in xs[1..] {
      var j :| 0 <= j < |xs[1..]| && xs[1..][j] == y;
      assert xs[j + 1] == y;
    }
    if y in xs && y != xs[0] {
      var j :| 0 <= j < |xs| && xs[j] == y;
      assert xs[1..][j - 1] == y;
    }
  }

  /** A new name placed before the first listed name it precedes. */
  function Insert(xs: seq<string>, x: string): (r: seq<string>)
    ensures forall y :: y in r <==> y in xs || y == x
    ensures |r| == |xs| + 1
  {
    if |xs| == 0 || Below(x, xs[0]) then [x] + xs else [xs[0]] + Insert(xs[1..], x)
  }

  /** Inserting a name that is not listed keeps the listing in `strcmp` order. */
  lemma {:induction false} InsertSorted(xs: seq<string>, x: string)
    requires Sorted(xs) && x !in xs
    ensures Sorted(Insert(xs, x))
    decreases |xs|
  {
    if |xs| == 0 {
    } else if Below(x, xs[0]) {
      forall y | y in xs
        ensures Below(x, y)
      {
        var j :| 0 <= j < |xs| && xs[j] == y;
        if j > 0 {
          BelowTrans(x, xs[0], y);
        }
      }
      SortedCons(x, xs);
    } else {
      BelowTotal(x, xs[0]);
      SortedTail(xs);
      assert x !in xs[1..];
      InsertSorted(xs[1..], x);
      forall y | y in Insert(xs[1..], x)
        ensures Below(xs[0], y)
      {
        if y != x {
          var j :| 0 <= j < |xs[1..]| && xs[1..][j] == y;
          assert xs[j + 1] == y;
        }
      }
      SortedCons(xs[0], Insert(xs[1..], x));
    }
  }

  /** Removing a name keeps the listing in `strcmp` order. */
  lemma {:induction false} RemoveSorted(xs: seq<string>, x: string)
    requires Sorted(xs)
    ensures Sorted(Remove(xs, x))
    decreases |xs|
  {
    if |xs| > 0 {
      SortedTail(xs);
      RemoveSorted(xs[1..], x);
      var rest := Remove(xs[1..], x);
      if xs[0] != x {
        forall y | y in rest
          ensures Below(xs[0], y)
        {
          var j :| 0 <= j < |xs[1..]| && xs[1..][j] == y;
          assert xs[j + 1] == y;
        }
        SortedCons(xs[0], rest);
      } else {
        assert [] + rest == rest;
      }
    }
  }

  function Remove(xs: seq<string>, x: string): (r: seq<string>)
    ensures forall y :: y in r <==> y in xs && y != x
    ensures NoDup(xs) ==> NoDup(r)
    decreases |xs|
  {
    if |xs| == 0 then []
    else
      var rest := Remove(xs[1..], x);
      assert NoDup(xs) ==> xs[0] !in xs[1..];
      (if xs[0] == x then [] else [xs[0]]) + rest
  }

  // ---------------------------------------------------------------- file-system operations

  /** Writing a file creates it or replaces its content. */
  function AfterWrite(d: Dir, n: string, size: nat): Dir {
    Dir(d.files[n := size], if n in d.listing then d.listing else Insert(d.listing, n))
  }

  /** `unlinkSync`: fails (`None`) when the file does not exist. */
  function AfterUnlink(d: Dir, n: string): Option<Dir> {
    if n !in d.files then None else Some(Dir(d.files - {n}, Remove(d.listing, n)))
  }

  /** `renameSync`: fails when the source does not exist, and replaces an existing target. */
  function AfterRename(d: Dir, src: string, dst: string): Option<Dir> {
    if src !in d.files then None
    else if src == dst then Some(d)
    else
      var l := Remove(d.listing, src);
      Some(Dir((d.files - {src})[dst := d.files[src]], if dst in l then l else Insert(l, dst)))
  }

  function OrKeep(o: Option<Dir>, d: Dir): Dir {
    if o.Some? then o.value else d
  }

  lemma WriteValid(d: Dir, n: string, size: nat)
    requires Valid(d)
    ensures Valid(AfterWrite(d, n, size))
  {
    if n !in d.listing {
      InsertSorted(d.listing, n);
    }
  }

  lemma UnlinkValid(d: Dir, n: string)
    requires Valid(d) && n in d.files
    ensures Valid(AfterUnlink(d, n).value)
  {
    RemoveSorted(d.listing, n);
  }

  lemma RenameValid(d: Dir, src: string, dst: string)
    requires Valid(d) && src in d.files
    ensures Valid(AfterRename(d, src, dst).value)
  {
    if src != dst {
      var l := Remove(d.listing, src);
      RemoveSorted(d.listing, src);
      if dst !in l {
        InsertSorted(l, dst);
      }
      var r := AfterRename(d, src, dst).value;
      assert forall n :: n in r.files <==> n in r.listing;
    }
  }

  /** A valid folder's listing names each file once and is the only `strcmp`-ordered listing of its files. */
  lemma ValidListing(d: Dir, names: seq<string>)
    requires Valid(d)
    ensures NoDup(d.listing)
    ensures Sorted(names) && (forall n :: n in names <==> n in d.files) ==> names == d.listing
  {
    SortedNoDup(d.listing);
    if Sorted(names) && (forall n :: n in names <==> n in d.files) {
      SortedUnique(names, d.listing);
    }
  }

  // ---------------------------------------------------------------- names

  /** `path.parse(base).ext` for a name without `/`: from the last dot, unless there is none, it is the first character, or the name is `..`. */
  function Ext(base: string): string {
    var k := LastIndexOf(base, '.');
    if k <= 0 || base == ".." then "" else base[k..]
  }

  /** `path.parse(base).name`: the name without its extension. */
  function Stem(base: string): string {
    base[..|base| - |Ext(base)|]
  }

  lemma ExtSpec(base: string)
    ensures |Ext(base)| <= |base| && base == Stem(base) + Ext(base)
    ensures Ext(base) == "" || (Ext(base)[0] == '.' && '.' !in Ext(base)[1..])
  {
    var k := LastIndexOf(base, '.');
    if !(k <= 0 || base == "..") {
      assert base[k..][1..] == base[k + 1..];
    }
  }

  /** A name made of a stem without dots, a dot and an extension without dots parses into those two parts. */
  lemma ExtOf(stem: string, e: string)
    requires |stem| > 0 && '.' !in stem && '.' !in e
    ensures Ext(stem + "." + e) == "." + e && Stem(stem + "." + e) == stem
  {
    var s := stem + "." + e;
    assert s[|stem|] == '.';
    assert forall j :: |stem| < j < |s| ==> s[j] == e[j - |stem| - 1];
    assert LastIndexOf(s, '.') == |stem| by {
      LastIndexOfIs(s, '.', |stem|);
    }
    assert s != ".." by {
      assert s[0] == stem[0];
    }
    assert s[|stem|..] == "." + e;
  }

  lemma {:induction false} LastIndexOfIs(s: string, c: char, k: int)
    requires 0 <= k < |s| && s[k] == c && forall j :: k < j < |s| ==> s[j] != c
    ensures LastIndexOf(s, c) == k
    decreases |s|
  {
    if k < |s| - 1 {
      LastIndexOfIs(s[..|s| - 1], c, k);
    }
  }

  /** The temporary file: `temp-image` with the target's extension. */
  function TempName(name: string): string {
    "temp-image" + Ext(name)
  }

  /** A generated name (`behance-...`) is never the temporary name. */
  lemma GeneratedIsNotTemp(name: string)
    requires StartsWith(name, "behance-")
    ensures name != TempName(name)
  {
    assert name[0] == 'b';
    assert TempName(name)[0] == 't';
  }

  /** The target's name without its last `-` piece: `name.split('-').slice(0, -1).join('-')`. */
  function Pattern(name: string): string {
    var parts := Split(Stem(name), "-");
    Join(parts[..|parts| - 1], "-")
  }

  /** The pattern is a prefix of the name, so the target itself always matches it. */
  lemma PatternPrefix(name: string)
    ensures StartsWith(name, Pattern(name))
  {
    var stem := Stem(name);
    var parts := Split(stem, "-");
    var n := |parts|;
    ExtSpec(name);
    PrefixOf(stem, Ext(name));
    if n > 1 {
      SplitAt(stem, "-", n - 1);
      var p := Join(parts[..n - 1], "-");
      var rest := Join(parts[n - 1..], "-");
      Assoc(p, "-", rest);
      PrefixOf(p, "-" + rest);
      PrefixTrans(name, stem, p);
    }
  }

  lemma PrefixOf(a: string, b: string)
    ensures StartsWith(a + b, a)
  {
    assert (a + b)[..|a|] == a;
  }

  lemma PrefixTrans(a: string, b: string, c: string)
    requires StartsWith(a, b) && StartsWith(b, c)
    ensures StartsWith(a, c)
  {
    assert a[..|c|] == b[..|b|][..|c|];
  }

  /** The listed names that start with `p`, in listing order. */
  function Matching(listing: seq<string>, p: string): (r: seq<string>)
    ensures forall x :: x in r <==> x in listing && StartsWith(x, p)
    decreases |listing|
  {
    if |listing| == 0 then []
    else
      var init := listing[..|listing| - 1];
      assert listing == init + [Last(listing)];
      Matching(init, p) + (if StartsWith(Last(listing), p) then [Last(listing)] else [])
  }

  /** `parseInt` of the last `-` piece of a file's stem, plus one; NaN stays NaN. */
  function NextNumber(file: string): Option<int> {
    match ParseInt(Last(Split(Stem(file), "-")))
    case None => None
    case Some(n) => Some(n + 1)
  }

  /**
   * The renamed target: the pattern, `-`, the number after that of the LAST
   * listed name starting with the pattern, and that name's extension.
   * `None` when no name matches (`pop` gives `undefined` and parsing it throws).
   */
  function NextName(listing: seq<string>, name: string): Option<string> {
    var m := Matching(listing, Pattern(name));
    if |m| == 0 then None
    else
      var last := Last(m);
      Some(Pattern(name) + "-" + TwoDigitsOrNaN(NextNumber(last)) + Ext(last))
  }

  /** Only the last matching name counts: whatever precedes it in the listing has no influence. */
  lemma NextNameLast(before: seq<string>, after: seq<string>, last: string, name: string)
    requires StartsWith(last, Pattern(name))
    requires forall i :: 0 <= i < |after| ==> !StartsWith(after[i], Pattern(name))
    ensures NextName(before + [last] + after, name) ==
      Some(Pattern(name) + "-" + TwoDigitsOrNaN(NextNumber(last)) + Ext(last))
  {
    MatchingSplit(before, last, after, Pattern(name));
  }

  lemma {:induction false} MatchingSplit(before: seq<string>, last: string, after: seq<string>, p: string)
    requires StartsWith(last, p)
    requires forall i :: 0 <= i < |after| ==> !StartsWith(after[i], p)
    ensures var m := Matching(before + [last] + after, p); |m| > 0 && Last(m) == last
    decreases |after|
  {
    var l := before + [last] + after;
    if |after| == 0 {
      assert l[..|l| - 1] == before;
    } else {
      var a := after[..|after| - 1];
      assert l[..|l| - 1] == before + [last] + a;
      MatchingSplit(before, last, a, p);
    }
  }

  /** A target that exists always has a next name. */
  lemma NextNameDefined(d: Dir, name: string)
    requires Valid(d) && name in d.files
    ensures NextName(d.listing, name).Some?
  {
    PatternPrefix(name);
    assert name in Matching(d.listing, Pattern(name));
  }

  /** `(bytes / 1024).toFixed(2)`, as the number of hundredths it shows: exact, with halves rounded up. */
  function KbKey(bytes: nat): nat {
    (100 * bytes + 512) / 1024
  }

  /** `getFileSizeInKB`: the key of an existing file, and `''` (here `None`) for a missing one. */
  function SizeKey(d: Dir, n: string): Option<nat> {
    if n in d.files then Some(KbKey(d.files[n])) else None
  }

  /**
   * The key grows with the size and only sizes less than eleven bytes apart
   * share it, but such sizes can: a file counts as "the same size" on a
   * near miss.
   */
  lemma KbKeyCoarse(a: nat, b: nat)
    ensures a <= b ==> KbKey(a) <= KbKey(b)
    ensures KbKey(a) == KbKey(b) ==> -11 < a - b < 11
    ensures KbKey(1024) == KbKey(1028)
  {
    var ka, kb := KbKey(a), KbKey(b);
    assert 1024 * ka <= 100 * a + 512 < 1024 * ka + 1024;
    assert 1024 * kb <= 100 * b + 512 < 1024 * kb + 1024;
  }

  // ---------------------------------------------------------------- downloadImage of src/utils.ts

  /**
   * The folder after the fetch (`Some(size)` when a file was written) and the
   * EXIF step (`Some(size)` when piexif rewrote the JPEG, `None` when it threw).
   */
  function Fetched(d: Dir, name: string, fetched: Option<nat>, exif: Option<nat>): Dir {
    var temp := TempName(name);
    var d1 := if fetched.Some? then AfterWrite(d, temp, fetched.value) else d;
    if IsJpegPath(temp) && temp in d1.files && exif.Some? then AfterWrite(d1, temp, exif.value) else d1
  }

  /** The checks and renames after the download; a failing operation ends the step where it failed. */
  function Place(d: Dir, name: string): Dir {
    var temp := TempName(name);
    if temp !in d.files then d
    else if name !in d.files then OrKeep(AfterRename(d, temp, name), d)
    else if KbKey(d.files[temp]) == KbKey(d.files[name]) then ReplaceTarget(d, temp, name)
    else Renumber(d, temp, name)
  }

  /** Same size: unlink the target, then rename the temporary file to it. */
  function ReplaceTarget(d: Dir, temp: string, name: string): Dir {
    match AfterUnlink(d, name)
    case None => d
    case Some(d1) => OrKeep(AfterRename(d1, temp, name), d1)
  }

  /** Different size: rename the temporary file to the next name. */
  function Renumber(d: Dir, temp: string, name: string): Dir {
    match NextName(d.listing, name)
    case None => d
    case Some(next) => OrKeep(AfterRename(d, temp, next), d)
  }

  function AfterDownload(d: Dir, name: string, fetched: Option<nat>, exif: Option<nat>): Dir {
    Place(Fetched(d, name, fetched, exif), name)
  }

  /** Without a temporary file, before or after the fetch, nothing changes. */
  lemma NoTempNoChange(d: Dir, name: string, exif: Option<nat>)
    requires TempName(name) !in d.files
    ensures AfterDownload(d, name, None, exif) == d
  {
  }

  /** A new target: the temporary file becomes the target. */
  lemma PlaceFresh(d: Dir, name: string)
    requires TempName(name) in d.files && name !in d.files
    ensures Place(d, name).files == (d.files - {TempName(name)})[name := d.files[TempName(name)]]
  {
  }

  /** An existing target of the same size is replaced by the temporary file. */
  lemma PlaceSameSize(d: Dir, name: string)
    requires TempName(name) in d.files && name in d.files && name != TempName(name)
    requires KbKey(d.files[TempName(name)]) == KbKey(d.files[name])
    ensures Place(d, name).files == (d.files - {TempName(name)})[name := d.files[TempName(name)]]
  {
  }

  /** If the target were the temporary name itself, the same-size branch would delete it. */
  lemma PlaceTempIsTarget(d: Dir, name: string)
    requires name == TempName(name) && name in d.files
    ensures Place(d, name).files == d.files - {name}
  {
  }

  /**
   * An existing target of a different size: the temporary file moves to the
   * next name, replacing any file already called that; the target is left
   * as it is unless the next name is the target itself.
   */
  lemma PlaceDifferentSize(d: Dir, name: string)
    requires Valid(d)
    requires TempName(name) in d.files && name in d.files
    requires KbKey(d.files[TempName(name)]) != KbKey(d.files[name])
    ensures NextName(d.listing, name).Some?
    ensures var next := NextName(d.listing, name).value;
      var temp := TempName(name);
      && Place(d, name).files == (if next == temp then d.files else (d.files - {temp})[next := d.files[temp]])
      && name in Place(d, name).files
      && (next != name ==> Place(d, name).files[name] == d.files[name])
  {
    NextNameDefined(d, name);
    var temp := TempName(name);
    var next := NextName(d.listing, name).value;
    assert Place(d, name) == Renumber(d, temp, name);
    assert Renumber(d, temp, name) == AfterRename(d, temp, next).value;
  }

  /** Every step keeps the listing in agreement with the files. */
  lemma DownloadImageValid(d: Dir, name: string, fetched: Option<nat>, exif: Option<nat>)
    requires Valid(d)
    ensures Valid(AfterDownload(d, name, fetched, exif))
  {
    var temp := TempName(name);
    var d1 := if fetched.Some? then AfterWrite(d, temp, fetched.value) else d;
    if fetched.Some? {
      WriteValid(d, temp, fetched.value);
    }
    var d2 := Fetched(d, name, fetched, exif);
    if IsJpegPath(temp) && temp in d1.files && exif.Some? {
      WriteValid(d1, temp, exif.value);
    }
    PlaceValid(d2, name);
  }

  lemma PlaceValid(d: Dir, name: string)
    requires Valid(d)
    ensures Valid(Place(d, name))
  {
    var temp := TempName(name);
    if temp in d.files {
      if name !in d.files {
        RenameValid(d, temp, name);
      } else if KbKey(d.files[temp]) == KbKey(d.files[name]) {
        ReplaceTargetValid(d, temp, name);
      } else {
        RenumberValid(d, temp, name);
      }
    }
  }

  lemma ReplaceTargetValid(d: Dir, temp: string, name: string)
    requires Valid(d) && name in d.files
    ensures Valid(ReplaceTarget(d, temp, name))
  {
    UnlinkValid(d, name);
    var d1 := AfterUnlink(d, name).value;
    if temp in d1.files {
      RenameValid(d1, temp, name);
    }
  }

  lemma RenumberValid(d: Dir, temp: string, name: string)
    requires Valid(d)
    ensures Valid(Renumber(d, temp, name))
  {
    match NextName(d.listing, name)
    case None =>
    case Some(next) =>
      if temp in d.files {
        RenameValid(d, temp, next);
      }
  }

  // ---------------------------------------------------------------- concrete listing

  lemma SplitTwo(a: string, b: string)
    requires '-' !in a && '-' !in b
    ensures Split(a + "-" + b, "-") == [a, b]
  {
    assert !Contains(a, "-") by {
      ContainsChar(a, '-');
    }
    IndexOfAfterFree(a, "-", b);
    var s := a + "-" + b;
    assert s[|a| + 1..] == b;
    assert !Contains(b, "-") by {
      ContainsChar(b, '-');
    }
    assert s[..|a|] == a;
  }

  /** The temporary name of a `.jpg` target. */
  lemma TempJpg(stem: string)
    requires |stem| > 0 && '.' !in stem
    ensures TempName(stem + ".jpg") == "temp-image.jpg"
  {
    ExtOf(stem, "jpg");
    assert "." + "jpg" == ".jpg";
    Regroup2(stem, ".", "jpg", ".jpg");
    TempOfJpg(stem + ".jpg");
  }

  lemma TempOfJpg(name: string)
    requires Ext(name) == ".jpg"
    ensures TempName(name) == "temp-image.jpg"
  {
  }

  /** A numbered name `<x>-<n>.jpg` parses into its stem and extension, and its stem into `x` and `n`. */
  lemma NumberedParts(x: string, n: string)
    requires |x| > 0 && '-' !in x && '.' !in x && '-' !in n && '.' !in n
    ensures Ext(x + "-" + n + ".jpg") == ".jpg" && Stem(x + "-" + n + ".jpg") == x + "-" + n
    ensures Split(Stem(x + "-" + n + ".jpg"), "-") == [x, n]
  {
    var stem := x + "-" + n;
    assert '.' !in stem;
    ExtOf(stem, "jpg");
    assert "." + "jpg" == ".jpg";
    Regroup2(stem, ".", "jpg", ".jpg");
    SplitTwo(x, n);
  }

  lemma NumberedLiterals()
    ensures "-" + "01" + ".jpg" == "-01.jpg" && "-" + "99" + ".jpg" == "-99.jpg" && "-" + "100" + ".jpg" == "-100.jpg"
  {
  }

  lemma PlainDigits()
    ensures '-' !in "01" && '.' !in "01" && '-' !in "99" && '.' !in "99" && '-' !in "100" && '.' !in "100"
  {
  }

  /**
   * A folder holding `x-01.jpg`, `x-100.jpg` and `x-99.jpg` is listed in that
   * order, so a new `x-01.jpg` of another size is numbered after the last
   * listed name, `x-99.jpg`, and so is written over the existing `x-100.jpg`.
   */
  lemma LastListedNotMax(x: string, d: Dir)
    requires |x| > 0 && '-' !in x && '.' !in x
    requires Valid(d) && d.files.Keys == {x + "-01.jpg", x + "-100.jpg", x + "-99.jpg"}
    ensures d.listing == [x + "-01.jpg", x + "-100.jpg", x + "-99.jpg"]
    ensures NextName(d.listing, x + "-01.jpg") == Some(x + "-100.jpg")
  {
    var names := [x + "-01.jpg", x + "-100.jpg", x + "-99.jpg"];
    NumberedSorted(x);
    ValidListing(d, names);
    LastListedCounts(x);
    NumberAfter99(x);
    ExtOf99(x);
    HundredName(x, TwoDigitsOrNaN(NextNumber(x + "-99.jpg")), Ext(x + "-99.jpg"));
  }

  /** `strcmp` puts `-01.jpg` before `-100.jpg` before `-99.jpg`, whatever precedes them. */
  lemma NumberedSorted(x: string)
    ensures Sorted([x + "-01.jpg", x + "-100.jpg", x + "-99.jpg"])
  {
    assert Below("-01.jpg", "-100.jpg") by {
      assert "-01.jpg"[1..] == "01.jpg" && "-100.jpg"[1..] == "100.jpg";
    }
    assert Below("-100.jpg", "-99.jpg") by {
      assert "-100.jpg"[1..] == "100.jpg" && "-99.jpg"[1..] == "99.jpg";
    }
    BelowAfterPrefix(x, "-01.jpg", "-100.jpg");
    BelowAfterPrefix(x, "-100.jpg", "-99.jpg");
    BelowTrans(x + "-01.jpg", x + "-100.jpg", x + "-99.jpg");
  }

  lemma NumberAfter99(x: string)
    requires |x| > 0 && '-' !in x && '.' !in x
    ensures TwoDigitsOrNaN(NextNumber(x + "-99.jpg")) == "100"
  {
    NextNumberOf(x);
    Hundred();
  }

  lemma HundredName(x: string, number: string, e: string)
    requires number == "100" && e == ".jpg"
    ensures x + "-" + number + e == x + "-100.jpg"
  {
    assert "-" + "100" + ".jpg" == "-100.jpg";
  }

  /** The name is built from the pattern and the last listed match `x-99.jpg`. */
  lemma LastListedCounts(x: string)
    requires |x| > 0 && '-' !in x && '.' !in x
    ensures NextName([x + "-01.jpg", x + "-100.jpg", x + "-99.jpg"], x + "-01.jpg")
      == Some(x + "-" + TwoDigitsOrNaN(NextNumber(x + "-99.jpg")) + Ext(x + "-99.jpg"))
  {
    var target := x + "-01.jpg";
    var last := x + "-99.jpg";
    var l := [target, x + "-100.jpg", last];
    PatternOf01(x);
    assert StartsWith(last, x) by {
      PrefixOf(x, "-99.jpg");
    }
    assert l == l[..2] + [last] + [];
    NextNameLast(l[..2], [], last, target);
  }

  lemma PatternOf01(x: string)
    requires |x| > 0 && '-' !in x && '.' !in x
    ensures Pattern(x + "-01.jpg") == x
  {
    PlainDigits();
    PatternOf(x, "01");
    NumberedLiterals();
    Regroup3(x, "-", "01", ".jpg", "-01.jpg");
  }

  lemma ExtOf99(x: string)
    requires |x| > 0 && '-' !in x && '.' !in x
    ensures Ext(x + "-99.jpg") == ".jpg"
  {
    PlainDigits();
    NumberedParts(x, "99");
    NumberedLiterals();
    Regroup3(x, "-", "99", ".jpg", "-99.jpg");
  }

  lemma PatternOf(x: string, n: string)
    requires |x| > 0 && '-' !in x && '.' !in x && '-' !in n && '.' !in n
    ensures Pattern(x + "-" + n + ".jpg") == x
  {
    NumberedParts(x, n);
    var parts := Split(Stem(x + "-" + n + ".jpg"), "-");
    assert parts[..1] == [x];
  }

  lemma NextNumberOf(x: string)
    requires |x| > 0 && '-' !in x && '.' !in x
    ensures NextNumber(x + "-99.jpg") == Some(100)
  {
    PlainDigits();
    NumberedParts(x, "99");
    NumberedLiterals();
    Regroup3(x, "-", "99", ".jpg", "-99.jpg");
    assert Last(Split(Stem(x + "-99.jpg"), "-")) == "99";
    ParseNinetyNine();
  }

  lemma ParseNinetyNine()
    ensures ParseInt("99") == Some(99)
  {
    assert TrimStart("99") == "99";
    assert DigitPrefix("99") == "99";
    assert DigitsValue("99") == 99;
  }

  lemma Hundred()
    ensures TwoDigitsOrNaN(Some(100)) == "100"
  {
    assert Decimal(100) == "100";
  }

  // ---------------------------------------------------------------- downloadImage of app/js/puppeteer.js

  /** The older placement: errors are not caught, so a failure ends the whole run (`crashed`). */
  function AfterLegacyDownload(d: Dir, name: string, fetched: Option<nat>, exif: Option<nat>): (Dir, bool) {
    if fetched.None? then (d, true)
    else LegacyPlace(LegacyFetched(d, name, fetched.value, exif), name)
  }

  /** The folder after `downloadFile` wrote the temporary file and the EXIF step. */
  function LegacyFetched(d: Dir, name: string, size: nat, exif: Option<nat>): Dir {
    var temp := TempName(name);
    var d1 := AfterWrite(d, temp, size);
    if IsJpegPath(temp) && exif.Some? then AfterWrite(d1, temp, exif.value) else d1
  }

  /** The choice of `pathToSave`, the unlink of a same-size target, and the final rename. */
  function LegacyPlace(d: Dir, name: string): (Dir, bool) {
    var temp := TempName(name);
    if temp in d.files && name in d.files then
      if KbKey(d.files[temp]) != KbKey(d.files[name]) then
        match NextName(d.listing, name)
        case None => (d, true)
        case Some(next) => Finish(d, temp, next)
      else
        match AfterUnlink(d, name)
        case None => (d, true)
        case Some(d1) => Finish(d1, temp, name)
    else Finish(d, temp, name)
  }

  /** The final `renameSync(tempFile, pathToSave)`, which throws when the temporary file is gone. */
  function Finish(d: Dir, temp: string, target: string): (Dir, bool) {
    match AfterRename(d, temp, target)
    case None => (d, true)
    case Some(d1) => (d1, false)
  }

  /** After the fetch the temporary file exists with the fetched size, or the size piexif wrote. */
  lemma LegacyFetchedSpec(d: Dir, name: string, size: nat, exif: Option<nat>)
    requires Valid(d)
    ensures var t := LegacyFetched(d, name, size, exif);
      && Valid(t)
      && t.files == d.files[TempName(name) := if IsJpegPath(TempName(name)) && exif.Some? then exif.value else size]
  {
    var temp := TempName(name);
    WriteValid(d, temp, size);
    var d1 := AfterWrite(d, temp, size);
    if IsJpegPath(temp) && exif.Some? {
      WriteValid(d1, temp, exif.value);
    }
  }

  /** A new target: the temporary file is renamed to it and the run goes on. */
  lemma LegacyPlaceFresh(d: Dir, name: string)
    requires Valid(d) && TempName(name) in d.files && name !in d.files
    ensures var (r, crashed) := LegacyPlace(d, name);
      !crashed && Valid(r) && r.files == (d.files - {TempName(name)})[name := d.files[TempName(name)]]
  {
    RenameValid(d, TempName(name), name);
  }

  /** A target of the same size is deleted first, then the temporary file takes its name. */
  lemma LegacyPlaceSameSize(d: Dir, name: string)
    requires Valid(d) && TempName(name) in d.files && name in d.files && name != TempName(name)
    requires KbKey(d.files[TempName(name)]) == KbKey(d.files[name])
    ensures var (r, crashed) := LegacyPlace(d, name);
      !crashed && Valid(r) && r.files == (d.files - {TempName(name)})[name := d.files[TempName(name)]]
  {
    var temp := TempName(name);
    UnlinkValid(d, name);
    var d1 := AfterUnlink(d, name).value;
    RenameValid(d1, temp, name);
    assert LegacyPlace(d, name) == Finish(d1, temp, name);
  }

  /** A target of another size stays; the temporary file goes to the next name, replacing what is there. */
  lemma LegacyPlaceDifferentSize(d: Dir, name: string)
    requires Valid(d) && TempName(name) in d.files && name in d.files
    requires KbKey(d.files[TempName(name)]) != KbKey(d.files[name])
    ensures NextName(d.listing, name).Some?
    ensures var (r, crashed) := LegacyPlace(d, name);
      var temp := TempName(name);
      var next := NextName(d.listing, name).value;
      && !crashed && Valid(r)
      && r.files == (if next == temp then d.files else (d.files - {temp})[next := d.files[temp]])
  {
    var temp := TempName(name);
    NextNameDefined(d, name);
    var next := NextName(d.listing, name).value;
    RenameValid(d, temp, next);
    assert LegacyPlace(d, name) == Finish(d, temp, next);
  }

  /** A failed fetch ends the run before the folder changes. */
  lemma LegacyFetchFails(d: Dir, name: string, exif: Option<nat>)
    ensures AfterLegacyDownload(d, name, None, exif) == (d, true)
  {
  }

  /** The older step keeps the listing and the name-to-size map in agreement, whether the run goes on or not. */
  lemma LegacyDownloadValid(d: Dir, name: string, fetched: Option<nat>, exif: Option<nat>)
    requires Valid(d)
    ensures Valid(AfterLegacyDownload(d, name, fetched, exif).0)
  {
    if fetched.Some? {
      LegacyFetchedSpec(d, name, fetched.value, exif);
      LegacyPlaceValid(LegacyFetched(d, name, fetched.value, exif), name);
    }
  }

  lemma LegacyPlaceValid(d: Dir, name: string)
    requires Valid(d)
    ensures Valid(LegacyPlace(d, name).0)
  {
    var temp := TempName(name);
    if temp in d.files && name in d.files {
      if KbKey(d.files[temp]) != KbKey(d.files[name]) {
        var next := NextName(d.listing, name);
        if next.Some? {
          RenameValid(d, temp, next.value);
        }
      } else {
        UnlinkValid(d, name);
        var d1 := AfterUnlink(d, name).value;
        if temp in d1.files {
          RenameValid(d1, temp, name);
        }
      }
    } else if temp in d.files {
      RenameValid(d, temp, name);
    }
  }

  // ---------------------------------------------------------------- the folder as mutable state

  /** The download folder, changed in place by each file operation. */
  class DownloadFolder {
    var files: map<string, nat>
    var listing: seq<string>

    function State(): Dir
      reads this
    {
      Dir(files, listing)
    }

    constructor (d: Dir)
      ensures State() == d
    {
      files := d.files;
      listing := d.listing;
    }

    method WriteFile(n: string, size: nat)
      modifies this
      ensures State() == AfterWrite(old(State()), n, size)
    {
      if n !in listing {
        listing := Insert(listing, n);
      }
      files := files[n := size];
    }

    method Unlink(n: string) returns (ok: bool)
      modifies this
      ensures ok == (n in old(files))
      ensures State() == OrKeep(AfterUnlink(old(State()), n), old(State()))
    {
      ok := n in files;
      if ok {
        files := files - {n};
        listing := Remove(listing, n);
      }
    }

    method Rename(src: string, dst: string) returns (ok: bool)
      modifies this
      ensures ok == (src in old(files))
      ensures State() == OrKeep(AfterRename(old(State()), src, dst), old(State()))
    {
      ok := src in files;
      if ok && src != dst {
        var size := files[src];
        listing := Remove(listing, src);
        if dst !in listing {
          listing := Insert(listing, dst);
        }
        files := (files - {src})[dst := size];
      }
    }

    /** `downloadImage` of src/utils.ts after the fetch: every error is caught and ends the step. */
    method DownloadImage(name: string, fetched: Option<nat>, exif: Option<nat>)
      modifies this
      ensures State() == AfterDownload(old(State()), name, fetched, exif)
    {
      var temp := TempName(name);
      if fetched.Some? {
        WriteFile(temp, fetched.value);
      }
      if IsJpegPath(temp) && temp in files && exif.Some? {
        WriteFile(temp, exif.value);
      }
      assert State() == Fetched(old(State()), name, fetched, exif);
      var tempExists := temp in files;
      var imageExists := name in files;
      var sameSize := SizeKey(State(), temp) == SizeKey(State(), name);
      if tempExists && !imageExists {
        var _ := Rename(temp, name);
        return;
      }
      if tempExists && imageExists && sameSize {
        var ok := Unlink(name);
        if ok {
          ok := Rename(temp, name);
        }
        return;
      }
      if tempExists && imageExists && !sameSize {
        var next := NextName(listing, name);
        if next.Some? {
          var _ := Rename(temp, next.value);
        }
      }
    }

    /** `downloadImage` of app/js/puppeteer.js; `crashed` when an error escapes. */
    method LegacyDownloadImage(name: string, fetched: Option<nat>, exif: Option<nat>) returns (crashed: bool)
      modifies this
      ensures (State(), crashed) == AfterLegacyDownload(old(State()), name, fetched, exif)
    {
      var temp := TempName(name);
      if fetched.None? {
        return true;
      }
      WriteFile(temp, fetched.value);
      if IsJpegPath(temp) && exif.Some? {
        WriteFile(temp, exif.value);
      }
      var pathToSave := name;
      if temp in files && name in files {
        if KbKey(files[temp]) != KbKey(files[name]) {
          var next := NextName(listing, name);
          if next.None? {
            return true;
          }
          pathToSave := next.value;
        } else {
          var ok := Unlink(name);
          if !ok {
            return true;
          }
        }
      }
      var ok := Rename(temp, pathToSave);
      crashed := !ok;
    }
  }
}
