/**
 * URL and file-name helpers: `makeValidBehanceUrl`, `formatUrlForUi`, the
 * kebab-case pipeline, `addZeroForNumberLessTen` and the file names of
 * downloaded images (src/utils.ts), with the older `shortenUrl` of
 * app/js/utils.js and the `generateFilePath` functions of
 * app/js/puppeteer.js and src/services.js.
 *
 * Transliteration to Latin letters is a library call; it enters as a
 * parameter `latinize`, and every property here holds for any such function.
 */
module Naming {
  import opened Text
  import opened Numbers

  // ---------------------------------------------------------------- URLs

  const BehanceOrigin := "https://www.behance.net"

  /** `makeValidBehanceUrl`: adds the origin to a relative URL, then strips the query. */
  function MakeValidBehanceUrl(url: string): string {
    var full := if !Contains(url, "behance.net/") then BehanceOrigin + url else url;
    BeforeQuery(full)
  }

  lemma OriginNoQuery()
    ensures '?' !in BehanceOrigin
  {
    var o := BehanceOrigin;
    assert forall i :: 0 <= i < |o| ==> o[i] != '?';
  }

  /** The result has no query; the origin is prepended exactly when the input lacks `behance.net/`. */
  lemma MakeValidBehanceUrlSpec(url: string)
    ensures '?' !in MakeValidBehanceUrl(url)
    ensures !Contains(url, "behance.net/") ==> MakeValidBehanceUrl(url) == BehanceOrigin + BeforeQuery(url)
    ensures Contains(url, "behance.net/") ==> MakeValidBehanceUrl(url) == BeforeQuery(url)
  {
    OriginNoQuery();
    if !Contains(url, "behance.net/") {
      BeforeQueryPrefix(BehanceOrigin, url);
    }
  }

  /** An output that contains `behance.net/` is a fixed point. */
  lemma MakeValidBehanceUrlFixed(url: string)
    requires Contains(MakeValidBehanceUrl(url), "behance.net/")
    ensures MakeValidBehanceUrl(MakeValidBehanceUrl(url)) == MakeValidBehanceUrl(url)
  {
    BeforeQueryNoQuery(MakeValidBehanceUrl(url));
  }

  /** Site-relative links (`/gallery/...`) become absolute, so normalising them twice changes nothing. */
  lemma MakeValidRelative(url: string)
    requires |url| > 0 && url[0] == '/' && !Contains(url, "behance.net/")
    ensures StartsWith(MakeValidBehanceUrl(url), "https://www.behance.net/")
    ensures MakeValidBehanceUrl(MakeValidBehanceUrl(url)) == MakeValidBehanceUrl(url)
  {
    MakeValidBehanceUrlSpec(url);
    var q := BeforeQuery(url);
    assert q[0] == '/';
    OriginThenSlash(BehanceOrigin + q, q);
    MakeValidBehanceUrlFixed(url);
  }

  /** The origin followed by a path that starts with a slash names `behance.net/` and starts with the origin and that slash. */
  lemma OriginThenSlash(r: string, q: string)
    requires r == BehanceOrigin + q && |q| > 0 && q[0] == '/'
    ensures StartsWith(r, "https://www.behance.net/") && Contains(r, "behance.net/")
  {
    var pat := "behance.net/";
    assert r[..|BehanceOrigin|] == BehanceOrigin;
    assert r[|BehanceOrigin|] == '/';
    assert r[..24] == r[..23] + [r[23]];
    assert r[..24] == "https://www.behance.net/";
    assert r[12..24] == r[..24][12..];
    OccursAtContains(r, pat, 12);
  }

  /** The normalisation is not idempotent in general: an empty link grows at every application. */
  lemma MakeValidNotIdempotent()
    ensures MakeValidBehanceUrl("") == BehanceOrigin
    ensures MakeValidBehanceUrl(BehanceOrigin) == BehanceOrigin + BehanceOrigin
  {
    MakeValidEmpty();
    OriginLacksPath();
    OriginNoQuery();
    MakeValidBehanceUrlSpec(BehanceOrigin);
    BeforeQueryNoQuery(BehanceOrigin);
  }

  lemma MakeValidEmpty()
    ensures MakeValidBehanceUrl("") == BehanceOrigin
  {
    MissingChar("", "behance.net/", 0);
    OriginNoQuery();
    BeforeQueryNoQuery(BehanceOrigin);
    assert BehanceOrigin + "" == BehanceOrigin;
  }

  /** The bare origin has no slash after its host, so it does not count as a Behance link. */
  lemma OriginLacksPath()
    ensures !Contains(BehanceOrigin, "behance.net/")
  {
    var o := BehanceOrigin;
    assert forall j :: 11 <= j < |o| ==> o[j] != '/';
    LateCharMissing(o, "behance.net/", 11);
  }

  /** A pattern whose `i`-th character does not occur from position `i` on is absent. */
  lemma LateCharMissing(s: string, pat: string, i: int)
    requires 0 <= i < |pat| && forall j :: i <= j < |s| ==> s[j] != pat[i]
    ensures !Contains(s, pat)
  {
    if Contains(s, pat) {
      var k := IndexOf(s, pat);
    }
  }

  /** JavaScript `substring(0, e)`: the end is clamped into `0..|t|`. */
  function Prefix(t: string, e: int): string {
    if e < 0 then "" else if e > |t| then t else t[..e]
  }

  /** The path after the host, as `formatUrlForUi` and `shortenUrl` compute it. */
  function PathPart(url: string): string {
    var parts := Split(url, "/");
    if |parts| <= 3 then "" else Join(parts[3..], "/")
  }

  /** `formatUrlForUi`: the path after the host without its query, cut to `max` with an ellipsis. */
  function FormatUrlForUi(url: string, max: int): string {
    if |Split(url, "/")| < 5 then url else Shown(PathPart(url), max)
  }

  /** The path as `formatUrlForUi` shows it. */
  function Shown(path: string, max: int): string {
    var shown := BeforeQuery(path);
    if |shown| >= max then Prefix(shown, max - 3) + "..." else shown
  }

  /** The path up to its query, or a prefix of it and `...` when that is not shorter than `max`. */
  lemma ShownSpec(path: string, max: int)
    ensures var shown := BeforeQuery(path);
      var r := Shown(path, max);
      && '?' !in r
      && (|shown| < max ==> r == shown && StartsWith(path, r))
      && (|shown| >= max ==> EndsWith(r, "...") && StartsWith(path, r[..|r| - 3]))
      && (3 <= max ==> |r| <= max)
  {
    var shown := BeforeQuery(path);
    var r := Shown(path, max);
    if |shown| >= max {
      var pre := Prefix(shown, max - 3);
      assert r[..|r| - 3] == pre;
      assert '?' !in pre;
    }
  }

  /** Splitting at a piece boundary: the URL is its first `k` pieces, a separator, and the rest. */
  lemma SplitAt(s: string, sep: string, k: nat)
    requires |sep| > 0 && 0 < k < |Split(s, sep)|
    ensures s == Join(Split(s, sep)[..k], sep) + sep + Join(Split(s, sep)[k..], sep)
  {
    var parts := Split(s, sep);
    JoinSplit(s, sep);
    assert parts == parts[..k] + parts[k..];
    JoinConcat(parts[..k], parts[k..], sep);
  }

  /** URLs with fewer than four slashes are shown as they are. */
  lemma FormatUrlForUiShort(url: string, max: int)
    requires |Split(url, "/")| < 5
    ensures FormatUrlForUi(url, max) == url
  {
  }

  /**
   * For longer URLs the text shown is taken from what follows the third
   * slash: it never has a query, it is that text (up to the query) when it is
   * shorter than `max`, and otherwise a prefix of it followed by `...`, of
   * length exactly `max` when `max >= 3`.
   */
  lemma FormatUrlForUiLong(url: string, max: int)
    requires |Split(url, "/")| >= 5
    ensures var parts := Split(url, "/");
      url == Join(parts[..3], "/") + "/" + PathPart(url)
    ensures var shown := BeforeQuery(PathPart(url));
      var r := FormatUrlForUi(url, max);
      && '?' !in r
      && (|shown| < max ==> r == shown && StartsWith(PathPart(url), r))
      && (|shown| >= max ==> EndsWith(r, "...") && StartsWith(PathPart(url), r[..|r| - 3]))
      && (3 <= max ==> |r| <= max)
  {
    SplitAt(url, "/", 3);
    ShownSpec(PathPart(url), max);
  }

  /** `shortenUrl` of app/js/utils.js: the path after the host in brackets, cut to `max` with `...`. */
  function ShortenUrl(url: string, max: int): string {
    var path := PathPart(url);
    if |path| <= max then "[" + path + "]"
    else "[" + JsSlice(path, max) + "...]"
  }

  /** JavaScript `t.slice(0, e)`: a negative end counts from the end of the string. */
  function JsSlice(t: string, e: int): string {
    if e < 0 then (if |t| + e < 0 then "" else t[..|t| + e])
    else if e > |t| then t
    else t[..e]
  }

  /** The result is bracketed; inside is the whole path when it fits, else its first `max` characters and `...`. */
  lemma ShortenUrlSpec(url: string, max: int)
    ensures var r := ShortenUrl(url, max);
      |r| >= 2 && r[0] == '[' && r[|r| - 1] == ']'
    ensures |PathPart(url)| <= max ==> ShortenUrl(url, max) == "[" + PathPart(url) + "]"
    ensures 0 <= max < |PathPart(url)| ==> ShortenUrl(url, max) == "[" + PathPart(url)[..max] + "...]"
  {
  }

  /** With four or more pieces, the shortened path is what follows the third slash. */
  lemma ShortenUrlPath(url: string)
    requires |Split(url, "/")| > 3
    ensures url == Join(Split(url, "/")[..3], "/") + "/" + PathPart(url)
  {
    SplitAt(url, "/", 3);
  }

  // ---------------------------------------------------------------- kebab case

  /** `s.replace(/[^a-zA-Z0-9]/g, symbol)`. */
  function ReplaceNonEnglish(s: string, symbol: string): (r: string)
    ensures forall i :: 0 <= i < |r| ==> r[i] in s || r[i] in symbol
    ensures forall i :: 0 <= i < |r| ==> IsAsciiAlnum(r[i]) || r[i] in symbol
    decreases |s|
  {
    if |s| == 0 then ""
    else (if IsAsciiAlnum(s[0]) then [s[0]] else symbol) + ReplaceNonEnglish(s[1..], symbol)
  }

  /** No two adjacent dashes. */
  predicate NoDoubleDash(s: string) {
    forall i :: 0 <= i < |s| - 1 ==> !(s[i] == '-' && s[i + 1] == '-')
  }

  /** `s.replace(/-+/g, '-')`: every run of dashes becomes one dash. */
  function Squeeze(s: string): (r: string)
    ensures |r| <= |s|
    ensures forall i :: 0 <= i < |r| ==> r[i] in s
    decreases |s|
  {
    if |s| == 0 then ""
    else if |s| >= 2 && s[0] == '-' && s[1] == '-' then Squeeze(s[1..])
    else [s[0]] + Squeeze(s[1..])
  }

  /** The string without any dash, to compare what `Squeeze` keeps. */
  function Undash(s: string): string
    decreases |s|
  {
    if |s| == 0 then "" else (if s[0] == '-' then "" else [s[0]]) + Undash(s[1..])
  }

  lemma {:induction false} SqueezeFirst(s: string)
    requires |s| > 0
    ensures |Squeeze(s)| > 0 && Squeeze(s)[0] == s[0]
    decreases |s|
  {
    if |s| >= 2 && s[0] == '-' && s[1] == '-' {
      SqueezeFirst(s[1..]);
    }
  }

  /** After `Squeeze` no two dashes are adjacent. */
  lemma {:induction false} SqueezeNoDoubleDash(s: string)
    ensures NoDoubleDash(Squeeze(s))
    decreases |s|
  {
    if |s| > 0 {
      SqueezeNoDoubleDash(s[1..]);
      if |s| >= 2 {
        SqueezeFirst(s[1..]);
      }
    }
  }

  /** A string without adjacent dashes is left as it is. */
  lemma {:induction false} SqueezeFixed(s: string)
    requires NoDoubleDash(s)
    ensures Squeeze(s) == s
    decreases |s|
  {
    if |s| > 0 {
      SqueezeFixed(s[1..]);
    }
  }

  /** `Squeeze` only removes dashes: every other character stays, in order. */
  lemma {:induction false} SqueezeKeepsOthers(s: string)
    ensures Undash(Squeeze(s)) == Undash(s)
    decreases |s|
  {
    if |s| > 0 {
      SqueezeKeepsOthers(s[1..]);
      var t := Squeeze(s[1..]);
      if !(|s| >= 2 && s[0] == '-' && s[1] == '-') {
        assert ([s[0]] + t)[1..] == t;
      }
    }
  }

  lemma SqueezeIdempotent(s: string)
    ensures Squeeze(Squeeze(s)) == Squeeze(s)
  {
    SqueezeNoDoubleDash(s);
    SqueezeFixed(Squeeze(s));
  }

  /** A dash-free prefix passes through `Squeeze` unchanged. */
  lemma {:induction false} SqueezeDashFree(a: string, w: string)
    requires '-' !in a
    ensures Squeeze(a + w) == a + Squeeze(w)
    decreases |a|
  {
    if |a| > 0 {
      assert (a + w)[1..] == a[1..] + w;
      SqueezeDashFree(a[1..], w);
    } else {
      assert a + w == w;
    }
  }

  /** Appending a piece without adjacent dashes: only the dash at the junction can merge. */
  lemma {:induction false} SqueezeAppend(x: string, y: string)
    requires NoDoubleDash(y) && |y| > 0
    ensures Squeeze(x + y) ==
      if |x| > 0 && x[|x| - 1] == '-' && y[0] == '-' then Squeeze(x) + y[1..] else Squeeze(x) + y
    decreases |x|
  {
    if |x| == 0 {
      assert x + y == y;
      SqueezeFixed(y);
    } else {
      var s := x + y;
      assert s[1..] == x[1..] + y;
      if |x| == 1 {
        SqueezeFixed(y);
        if !(x[0] == '-' && y[0] == '-') {
          assert Squeeze(x) == [x[0]];
        } else {
          assert Squeeze(x) == "-";
          assert y == "-" + y[1..];
        }
      } else {
        SqueezeAppend(x[1..], y);
      }
    }
  }

  /** ASCII `toLowerCase`; exact here because only ASCII letters, digits and dashes reach it. */
  function KebabOfLatin(latin: string): string {
    Lower(Squeeze(ReplaceNonEnglish(latin, "-")))
  }

  /** `convertToLatinizedKebab` (src/utils.ts, app/js/utils.js) and `convertToKebabCase` (src/services.js). */
  function Kebab(s: string, latinize: string -> string): string {
    KebabOfLatin(latinize(s))
  }

  /** `[a-z0-9-]`. */
  predicate IsKebabChar(c: char) {
    ('a' <= c <= 'z') || ('0' <= c <= '9') || c == '-'
  }

  predicate IsKebab(s: string) {
    (forall i :: 0 <= i < |s| ==> IsKebabChar(s[i])) && NoDoubleDash(s)
  }

  /** Whatever transliteration returns, the kebab form holds only `a-z`, `0-9` and single dashes. */
  lemma KebabSpec(s: string, latinize: string -> string)
    ensures IsKebab(Kebab(s, latinize))
  {
    var r := ReplaceNonEnglish(latinize(s), "-");
    var q := Squeeze(r);
    SqueezeNoDoubleDash(r);
    assert forall i :: 0 <= i < |q| ==> IsAsciiAlnum(q[i]) || q[i] == '-' by {
      forall i | 0 <= i < |q| ensures IsAsciiAlnum(q[i]) || q[i] == '-' {
        var j :| 0 <= j < |r| && r[j] == q[i];
      }
    }
    var l := Lower(q);
    assert forall i :: 0 <= i < |l| ==> (l[i] == '-' <==> q[i] == '-');
  }

  // ---------------------------------------------------------------- file names

  /** `owners.split(', ')[0]`. */
  function FirstOwner(owners: string): string {
    Split(owners, ", ")[0]
  }

  /** The first owner is a prefix of the owner list that holds no `, `; it is all of it when there is no `, `. */
  lemma FirstOwnerSpec(owners: string)
    ensures !Contains(FirstOwner(owners), ", ")
    ensures StartsWith(owners, FirstOwner(owners))
    ensures !Contains(owners, ", ") ==> FirstOwner(owners) == owners
    ensures Contains(owners, ", ") ==> StartsWith(owners, FirstOwner(owners) + ", ")
  {
    var parts := Split(owners, ", ");
    SplitPiecesFree(owners, ", ");
    assert parts[0] in parts;
    JoinSplit(owners, ", ");
    if |parts| > 1 {
      SplitAt(owners, ", ", 1);
      assert parts[..1] == [parts[0]];
      assert owners == parts[0] + ", " + Join(parts[1..], ", ");
      OccursAtContains(owners, ", ", |parts[0]|);
    } else {
      assert owners == parts[0];
    }
  }

  /** `url.split('.').pop()`: the text after the last dot, or the whole URL without one. */
  function LastDotPiece(url: string): string {
    Last(Split(url, "."))
  }

  lemma LastDotPieceSpec(url: string)
    ensures '.' !in LastDotPiece(url)
    ensures EndsWith(url, LastDotPiece(url))
    ensures '.' in url ==> EndsWith(url, "." + LastDotPiece(url))
    ensures '.' !in url ==> LastDotPiece(url) == url
  {
    var parts := Split(url, ".");
    var ext := Last(parts);
    SplitPiecesFree(url, ".");
    LastIn(parts);
    ContainsChar(ext, '.');
    var n := |parts|;
    JoinSplit(url, ".");
    if n > 1 {
      SplitAt(url, ".", n - 1);
      LastSlice(parts);
      EndsAfterDot(url, Join(parts[..n - 1], "."), ext);
    }
  }

  /** A string made of some text, a dot and `ext` ends with `ext` and with the dot before it. */
  lemma EndsAfterDot(url: string, a: string, ext: string)
    requires url == a + "." + ext
    ensures EndsWith(url, ext) && EndsWith(url, "." + ext) && '.' in url
  {
    assert url[|a|] == '.';
    assert url[|url| - |ext|..] == ext;
    assert url[|url| - |"." + ext|..] == "." + ext;
  }


  /** The template all three scripts fill, before its dashes are collapsed. */
  function Template(owner: string, title: string, number: string, ext: string): string {
    "behance-" + "-" + owner + "-" + title + "-" + number + "." + ext
  }

  /** The file name of image `index` of a project: `behance-<owner>-<title>-<nn>.<ext>`. */
  function ImageFileName(title: string, owners: string, imageUrl: string, index: int, latinize: string -> string): string {
    var owner := Kebab(FirstOwner(owners), latinize);
    var t := Kebab(title, latinize);
    Squeeze(Template(owner, t, TwoDigits(index), LastDotPiece(imageUrl)))
  }

  /** A path is a folder and a file name in it; `path.join` normalisation is not modelled. */
  datatype FilePath = FilePath(folder: string, name: string)

  /** `generateFilePathForImage` of src/utils.ts. */
  function GenerateFilePathForImage(title: string, owners: string, imageUrl: string, index: int, folder: string, latinize: string -> string): FilePath {
    FilePath(folder, ImageFileName(title, owners, imageUrl, index, latinize))
  }

  /** `generateFilePath` of app/js/puppeteer.js: the query is stripped before the extension is taken. */
  function LegacyFilePath(title: string, owners: string, url: string, index: int, folder: string, latinize: string -> string): string {
    folder + "/" + LegacyFileName(title, owners, url, index, latinize)
  }

  /** The file name part of `generateFilePath` of app/js/puppeteer.js. */
  function LegacyFileName(title: string, owners: string, url: string, index: int, latinize: string -> string): string {
    var u := if '?' in url then BeforeQuery(url) else url;
    ImageFileName(title, owners, u, index, latinize)
  }

  /** `generateFilePath` of src/services.js: the older zero padding. */
  function ServicesFileName(title: string, owners: string, url: string, counter: int, latinize: string -> string): string {
    var owner := Kebab(FirstOwner(owners), latinize);
    var t := Kebab(title, latinize);
    Squeeze(Template(owner, t, ZeroBelowTen(counter), LastDotPiece(url)))
  }

  function ServicesFilePath(title: string, owners: string, url: string, counter: int, folder: string, latinize: string -> string): string {
    folder + "/" + ServicesFileName(title, owners, url, counter, latinize)
  }

  lemma BehanceDashFree()
    ensures '-' !in "behance"
  {
    var b := "behance";
    assert forall i :: 0 <= i < |b| ==> b[i] != '-';
  }

  /** Every collapsed template starts with `behance-` and has no `--`. */
  lemma TemplateStart(owner: string, title: string, number: string, ext: string)
    ensures var f := Squeeze(Template(owner, title, number, ext));
      StartsWith(f, "behance-") && NoDoubleDash(f)
  {
    var w := "-" + "-" + owner + "-" + title + "-" + number + "." + ext;
    assert Template(owner, title, number, ext) == "behance" + w;
    BehanceDashFree();
    SqueezeDashFree("behance", w);
    SqueezeFirst(w);
    SqueezeNoDoubleDash("behance" + w);
    var f := "behance" + Squeeze(w);
    assert f[..8] == "behance-";
  }

  /** Digits, a dot and an extension without `--`: the tail no collapse can touch. */
  lemma TailNoDoubleDash(number: string, ext: string)
    requires '-' !in number && NoDoubleDash(ext)
    ensures NoDoubleDash("-" + number + "." + ext)
  {
    var y := "-" + number + "." + ext;
    var n := |number|;
    assert forall j :: 1 <= j <= n ==> y[j] == number[j - 1];
    assert y[n + 1] == '.';
    assert forall j :: n + 2 <= j < |y| ==> y[j] == ext[j - n - 2];
  }

  /** The collapsed template ends with `-<number>.<ext>` when the extension has no `--`. */
  lemma TemplateEnd(owner: string, title: string, number: string, ext: string)
    requires '-' !in number && NoDoubleDash(ext)
    ensures EndsWith(Squeeze(Template(owner, title, number, ext)), "-" + number + "." + ext)
  {
    var x := "behance-" + "-" + owner + "-" + title;
    var y := "-" + number + "." + ext;
    assert Template(owner, title, number, ext) == x + y;
    TailNoDoubleDash(number, ext);
    SqueezeAppend(x, y);
    var f := Squeeze(x + y);
    if |x| > 0 && x[|x| - 1] == '-' && y[0] == '-' {
      var sx := Squeeze(x);
      assert |sx| > 0 by {
        SqueezeFirst(x);
      }
      assert sx[|sx| - 1] == '-' by {
        SqueezeLast(x);
      }
      assert f == sx[..|sx| - 1] + y;
    }
  }

  lemma {:induction false} SqueezeLast(s: string)
    requires |s| > 0
    ensures |Squeeze(s)| > 0 && Squeeze(s)[|Squeeze(s)| - 1] == s[|s| - 1]
    decreases |s|
  {
    if |s| >= 2 {
      SqueezeLast(s[1..]);
    }
  }

  lemma DigitsDashFree(s: string)
    requires AllDigits(s)
    ensures '-' !in s
  {
  }

  /** Digits and commas only: the index text of a non-negative number has no dash. */
  lemma {:induction false} GroupedDashFree(n: nat)
    ensures '-' !in Grouped(n)
    decreases n
  {
    if n >= 1000 {
      GroupedDashFree(n / 1000);
    }
  }

  lemma TwoDigitsDashFree(n: nat)
    ensures '-' !in TwoDigits(n)
  {
    GroupedDashFree(n);
    assert TwoDigits(n) == if n < 10 then "0" + Decimal(n) else Grouped(n);
  }

  /**
   * The file name of src/utils.ts starts with `behance-`, has no `--`, its
   * owner and title parts are kebab-case, and it ends with `-`, the padded
   * index, `.` and the text after the URL's last dot, when that text has no `--`.
   */
  lemma ImageFileNameSpec(title: string, owners: string, imageUrl: string, index: nat, latinize: string -> string)
    ensures var f := ImageFileName(title, owners, imageUrl, index, latinize);
      StartsWith(f, "behance-") && NoDoubleDash(f)
    ensures IsKebab(Kebab(FirstOwner(owners), latinize)) && IsKebab(Kebab(title, latinize))
    ensures NoDoubleDash(LastDotPiece(imageUrl)) ==>
      EndsWith(ImageFileName(title, owners, imageUrl, index, latinize), "-" + TwoDigits(index) + "." + LastDotPiece(imageUrl))
  {
    var owner := Kebab(FirstOwner(owners), latinize);
    var t := Kebab(title, latinize);
    KebabSpec(FirstOwner(owners), latinize);
    KebabSpec(title, latinize);
    TemplateStart(owner, t, TwoDigits(index), LastDotPiece(imageUrl));
    TwoDigitsDashFree(index);
    if NoDoubleDash(LastDotPiece(imageUrl)) {
      TemplateEnd(owner, t, TwoDigits(index), LastDotPiece(imageUrl));
    }
  }

  /** The legacy file name has the same shape and takes its extension from the URL without query. */
  lemma LegacyFilePathSpec(title: string, owners: string, url: string, index: nat, folder: string, latinize: string -> string)
    ensures var name := ImageFileName(title, owners, BeforeQuery(url), index, latinize);
      && LegacyFilePath(title, owners, url, index, folder, latinize) == folder + "/" + name
      && StartsWith(name, "behance-") && NoDoubleDash(name)
      && '?' !in LastDotPiece(BeforeQuery(url))
  {
    LegacyFileNameIs(title, owners, url, index, latinize);
    ImageFileNameSpec(title, owners, BeforeQuery(url), index, latinize);
    LastDotPieceSpec(BeforeQuery(url));
    SuffixKeepsOut(BeforeQuery(url), LastDotPiece(BeforeQuery(url)), '?');
  }

  lemma LegacyFileNameIs(title: string, owners: string, url: string, index: int, latinize: string -> string)
    ensures LegacyFileName(title, owners, url, index, latinize) == ImageFileName(title, owners, BeforeQuery(url), index, latinize)
  {
    if '?' !in url {
      BeforeQueryNoQuery(url);
    }
  }

  /** A character missing from a string is missing from its suffixes. */
  lemma SuffixKeepsOut(s: string, e: string, c: char)
    requires c !in s && EndsWith(s, e)
    ensures c !in e
  {
    assert forall i :: 0 <= i < |e| ==> e[i] == s[|s| - |e|..][i];
  }

  /** The services file name starts with `behance-` and has no `--`. */
  lemma ServicesFileNameSpec(title: string, owners: string, url: string, counter: int, latinize: string -> string)
    ensures var f := ServicesFileName(title, owners, url, counter, latinize);
      StartsWith(f, "behance-") && NoDoubleDash(f)
  {
    TemplateStart(Kebab(FirstOwner(owners), latinize), Kebab(title, latinize), ZeroBelowTen(counter), LastDotPiece(url));
  }

  // ---------------------------------------------------------------- the JPEG guard

  /** `/\.jpe?g$/i.test(path)`: only such files get the EXIF description. */
  predicate IsJpegPath(path: string) {
    EndsWithCI(path, ".jpg") || EndsWithCI(path, ".jpeg")
  }
}
