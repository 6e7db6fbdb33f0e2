/**
 * The oldest script, src/services.js: seeds are expanded into a project list,
 * each project page gives its title, owners, URL, id and `project_modules`
 * image URLs, a fixed table rewrites resolution folders to `source`, and the
 * images are written one by one under numbered file names.
 *
 * Moodboard collection and project-page scraping run in the browser; their
 * results enter as values (`collected`, `pages`). A page the script cannot
 * read is `None`: `page.goto` rejected, an `og:` meta tag is missing, or an
 * `img` has no `src`, and the error ends the run.
 */
module Services {
  import opened Text
  import opened Numbers
  import opened Naming

  const SourceTier := "project_modules/source/"

  /** The replacement table of `correctProjectData`, applied in this order. */
  const TierTable: seq<string> := [
    "project_modules/2800/",
    "project_modules/2800_opt_1/",
    "project_modules/1400/",
    "project_modules/1400_opt_1/",
    "project_modules/disp/",
    "project_modules/max_1200/",
    "project_modules/fs/"
  ]

  /** `s.replace(pat, rep)` with a string pattern: only the first occurrence is replaced. */
  function ReplaceFirst(s: string, pat: string, rep: string): string {
    var k := IndexOf(s, pat);
    if k < 0 then s else s[..k] + rep + s[k + |pat|..]
  }

  /** Without an occurrence nothing changes; otherwise exactly the first occurrence is replaced. */
  lemma ReplaceFirstSpec(s: string, pat: string, rep: string, k: int)
    ensures !Contains(s, pat) ==> ReplaceFirst(s, pat, rep) == s
    ensures OccursAt(s, pat, k) && (forall j :: 0 <= j < k ==> !OccursAt(s, pat, j)) ==>
      ReplaceFirst(s, pat, rep) == s[..k] + rep + s[k + |pat|..]
  {
    if !Contains(s, pat) {
      ReplaceFirstNone(s, pat, rep);
    }
    if OccursAt(s, pat, k) && (forall j :: 0 <= j < k ==> !OccursAt(s, pat, j)) {
      IndexOfIs(s, pat, k);
      ReplaceFirstAt(s, pat, rep, k);
    }
  }

  lemma ReplaceFirstNone(s: string, pat: string, rep: string)
    requires IndexOf(s, pat) < 0
    ensures ReplaceFirst(s, pat, rep) == s
  {
  }

  lemma ReplaceFirstAt(s: string, pat: string, rep: string, k: int)
    requires 0 <= k && IndexOf(s, pat) == k
    ensures k + |pat| <= |s| && ReplaceFirst(s, pat, rep) == s[..k] + rep + s[k + |pat|..]
  {
  }

  /** The URL after the first `n` table entries have been applied. */
  function ApplyTable(url: string, n: nat): string
    requires n <= |TierTable|
  {
    if n == 0 then url else ReplaceFirst(ApplyTable(url, n - 1), TierTable[n - 1], SourceTier)
  }

  /** A URL containing no table entry passes every step unchanged. */
  lemma {:induction false} ApplyTableNoEntry(url: string, n: nat)
    requires n <= |TierTable|
    requires forall i :: 0 <= i < |TierTable| ==> !Contains(url, TierTable[i])
    ensures ApplyTable(url, n) == url
  {
    if n > 0 {
      ApplyTableNoEntry(url, n - 1);
      ReplaceFirstSpec(url, TierTable[n - 1], SourceTier, 0);
    }
  }

  /** The body of the `map` callback: every table entry in turn, on the current URL. */
  method CorrectUrl(url: string) returns (r: string)
    ensures r == ApplyTable(url, |TierTable|)
  {
    r := url;
    var n := 0;
    while n < |TierTable|
      invariant 0 <= n <= |TierTable|
      invariant r == ApplyTable(url, n)
    {
      r := ReplaceFirst(r, TierTable[n], SourceTier);
      n := n + 1;
    }
  }

  /** What `parseProjectData` returns from a project page. */
  datatype ParsedProject = ParsedProject(title: string, owners: string, url: string, id: string, imgUrls: seq<string>)

  /** What `correctProjectData` returns: the same record with `images` in place of `imgUrls`. */
  datatype CorrectedProject = CorrectedProject(title: string, owners: string, url: string, id: string, images: seq<string>)

  /** `correctProjectData`: one corrected image per page image, in the same order. */
  method CorrectProjectData(data: ParsedProject) returns (p: CorrectedProject)
    ensures p.title == data.title && p.owners == data.owners && p.url == data.url && p.id == data.id
    ensures |p.images| == |data.imgUrls|
    ensures forall i :: 0 <= i < |p.images| ==> p.images[i] == ApplyTable(data.imgUrls[i], |TierTable|)
  {
    var images: seq<string> := [];
    var i := 0;
    while i < |data.imgUrls|
      invariant 0 <= i <= |data.imgUrls|
      invariant |images| == i
      invariant forall j :: 0 <= j < i ==> images[j] == ApplyTable(data.imgUrls[j], |TierTable|)
    {
      var u := CorrectUrl(data.imgUrls[i]);
      images := images + [u];
      i := i + 1;
    }
    p := CorrectedProject(data.title, data.owners, data.url, data.id, images);
  }

  // ---------------------------------------------------------------- the project list

  predicate IsCollection(seed: string) {
    Contains(seed, "behance.net/collection/")
  }

  /**
   * The project list for the first `n` seeds: a moodboard seed gives the links
   * collected from it (`collected[i]`), any other seed is kept as it is.
   */
  function Expanded(seeds: seq<string>, collected: seq<seq<string>>, n: nat): seq<string>
    requires n <= |seeds| == |collected|
  {
    if n == 0 then []
    else Expanded(seeds, collected, n - 1) + (if IsCollection(seeds[n - 1]) then collected[n - 1] else [seeds[n - 1]])
  }

  /** `generateProjectsList`: the seeds in order, each moodboard replaced by its links. */
  method GenerateProjectsList(seeds: seq<string>, collected: seq<seq<string>>) returns (projects: seq<string>)
    requires |seeds| == |collected|
    ensures projects == Expanded(seeds, collected, |seeds|)
  {
    projects := [];
    var i := 0;
    while i < |seeds|
      invariant 0 <= i <= |seeds|
      invariant projects == Expanded(seeds, collected, i)
    {
      if IsCollection(seeds[i]) {
        projects := projects + collected[i];
      } else {
        projects := projects + [seeds[i]];
      }
      i := i + 1;
    }
  }

  /** Without moodboards the project list is the seed list itself. */
  lemma {:induction false} ExpandedVerbatim(seeds: seq<string>, collected: seq<seq<string>>, n: nat)
    requires n <= |seeds| == |collected|
    requires forall i :: 0 <= i < |seeds| ==> !IsCollection(seeds[i])
    ensures Expanded(seeds, collected, n) == seeds[..n]
  {
    if n > 0 {
      ExpandedVerbatim(seeds, collected, n - 1);
      assert seeds[..n] == seeds[..n - 1] + [seeds[n - 1]];
    }
  }

  /** Every seed contributes its own block, in seed order: the list of a longer seed list extends the shorter one's. */
  lemma {:induction false} ExpandedPrefix(seeds: seq<string>, collected: seq<seq<string>>, m: nat, n: nat)
    requires m <= n <= |seeds| == |collected|
    ensures |Expanded(seeds, collected, m)| <= |Expanded(seeds, collected, n)|
    ensures Expanded(seeds, collected, m) == Expanded(seeds, collected, n)[..|Expanded(seeds, collected, m)|]
    decreases n
  {
    if m < n {
      ExpandedPrefix(seeds, collected, m, n - 1);
    }
  }

  /** A non-moodboard seed appears in the project list. */
  lemma {:induction false} ExpandedKeepsSeed(seeds: seq<string>, collected: seq<seq<string>>, i: nat)
    requires i < |seeds| == |collected| && !IsCollection(seeds[i])
    ensures seeds[i] in Expanded(seeds, collected, |seeds|)
  {
    ExpandedPrefix(seeds, collected, i + 1, |seeds|);
    var pre := Expanded(seeds, collected, i + 1);
    assert pre[|pre| - 1] == seeds[i];
    var all := Expanded(seeds, collected, |seeds|);
    assert all[|pre| - 1] == seeds[i];
  }

  // ---------------------------------------------------------------- downloads

  /** One written file: where it goes and the URL it comes from. */
  datatype Download = Download(path: string, url: string)

  /** The downloads of one project: image `j` gets counter `j + 1`. */
  function ProjectDownloads(p: CorrectedProject, outputDir: string, latinize: string -> string): (ds: seq<Download>)
    ensures |ds| == |p.images|
  {
    seq(|p.images|, j requires 0 <= j < |p.images| =>
      Download(ServicesFilePath(p.title, p.owners, p.images[j], j + 1, outputDir, latinize), p.images[j]))
  }

  /**
   * The downloads of the first `n` pages, in order, and whether the run has
   * stopped at a page that could not be read; nothing is written after it.
   */
  function RunDownloads(pages: seq<Option<ParsedProject>>, n: nat, outputDir: string, latinize: string -> string): (seq<Download>, bool)
    requires n <= |pages|
  {
    if n == 0 then ([], false)
    else
      var (ds, failed) := RunDownloads(pages, n - 1, outputDir, latinize);
      if failed then (ds, true)
      else match pages[n - 1]
        case None => (ds, true)
        case Some(p) => (ds + ProjectDownloads(Corrected(p), outputDir, latinize), false)
  }

  /** The corrected record `correctProjectData` computes, as a value. */
  function Corrected(d: ParsedProject): CorrectedProject {
    CorrectedProject(d.title, d.owners, d.url, d.id,
      seq(|d.imgUrls|, i requires 0 <= i < |d.imgUrls| => ApplyTable(d.imgUrls[i], |TierTable|)))
  }

  /**
   * `downloadProjects`: for every project its corrected images in order, with
   * a counter that starts at 1 for each project, until a page cannot be read
   * (`failed`, the run rejects). Page `i` is what the browser scrapes from
   * `projects[i]`; every fetch is taken to succeed.
   */
  method DownloadProjects(pages: seq<Option<ParsedProject>>, outputDir: string, latinize: string -> string)
    returns (downloads: seq<Download>, failed: bool)
    ensures (downloads, failed) == RunDownloads(pages, |pages|, outputDir, latinize)
  {
    downloads, failed := [], false;
    var k := 0;
    while k < |pages|
      invariant 0 <= k <= |pages|
      invariant (downloads, false) == RunDownloads(pages, k, outputDir, latinize)
    {
      if pages[k].None? {
        failed := true;
        RunDownloadsStops(pages, k + 1, |pages|, outputDir, latinize);
        return;
      }
      var p := CorrectProjectData(pages[k].value);
      assert p == Corrected(pages[k].value);
      var mine := DownloadProject(p, outputDir, latinize);
      downloads := downloads + mine;
      k := k + 1;
    }
  }

  /** Once a page could not be read, later pages change nothing. */
  lemma {:induction false} RunDownloadsStops(pages: seq<Option<ParsedProject>>, m: nat, n: nat, outputDir: string, latinize: string -> string)
    requires m <= n <= |pages| && RunDownloads(pages, m, outputDir, latinize).1
    ensures RunDownloads(pages, n, outputDir, latinize) == RunDownloads(pages, m, outputDir, latinize)
    decreases n
  {
    if m < n {
      RunDownloadsStops(pages, m, n - 1, outputDir, latinize);
    }
  }

  /** The inner loop: the images of one project, with a counter from 1. */
  method DownloadProject(p: CorrectedProject, outputDir: string, latinize: string -> string) returns (mine: seq<Download>)
    ensures mine == ProjectDownloads(p, outputDir, latinize)
  {
    var counter := 1;
    var j := 0;
    mine := [];
    while j < |p.images|
      invariant 0 <= j <= |p.images| && counter == j + 1
      invariant mine == ProjectDownloads(p, outputDir, latinize)[..j]
    {
      var path := ServicesFilePath(p.title, p.owners, p.images[j], counter, outputDir, latinize);
      mine := mine + [Download(path, p.images[j])];
      counter := counter + 1;
      j := j + 1;
    }
    assert mine == ProjectDownloads(p, outputDir, latinize);
  }

  /**
   * Within a project, image `j` is written from that image's URL to
   * `<outputDir>/<name>` where the name starts with `behance-`, has no `--`
   * and ends with `-`, the counter `j + 1` as the older padding writes it,
   * `.` and the extension, when the extension has no `--`.
   */
  lemma ProjectDownloadsSpec(p: CorrectedProject, outputDir: string, latinize: string -> string, j: nat)
    requires j < |p.images|
    ensures var d := ProjectDownloads(p, outputDir, latinize)[j];
      var name := ServicesFileName(p.title, p.owners, p.images[j], j + 1, latinize);
      && d.url == p.images[j]
      && d.path == outputDir + "/" + name
      && StartsWith(name, "behance-") && NoDoubleDash(name)
      && (NoDoubleDash(LastDotPiece(p.images[j])) ==> EndsWith(name, "-" + ZeroBelowTen(j + 1) + "." + LastDotPiece(p.images[j])))
  {
    ServicesFileNameSpec(p.title, p.owners, p.images[j], j + 1, latinize);
    var n := ZeroBelowTen(j + 1);
    assert '-' !in n by {
      assert n == "0" + Decimal(j + 1) || n == Decimal(j + 1);
    }
    if NoDoubleDash(LastDotPiece(p.images[j])) {
      TemplateEnd(Kebab(FirstOwner(p.owners), latinize), Kebab(p.title, latinize), n, LastDotPiece(p.images[j]));
    }
  }

  /**
   * The run stops exactly when one of the pages cannot be read; a run that
   * does not stop writes exactly one file per corrected image, project after
   * project.
   */
  lemma {:induction false} RunDownloadsCount(pages: seq<Option<ParsedProject>>, n: nat, outputDir: string, latinize: string -> string)
    requires n <= |pages|
    ensures RunDownloads(pages, n, outputDir, latinize).1 <==> exists i :: 0 <= i < n && pages[i].None?
    ensures !RunDownloads(pages, n, outputDir, latinize).1 ==> |RunDownloads(pages, n, outputDir, latinize).0| == SumImages(pages, n)
  {
    if n > 0 {
      RunDownloadsCount(pages, n - 1, outputDir, latinize);
    }
  }

  /** The number of page images of the first `n` pages, all read. */
  function SumImages(pages: seq<Option<ParsedProject>>, n: nat): nat
    requires n <= |pages|
  {
    if n == 0 then 0 else SumImages(pages, n - 1) + (match pages[n - 1] case None => 0 case Some(p) => |p.imgUrls|)
  }
}
