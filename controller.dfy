/**
 * The task controller of src/download-pw.ts over the shared `appState` of
 * src/states/app.ts: building the project list from the pasted URLs (with
 * the download-history skip), the download loop with its abort checks and
 * counters, and the final status.
 *
 * The browser enters as values: what `collectProjectsUrlsFromPage` returns
 * for each listing URL, what the project-page script sees for each project,
 * and whether the abort handler has run before each check of `isAborted`.
 * Each `downloadImage` call is recorded as a `Job`; what the call does to
 * the download folder is the business of the Folder module.
 */
module Controller {
  import opened Text
  import opened Naming
  import opened ImageFilter
  import opened Collector
  import History

  /** A JavaScript number used as a counter that may start out `undefined`. */
  datatype JsCount = Undefined | NaN | Num(n: int)

  /** `c += 1`: `undefined + 1` and `NaN + 1` are both `NaN`. */
  function Inc(c: JsCount): JsCount {
    match c
    case Num(n) => Num(n + 1)
    case _ => NaN
  }

  /** `c` after `k` increments. */
  function IncTimes(c: JsCount, k: nat): JsCount {
    if k == 0 then c else Inc(IncTimes(c, k - 1))
  }

  /** `c > 0`, which is false for `undefined` and `NaN`. */
  predicate Positive(c: JsCount) {
    c.Num? && c.n > 0
  }

  /** A counter that did not start as a number never becomes one, however often it is incremented. */
  lemma {:induction false} IncTimesNotNum(c: JsCount, k: nat)
    requires !c.Num?
    ensures !IncTimes(c, k).Num? && !Positive(IncTimes(c, k))
  {
    if k > 0 {
      IncTimesNotNum(c, k - 1);
    }
  }

  /** A numeric counter counts. */
  lemma {:induction false} IncTimesNum(n: int, k: nat)
    ensures IncTimes(Num(n), k) == Num(n + k)
  {
    if k > 0 {
      IncTimesNum(n, k - 1);
    }
  }

  // ---------------------------------------------------------------- the project list

  predicate IsGallerySeed(url: string) {
    Contains(url, "behance.net/gallery/")
  }

  /** The `map` over collected links: the URL is made a valid Behance URL, the rest kept. */
  function Normalised(l: ProjectLink): ProjectLink {
    ProjectLink(l.variant, MakeValidBehanceUrl(l.url), l.image)
  }

  /** The links one pasted URL adds; `collected` is what the page collector returned for it. */
  function SeedLinks(url: string, collected: Option<seq<ProjectLink>>): seq<ProjectLink> {
    if IsGallerySeed(url) then [ProjectLink(Gallery, MakeValidBehanceUrl(url), "")]
    else match collected
      case None => []
      case Some(links) => Map(links, Normalised)
  }

  /** The links of each pasted URL. */
  function SeedBlocks(urls: seq<string>, collected: seq<Option<seq<ProjectLink>>>): (bs: seq<seq<ProjectLink>>)
    requires |urls| == |collected|
    ensures |bs| == |urls|
  {
    seq(|urls|, i requires 0 <= i < |urls| => SeedLinks(urls[i], collected[i]))
  }

  /** The links the first `n` pasted URLs add, in order. */
  function Gathered(urls: seq<string>, collected: seq<Option<seq<ProjectLink>>>, n: nat): seq<ProjectLink>
    requires n <= |urls| == |collected|
  {
    Concat(SeedBlocks(urls, collected)[..n])
  }

  /** A pasted URL that is a listing whose collection gave nothing: it counts as a failed project. */
  predicate SeedFails(url: string, collected: Option<seq<ProjectLink>>) {
    !IsGallerySeed(url) && collected.None?
  }

  /** How many of the first `n` pasted URLs are listings whose collection gave nothing. */
  function FailedSeeds(urls: seq<string>, collected: seq<Option<seq<ProjectLink>>>, n: nat): nat
    requires n <= |urls| == |collected|
  {
    if n == 0 then 0
    else FailedSeeds(urls, collected, n - 1) + (if SeedFails(urls[n - 1], collected[n - 1]) then 1 else 0)
  }

  /** `projectsFailed` after the first `n` pasted URLs, starting from `failed`, one URL at a time. */
  function FailedAfter(failed: JsCount, urls: seq<string>, collected: seq<Option<seq<ProjectLink>>>, n: nat): JsCount
    requires n <= |urls| == |collected|
  {
    if n == 0 then failed
    else if SeedFails(urls[n - 1], collected[n - 1]) then Inc(FailedAfter(failed, urls, collected, n - 1))
    else FailedAfter(failed, urls, collected, n - 1)
  }

  /** A link the history skip removes: a gallery whose URL is in the history. */
  predicate Skippable(l: ProjectLink, history: seq<string>) {
    l.variant == Gallery && l.url in history
  }

  /** `filteredProjects`: the links the history skip keeps, in order. */
  function Kept(links: seq<ProjectLink>, history: seq<string>): seq<ProjectLink> {
    if |links| == 0 then []
    else
      var last := links[|links| - 1];
      Kept(links[..|links| - 1], history) + (if Skippable(last, history) then [] else [last])
  }

  /** How many links the history skip removes. */
  function Dropped(links: seq<ProjectLink>, history: seq<string>): nat {
    if |links| == 0 then 0
    else Dropped(links[..|links| - 1], history) + (if Skippable(links[|links| - 1], history) then 1 else 0)
  }

  /** One more pasted URL appends its links. */
  lemma GatheredStep(urls: seq<string>, collected: seq<Option<seq<ProjectLink>>>, n: nat)
    requires n < |urls| == |collected|
    ensures Gathered(urls, collected, n + 1) == Gathered(urls, collected, n) + SeedLinks(urls[n], collected[n])
  {
    var bs := SeedBlocks(urls, collected);
    assert bs[..n + 1][..n] == bs[..n];
  }

  /** Counting from `failed` one URL at a time increments it once per failed URL. */
  lemma {:induction false} FailedAfterCount(failed: JsCount, urls: seq<string>, collected: seq<Option<seq<ProjectLink>>>, n: nat)
    requires n <= |urls| == |collected|
    ensures FailedAfter(failed, urls, collected, n) == IncTimes(failed, FailedSeeds(urls, collected, n))
  {
    if n > 0 {
      FailedAfterCount(failed, urls, collected, n - 1);
    }
  }

  /** The body of the loop over the pasted URLs, on the list and the failure counter. */
  method AddSeed(url: string, collected: Option<seq<ProjectLink>>, list: seq<ProjectLink>, failed: JsCount)
    returns (list': seq<ProjectLink>, failed': JsCount)
    ensures list' == list + SeedLinks(url, collected)
    ensures failed' == if SeedFails(url, collected) then Inc(failed) else failed
  {
    list', failed' := list, failed;
    if IsGallerySeed(url) {
      list' := list' + [ProjectLink(Gallery, MakeValidBehanceUrl(url), "")];
    } else {
      match collected
      case None =>
        failed' := Inc(failed');
      case Some(links) =>
        list' := list' + Map(links, Normalised);
    }
  }

  /**
   * The loop over the pasted URLs: every URL's links appended in order, one
   * failure counted per listing whose collection gave nothing.
   */
  method AddSeeds(urls: seq<string>, collected: seq<Option<seq<ProjectLink>>>, start: seq<ProjectLink>, failed0: JsCount)
    returns (list: seq<ProjectLink>, failed: JsCount)
    requires |urls| == |collected|
    ensures list == start + Gathered(urls, collected, |urls|)
    ensures failed == IncTimes(failed0, FailedSeeds(urls, collected, |urls|))
  {
    list := start;
    failed := failed0;
    var i := 0;
    while i < |urls|
      invariant 0 <= i <= |urls|
      invariant list == start + Gathered(urls, collected, i)
      invariant failed == FailedAfter(failed0, urls, collected, i)
    {
      list, failed := NextSeed(urls, collected, start, failed0, i, list, failed);
      i := i + 1;
    }
    FailedAfterCount(failed0, urls, collected, |urls|);
  }

  /** One more pasted URL: its links follow the list so far, and a failed listing counts once more. */
  lemma SeedStep(urls: seq<string>, collected: seq<Option<seq<ProjectLink>>>, start: seq<ProjectLink>, failed0: JsCount, i: nat)
    requires i < |urls| == |collected|
    ensures start + Gathered(urls, collected, i + 1) == (start + Gathered(urls, collected, i)) + SeedLinks(urls[i], collected[i])
    ensures FailedAfter(failed0, urls, collected, i + 1) ==
      if SeedFails(urls[i], collected[i]) then Inc(FailedAfter(failed0, urls, collected, i))
      else FailedAfter(failed0, urls, collected, i)
  {
    GatheredStep(urls, collected, i);
    Assoc(start, Gathered(urls, collected, i), SeedLinks(urls[i], collected[i]));
  }

  /** One turn of the loop over the pasted URLs: from the list and count after `i` URLs to those after `i + 1`. */
  method NextSeed(urls: seq<string>, collected: seq<Option<seq<ProjectLink>>>, start: seq<ProjectLink>, failed0: JsCount,
                  i: nat, list: seq<ProjectLink>, failed: JsCount)
    returns (list': seq<ProjectLink>, failed': JsCount)
    requires i < |urls| == |collected|
    ensures list == start + Gathered(urls, collected, i) ==> list' == start + Gathered(urls, collected, i + 1)
    ensures failed == FailedAfter(failed0, urls, collected, i) ==> failed' == FailedAfter(failed0, urls, collected, i + 1)
  {
    list', failed' := AddSeed(urls[i], collected[i], list, failed);
    SeedStep(urls, collected, start, failed0, i);
  }

  /**
   * The history skip: the links kept, in order, and how many were dropped
   * (each drop is one `projectsSkipped += 1`).
   */
  method SkipByHistory(all: seq<ProjectLink>, history: seq<string>) returns (kept: seq<ProjectLink>, dropped: nat)
    ensures kept == Kept(all, history) && dropped == Dropped(all, history)
  {
    kept := [];
    dropped := 0;
    var k := 0;
    while k < |all|
      invariant 0 <= k <= |all|
      invariant kept == Kept(all[..k], history) && dropped == Dropped(all[..k], history)
    {
      assert all[..k + 1][..k] == all[..k];
      var link := all[k];
      if link.url in history && link.variant == Gallery {
        dropped := dropped + 1;
      } else {
        kept := kept + [link];
      }
      k := k + 1;
    }
    assert all[..k] == all;
  }

  /**
   * A gallery URL adds exactly one `gallery` link, its valid Behance URL
   * with an empty cover, whatever the collector would have returned, right
   * after the links of the URLs before it.
   */
  lemma GallerySeedBlock(urls: seq<string>, collected: seq<Option<seq<ProjectLink>>>, i: nat)
    requires i < |urls| == |collected| && IsGallerySeed(urls[i])
    ensures |Gathered(urls, collected, i + 1)| == |Gathered(urls, collected, i)| + 1
    ensures |Gathered(urls, collected, i)| < |Gathered(urls, collected, |urls|)|
    ensures Gathered(urls, collected, |urls|)[|Gathered(urls, collected, i)|]
      == ProjectLink(Gallery, MakeValidBehanceUrl(urls[i]), "")
    ensures FailedSeeds(urls, collected, i + 1) == FailedSeeds(urls, collected, i)
  {
    ConcatSingle(SeedBlocks(urls, collected), i, ProjectLink(Gallery, MakeValidBehanceUrl(urls[i]), ""));
  }

  /** A listing whose collection gave nothing adds no link and one failure. */
  lemma FailedSeedBlock(urls: seq<string>, collected: seq<Option<seq<ProjectLink>>>, i: nat)
    requires i < |urls| == |collected| && !IsGallerySeed(urls[i]) && collected[i].None?
    ensures Gathered(urls, collected, i + 1) == Gathered(urls, collected, i)
    ensures FailedSeeds(urls, collected, i + 1) == FailedSeeds(urls, collected, i) + 1
  {
    GatheredStep(urls, collected, i);
    assert Gathered(urls, collected, i) + [] == Gathered(urls, collected, i);
  }

  /** Nothing removes repeats: the same gallery URL pasted twice is listed twice. */
  lemma NoDedup(url: string, collected: seq<Option<seq<ProjectLink>>>)
    requires IsGallerySeed(url) && |collected| == 2
    ensures var l := ProjectLink(Gallery, MakeValidBehanceUrl(url), "");
      Gathered([url, url], collected, 2) == [l, l]
  {
    var urls, l := [url, url], ProjectLink(Gallery, MakeValidBehanceUrl(url), "");
    assert SeedLinks(url, collected[0]) == [l] && SeedLinks(url, collected[1]) == [l];
    assert Gathered(urls, collected, 0) == [] by {
      assert SeedBlocks(urls, collected)[..0] == [];
    }
    GatheredStep(urls, collected, 0);
    GatheredStep(urls, collected, 1);
  }

  /**
   * The history skip is the order-keeping filter that drops exactly the
   * gallery links listed in the history; every removed link is counted.
   */
  lemma {:induction false} KeptIsFilter(links: seq<ProjectLink>, history: seq<string>)
    ensures Kept(links, history) == Filter(links, l => !Skippable(l, history))
    ensures |Kept(links, history)| + Dropped(links, history) == |links|
  {
    if |links| > 0 {
      KeptIsFilter(links[..|links| - 1], history);
    }
  }

  /** The `image` links, in order. */
  predicate IsImageLink(l: ProjectLink) {
    l.variant == Image
  }

  function ImageLinks(links: seq<ProjectLink>): seq<ProjectLink> {
    Filter(links, IsImageLink)
  }

  /** The skip never removes an `image` link, nor a gallery missing from the history, and keeps nothing else. */
  lemma {:induction false} KeptImages(links: seq<ProjectLink>, history: seq<string>)
    ensures ImageLinks(Kept(links, history)) == ImageLinks(links)
    ensures forall l :: l in Kept(links, history) <==> l in links && !Skippable(l, history)
  {
    if |links| > 0 {
      var front := links[..|links| - 1];
      var last := links[|links| - 1];
      KeptImages(front, history);
      assert links == front + [last];
      FilterAppend(front, [last], IsImageLink);
      var tail := if Skippable(last, history) then [] else [last];
      FilterAppend(Kept(front, history), tail, IsImageLink);
      if Skippable(last, history) {
        assert Filter([last], IsImageLink) == [];
        assert Kept(front, history) + tail == Kept(front, history);
      }
    }
  }

  /**
   * The whole list for pasted URLs that are all listings whose collection
   * failed is empty, with one failure per URL.
   */
  lemma {:induction false} AllSeedsFail(urls: seq<string>, collected: seq<Option<seq<ProjectLink>>>, n: nat)
    requires n <= |urls| == |collected|
    requires forall i :: 0 <= i < |urls| ==> !IsGallerySeed(urls[i]) && collected[i].None?
    ensures Gathered(urls, collected, n) == [] && FailedSeeds(urls, collected, n) == n
  {
    if n > 0 {
      AllSeedsFail(urls, collected, n - 1);
      GatheredStep(urls, collected, n - 1);
    }
  }

  /** The four `appState` fields `generateProjectsList` sets. */
  datatype ListState = ListState(projects: seq<ProjectLink>, total: int, failed: JsCount, skipped: int)

  /**
   * The fields after `generateProjectsList`: every pasted URL's links after
   * the projects already listed, the total counted before the skip, one
   * failure per failed listing, and, with the skip, the skipped count.
   */
  function ProjectsList(s: ListState, urls: seq<string>, collected: seq<Option<seq<ProjectLink>>>,
                        skip: bool, history: seq<string>): ListState
    requires |urls| == |collected|
  {
    var all := s.projects + Gathered(urls, collected, |urls|);
    var total := if |urls| == 0 then s.total else |all|;
    var kept := if skip then Kept(all, history) else all;
    ListState(kept, total, IncTimes(s.failed, FailedSeeds(urls, collected, |urls|)), if skip then total - |kept| else s.skipped)
  }

  /** The body of `generateProjectsList` on the four fields it sets. */
  method BuildProjectsList(s: ListState, urls: seq<string>, collected: seq<Option<seq<ProjectLink>>>,
                           skip: bool, history: seq<string>) returns (r: ListState)
    requires |urls| == |collected|
    ensures r == ProjectsList(s, urls, collected, skip, history)
  {
    var list, failed := AddSeeds(urls, collected, s.projects, s.failed);
    var total := s.total;
    if |urls| > 0 {
      total := |list|;
    }
    var skipped := s.skipped;
    if skip {
      var kept, dropped := SkipByHistory(list, history);
      skipped := skipped + dropped;
      list := kept;
      skipped := total - |list|;
    }
    r := ListState(list, total, failed, skipped);
  }

  // ---------------------------------------------------------------- project pages

  /** What the project-page script sees: the adult lock, the `og:title`/`og:owners` contents and every `img` `src`. */
  datatype PageView = PageView(locked: bool, title: Option<string>, owners: Option<string>, imgSrcs: seq<Option<string>>)

  /** What `gotoProjectPageAndCollectData` returns. */
  datatype ProjectData = ProjectData(id: string, title: string, owners: string, images: seq<string>, url: string)

  /** `url.split('/')[4]`, `None` when there is no such piece. */
  function UrlId(url: string): Option<string> {
    var parts := Split(url, "/");
    if |parts| > 4 then Some(parts[4]) else None
  }

  /** `getMetaProperty(...) || ''`. */
  function MetaOrEmpty(v: Option<string>): string {
    if v.Some? then v.value else ""
  }

  /** The `src` attributes that are present, in document order. */
  function Sources(xs: seq<Option<string>>): (r: seq<string>)
    ensures |r| <= |xs|
    ensures forall s :: s in r <==> Some(s) in xs
  {
    if |xs| == 0 then []
    else
      var rest := Sources(xs[..|xs| - 1]);
      assert xs == xs[..|xs| - 1] + [xs[|xs| - 1]];
      match xs[|xs| - 1]
      case None => rest
      case Some(s) => rest + [s]
  }

  /**
   * `gotoProjectPageAndCollectData`: nothing without a page, a URL or an id,
   * nothing when the page script fails (`view` is `None`) or the page is
   * locked; an `image` link keeps its cover as its only image, a gallery
   * takes every image source on the page.
   */
  function CollectData(link: ProjectLink, pageOpen: bool, view: Option<PageView>): Option<ProjectData> {
    var id := UrlId(link.url);
    if !pageOpen || link.url == "" || !Truthy(id) || view.None? || view.value.locked then None
    else
      var v := view.value;
      var images := if link.variant == Image then [link.image] else Sources(v.imgSrcs);
      Some(ProjectData(id.value, MetaOrEmpty(v.title), MetaOrEmpty(v.owners), images, link.url))
  }

  lemma CollectDataSpec(link: ProjectLink, pageOpen: bool, view: Option<PageView>)
    ensures CollectData(link, pageOpen, view).Some? <==>
      pageOpen && link.url != "" && Truthy(UrlId(link.url)) && view.Some? && !view.value.locked
    ensures CollectData(link, pageOpen, view).Some? ==>
      var d := CollectData(link, pageOpen, view).value;
      && d.url == link.url && d.id == Split(link.url, "/")[4]
      && (link.variant == Image ==> d.images == [link.image])
      && (link.variant == Gallery ==> forall s :: s in d.images <==> Some(s) in view.value.imgSrcs)
  {
  }

  // ---------------------------------------------------------------- the download loop

  /** One `downloadImage` call: the image URL and the path it is saved under. */
  datatype Job = Job(url: string, path: FilePath)

  /**
   * The part of the state the download loop changes: the counters, the
   * history (in memory and on disk), the abort flag, how many times the flag
   * has been checked, and the downloads so far.
   */
  datatype Progress = Progress(
    completed: int, failed: JsCount, historyList: seq<string>, file: (bool, string),
    aborted: bool, checks: nat, jobs: seq<Job>)

  /** One check of `isAborted`: the handler may have set it since the previous check. */
  function Check(r: Progress, press: nat -> bool): Progress {
    r.(aborted := r.aborted || press(r.checks), checks := r.checks + 1)
  }

  /** The project data with only the project images. */
  function Filtered(d: ProjectData): ProjectData {
    d.(images := ProjectImages(d.images))
  }

  /** The downloads of a whole project: image `i` is saved under index `i + 1`. */
  function ProjectJobs(d: ProjectData, folder: string, latinize: string -> string): (js: seq<Job>)
    ensures |js| == |d.images|
    ensures forall i :: 0 <= i < |js| ==> js[i].url == d.images[i]
  {
    seq(|d.images|, i requires 0 <= i < |d.images| => ImageJob(d, i, folder, latinize))
  }

  /** Image `i` of a project is saved under index `i + 1`. */
  function ImageJob(d: ProjectData, i: nat, folder: string, latinize: string -> string): (j: Job)
    requires i < |d.images|
    ensures j.url == d.images[i]
  {
    Job(d.images[i], GenerateFilePathForImage(d.title, d.owners, d.images[i], i + 1, folder, latinize))
  }

  /** A project of the list with the downloads its page gives, `None` when it gives no data. */
  datatype Task = Task(link: ProjectLink, jobs: Option<seq<Job>>)

  /** What the loop does with one project: its downloads, `None` when its page gives no data. */
  function TaskOf(link: ProjectLink, pageOpen: bool, view: Option<PageView>, folder: string,
                  latinize: string -> string): (t: Task)
    ensures t.link == link
  {
    Task(link, match CollectData(link, pageOpen, view)
      case None => None
      case Some(d) => Some(ProjectJobs(Filtered(d), folder, latinize)))
  }

  /** What the loop will do with each project. */
  function Tasks(projects: seq<ProjectLink>, pageOpen: bool, views: seq<Option<PageView>>, folder: string,
                 latinize: string -> string): (ts: seq<Task>)
    requires |projects| == |views|
    ensures |ts| == |projects|
    ensures forall p :: 0 <= p < |ts| ==> ts[p].link == projects[p]
  {
    seq(|projects|, p requires 0 <= p < |projects| => TaskOf(projects[p], pageOpen, views[p], folder, latinize))
  }

  /** The image loop from image `i` on. */
  function ImageLoop(r: Progress, js: seq<Job>, i: nat, press: nat -> bool): Progress
    requires i <= |js|
    decreases |js| - i
  {
    if i == |js| then r
    else
      var c := Check(r, press);
      if c.aborted then c
      else ImageLoop(c.(jobs := c.jobs + [js[i]]), js, i + 1, press)
  }

  /** After the image loop: an unaborted project is completed and, when a gallery, put in the history. */
  function Finish(r: Progress, link: ProjectLink, press: nat -> bool): Progress {
    var c := Check(r, press);
    if c.aborted then c
    else if link.variant == Gallery then
      c.(completed := c.completed + 1, historyList := c.historyList + [link.url],
         file := History.AfterAdd(c.file.0, c.file.1, link.url, History.Crlf))
    else c.(completed := c.completed + 1)
  }

  /** One project once the check before it has passed. */
  function ProjectStep(r: Progress, t: Task, press: nat -> bool): Progress {
    match t.jobs
    case None => r.(failed := Inc(r.failed))
    case Some(js) => Finish(ImageLoop(r, js, 0, press), t.link, press)
  }

  /** The loop over the projects from `p` on. */
  function Run(r: Progress, ts: seq<Task>, p: nat, press: nat -> bool): Progress
    requires p <= |ts|
    decreases |ts| - p
  {
    if p == |ts| then r
    else
      var c := Check(r, press);
      if c.aborted then c else Run(ProjectStep(c, ts[p], press), ts, p + 1, press)
  }

  /** What a run keeps of a progress: the counters and lists it only ever extends. */
  ghost predicate Extends(r: Progress, s: Progress) {
    && r.completed <= s.completed && r.checks <= s.checks
    && r.jobs <= s.jobs && r.historyList <= s.historyList
    && (r.aborted ==> s.aborted)
  }

  /**
   * The image loop adds the project's downloads from image `i` on, in order,
   * and stops short only at an abort; it touches nothing but the flag, the
   * check count and the downloads.
   */
  lemma {:induction false} ImageLoopJobs(r: Progress, js: seq<Job>, i: nat, press: nat -> bool)
    requires i <= |js|
    ensures var s := ImageLoop(r, js, i, press);
      var n := |s.jobs| - |r.jobs|;
      && 0 <= n <= |js| - i
      && s.jobs == r.jobs + js[i..i + n]
      && (n < |js| - i ==> s.aborted)
      && s.completed == r.completed && s.failed == r.failed && s.historyList == r.historyList && s.file == r.file
      && r.checks <= s.checks && (r.aborted ==> s.aborted)
    decreases |js| - i
  {
    if i < |js| {
      var c := Check(r, press);
      if !c.aborted {
        var c1 := c.(jobs := c.jobs + [js[i]]);
        ImageLoopJobs(c1, js, i + 1, press);
        var s := ImageLoop(c1, js, i + 1, press);
        var n := |s.jobs| - |c1.jobs|;
        assert js[i..i + 1 + n] == [js[i]] + js[i + 1..i + 1 + n];
      }
    }
  }

  /**
   * An abort seen in the image loop leaves the project neither completed
   * nor in the history.
   */
  lemma AbortedProject(r: Progress, link: ProjectLink, press: nat -> bool)
    requires r.aborted
    ensures var s := Finish(r, link, press);
      s.aborted && s.completed == r.completed && s.historyList == r.historyList && s.file == r.file && s.jobs == r.jobs
  {
  }

  /**
   * One project completes at most once, fails at most once, and puts at most
   * its own URL, when a gallery, into the history, and only when completed.
   */
  lemma ProjectStepSpec(c: Progress, t: Task, press: nat -> bool)
    ensures var u := ProjectStep(c, t, press);
      && Extends(c, u)
      && c.completed <= u.completed <= c.completed + 1
      && (t.jobs.None? ==> u == c.(failed := Inc(c.failed)))
      && (t.jobs.Some? ==> u.failed == c.failed)
      && (u.historyList == c.historyList || (t.link.variant == Gallery && u.historyList == c.historyList + [t.link.url]))
      && (u.completed == c.completed ==> u.historyList == c.historyList)
  {
    if t.jobs.Some? {
      ImageLoopJobs(c, t.jobs.value, 0, press);
    }
  }

  /**
   * The run only counts up and appends; once the flag has been seen set it
   * stays set, no further download happens and nothing further is counted.
   */
  lemma {:induction false} RunExtends(r: Progress, ts: seq<Task>, p: nat, press: nat -> bool)
    requires p <= |ts|
    ensures var s := Run(r, ts, p, press);
      && Extends(r, s)
      && (r.aborted ==> s.jobs == r.jobs && s.completed == r.completed && s.historyList == r.historyList && s.failed == r.failed)
    decreases |ts| - p
  {
    if p < |ts| {
      var c := Check(r, press);
      if !c.aborted {
        ProjectStepSpec(c, ts[p], press);
        RunExtends(ProjectStep(c, ts[p], press), ts, p + 1, press);
      }
    }
  }

  /** The URLs of the gallery links among the projects from `p` on. */
  function GalleryUrls(ts: seq<Task>, p: nat): (us: set<string>)
    ensures forall q :: p <= q < |ts| && ts[q].link.variant == Gallery ==> ts[q].link.url in us
  {
    set q | p <= q < |ts| && ts[q].link.variant == Gallery :: ts[q].link.url
  }

  /** Every URL the run adds to the history is the URL of a gallery link among the remaining projects. */
  lemma {:induction false} RunHistory(r: Progress, ts: seq<Task>, p: nat, press: nat -> bool)
    requires p <= |ts|
    ensures var s := Run(r, ts, p, press);
      && r.historyList <= s.historyList
      && forall u :: u in s.historyList[|r.historyList|..] ==> u in GalleryUrls(ts, p)
    decreases |ts| - p
  {
    if p < |ts| {
      var c := Check(r, press);
      if !c.aborted {
        var t := ProjectStep(c, ts[p], press);
        var s := Run(t, ts, p + 1, press);
        ProjectStepSpec(c, ts[p], press);
        RunHistory(t, ts, p + 1, press);
        DropSplit(r.historyList, t.historyList, s.historyList);
        assert GalleryUrls(ts, p + 1) <= GalleryUrls(ts, p);
        if t.historyList != c.historyList {
          assert t.historyList[|r.historyList|..] == [ts[p].link.url];
        }
      }
    }
  }

  /** Without an abort the image loop downloads every remaining image. */
  lemma {:induction false} ImageLoopAllDone(r: Progress, js: seq<Job>, i: nat, press: nat -> bool)
    requires i <= |js| && !r.aborted
    requires forall k :: !press(k)
    ensures var s := ImageLoop(r, js, i, press);
      !s.aborted && s.jobs == r.jobs + js[i..]
    decreases |js| - i
  {
    if i == |js| {
      assert r.jobs + js[i..] == r.jobs;
    } else {
      var c := Check(r, press);
      ImageLoopAllDone(c.(jobs := c.jobs + [js[i]]), js, i + 1, press);
      assert js[i..] == [js[i]] + js[i + 1..];
    }
  }

  /**
   * Without an abort and with data for every project, every project is
   * completed and none fails.
   */
  lemma {:induction false} RunAllComplete(r: Progress, ts: seq<Task>, p: nat, press: nat -> bool)
    requires p <= |ts| && !r.aborted
    requires forall k :: !press(k)
    requires forall q :: p <= q < |ts| ==> ts[q].jobs.Some?
    ensures var s := Run(r, ts, p, press);
      !s.aborted && s.completed == r.completed + (|ts| - p) && s.failed == r.failed
    decreases |ts| - p
  {
    if p < |ts| {
      var c := Check(r, press);
      ImageLoopAllDone(c, ts[p].jobs.value, 0, press);
      ImageLoopJobs(c, ts[p].jobs.value, 0, press);
      var t := ProjectStep(c, ts[p], press);
      assert t.completed == r.completed + 1 && !t.aborted && t.failed == r.failed;
      RunAllComplete(t, ts, p + 1, press);
    }
  }

  // ---------------------------------------------------------------- the download loop

  /**
   * The loop over the project images: a check of the flag before each
   * image, then the image saved under its project index `i + 1`.
   */
  method DownloadImages(r0: Progress, d: ProjectData, folder: string, latinize: string -> string, press: nat -> bool)
    returns (r: Progress)
    ensures r == ImageLoop(r0, ProjectJobs(d, folder, latinize), 0, press)
    ensures r.file == r0.file
  {
    ghost var js := ProjectJobs(d, folder, latinize);
    r := r0;
    var i := 0;
    while i < |d.images|
      invariant 0 <= i <= |d.images| == |js|
      invariant ImageLoop(r, js, i, press) == ImageLoop(r0, js, 0, press)
      invariant r.file == r0.file
    {
      var next, stop := NextImage(r, js, i, ImageJob(d, i, folder, latinize), press);
      r := next;
      if stop {
        break;
      }
      i := i + 1;
    }
    assert i == |js| ==> ImageLoop(r, js, i, press) == r;
  }

  /** One turn of the image loop: the check, then, unless the flag is seen set, the image's job. */
  method NextImage(r0: Progress, ghost js: seq<Job>, i: nat, job: Job, press: nat -> bool) returns (r: Progress, stop: bool)
    requires i < |js| && js[i] == job
    ensures stop ==> r == ImageLoop(r0, js, i, press)
    ensures !stop ==> ImageLoop(r, js, i + 1, press) == ImageLoop(r0, js, i, press)
    ensures r.file == r0.file
  {
    r := r0.(aborted := r0.aborted || press(r0.checks), checks := r0.checks + 1);
    assert r == Check(r0, press);
    assert ImageLoop(r0, js, i, press) == if r.aborted then r else ImageLoop(r.(jobs := r.jobs + [js[i]]), js, i + 1, press);
    stop := r.aborted;
    if !stop {
      r := r.(jobs := r.jobs + [job]);
    }
  }

  /**
   * One project once the check before it has passed: collect its data
   * (counting a failure when there is none), download its images, check the
   * flag again and, unless it is set, count the project completed and put a
   * gallery in the history. `save` says that the URL goes to the history file
   * too, whose new content `r.file` already holds.
   */
  method DownloadProject(r0: Progress, link: ProjectLink, pageOpen: bool, view: Option<PageView>, folder: string,
                         latinize: string -> string, press: nat -> bool)
    returns (r: Progress, save: bool)
    ensures r == ProjectStep(r0, TaskOf(link, pageOpen, view, folder, latinize), press)
    ensures save ==> r.file == History.AfterAdd(r0.file.0, r0.file.1, link.url, History.Crlf)
    ensures !save ==> r.file == r0.file
  {
    save := false;
    var data := CollectData(link, pageOpen, view);
    if data.None? {
      r := r0.(failed := Inc(r0.failed));
      return;
    }
    var d := Filtered(data.value);
    r := DownloadImages(r0, d, folder, latinize, press);
    r := r.(aborted := r.aborted || press(r.checks), checks := r.checks + 1);
    if !r.aborted {
      r := r.(completed := r.completed + 1);
      if link.variant == Gallery {
        r := r.(historyList := r.historyList + [link.url], file := History.AfterAdd(r.file.0, r.file.1, link.url, History.Crlf));
        save := true;
      }
    }
  }

  /** `addProjectUrlToHistoryFile` on the history file. */
  method SaveToHistory(file: History.TextFile, url: string)
    modifies file
    ensures (file.present, file.content) == History.AfterAdd(old(file.present), old(file.content), url, History.Crlf)
  {
    file.AddUrl(url, History.Crlf);
  }

  /**
   * One round of the project loop: the check of the flag, which ends the loop
   * when set (`stop`), else the project. The rest of the run from here is the
   * run from the next project on.
   */
  method NextProject(r0: Progress, ghost ts: seq<Task>, p: nat, link: ProjectLink, pageOpen: bool,
                     view: Option<PageView>, folder: string, latinize: string -> string, press: nat -> bool)
    returns (r: Progress, save: bool, stop: bool)
    requires p < |ts| && ts[p] == TaskOf(link, pageOpen, view, folder, latinize)
    ensures stop ==> !save && r == Run(r0, ts, p, press)
    ensures !stop ==> Run(r, ts, p + 1, press) == Run(r0, ts, p, press)
    ensures save ==> r.file == History.AfterAdd(r0.file.0, r0.file.1, link.url, History.Crlf)
    ensures !save ==> r.file == r0.file
  {
    save, stop := false, false;
    r := r0.(aborted := r0.aborted || press(r0.checks), checks := r0.checks + 1);
    if r.aborted {
      stop := true;
      return;
    }
    r, save := DownloadProject(r, link, pageOpen, view, folder, latinize, press);
  }

  /** The loop over the projects, until the end of the list or the flag is seen set. */
  method DownloadAll(r0: Progress, projects: seq<ProjectLink>, pageOpen: bool, views: seq<Option<PageView>>,
                     folder: string, latinize: string -> string, press: nat -> bool, file: History.TextFile)
    returns (r: Progress)
    requires |views| == |projects|
    requires (file.present, file.content) == r0.file
    modifies file
    ensures r == Run(r0, Tasks(projects, pageOpen, views, folder, latinize), 0, press)
    ensures (file.present, file.content) == r.file
  {
    ghost var ts := Tasks(projects, pageOpen, views, folder, latinize);
    r := r0;
    var p := 0;
    while p < |projects|
      invariant 0 <= p <= |projects| == |ts|
      invariant Run(r, ts, p, press) == Run(r0, ts, 0, press)
      invariant (file.present, file.content) == r.file
    {
      var next, save, stop := NextProject(r, ts, p, projects[p], pageOpen, views[p], folder, latinize, press);
      if save {
        SaveToHistory(file, projects[p].url);
      }
      r := next;
      if stop {
        break;
      }
      p := p + 1;
    }
  }

  // ---------------------------------------------------------------- the final status

  datatype TaskStatus = Aborted | NoProjects | AllSkipped | AllDownloaded | SomeFailed | UnknownError

  /** `taskEnding`'s choice, the first condition that holds in this order. */
  function FinalStatus(aborted: bool, total: int, completed: int, skipped: int, failed: JsCount): TaskStatus {
    if aborted then Aborted
    else if total == 0 then NoProjects
    else if total == skipped then AllSkipped
    else if total == completed + skipped then AllDownloaded
    else if Positive(failed) then SomeFailed
    else UnknownError
  }

  /**
   * With `projectsFailed` never given a number, "some projects were failed
   * to download" cannot be reported: a run with failures and nothing else
   * wrong ends in "unknown error...".
   */
  lemma FailedNeverReported(aborted: bool, total: int, completed: int, skipped: int, k: nat)
    ensures FinalStatus(aborted, total, completed, skipped, IncTimes(Undefined, k)) != SomeFailed
  {
    IncTimesNotNum(Undefined, k);
  }

  /**
   * A list built with the history skip and downloaded without an abort, with
   * data for every project, ends in "all projects were downloaded
   * successfully!" unless nothing was listed or everything was skipped.
   */
  lemma SuccessReported(r: Progress, ts: seq<Task>, press: nat -> bool, total: int)
    requires !r.aborted && r.completed == 0
    requires forall k :: !press(k)
    requires forall q :: 0 <= q < |ts| ==> ts[q].jobs.Some?
    requires total != 0 && |ts| != 0
    ensures var s := Run(r, ts, 0, press);
      FinalStatus(s.aborted, total, s.completed, total - |ts|, s.failed) == AllDownloaded
  {
    RunAllComplete(r, ts, 0, press);
  }

  // ---------------------------------------------------------------- appState

  /**
   * `appState`. The window, browser and page are only present or not; the
   * history file on disk is `historyFile`.
   */
  class App {
    var hasWindow: bool
    var hasBrowser: bool
    var hasPage: bool
    var projects: seq<ProjectLink>
    var projectsTotal: int
    var projectsCompleted: int
    var projectsSkipped: int
    var projectsFailed: JsCount
    var historyList: seq<string>
    var isAborted: bool
    const historyFile: History.TextFile

    /** The initial record: `projectsFailed` is not among its fields, so it is `undefined`. */
    constructor (historyFile: History.TextFile)
      ensures !hasWindow && !hasBrowser && !hasPage
      ensures projects == [] && historyList == []
      ensures projectsTotal == 0 && projectsCompleted == 0 && projectsSkipped == 0
      ensures projectsFailed == Undefined && !isAborted
      ensures this.historyFile == historyFile
    {
      hasWindow := false;
      hasBrowser := false;
      hasPage := false;
      projects := [];
      projectsTotal := 0;
      projectsCompleted := 0;
      projectsSkipped := 0;
      projectsFailed := Undefined;
      historyList := [];
      isAborted := false;
      this.historyFile := historyFile;
    }

    /** `resetPuppeteerDataInState`: the window and `projectsFailed` are left as they are. */
    method ResetPuppeteerData()
      modifies this
      ensures !hasBrowser && !hasPage
      ensures projects == [] && historyList == []
      ensures projectsTotal == 0 && projectsCompleted == 0 && projectsSkipped == 0
      ensures !isAborted
      ensures hasWindow == old(hasWindow) && projectsFailed == old(projectsFailed)
    {
      hasBrowser := false;
      hasPage := false;
      projects := [];
      projectsTotal := 0;
      projectsCompleted := 0;
      projectsSkipped := 0;
      historyList := [];
      isAborted := false;
    }

    /**
     * `generateProjectsList`: `collected[i]` is what the collector returns
     * for `urls[i]` (consulted only for a URL that is not a gallery).
     */
    method GenerateProjectsList(urls: seq<string>, collected: seq<Option<seq<ProjectLink>>>, skipProjectsByHistory: bool)
      requires |urls| == |collected|
      modifies this
      ensures hasWindow == old(hasWindow) && hasBrowser == old(hasBrowser) && hasPage == old(hasPage)
      ensures projectsCompleted == old(projectsCompleted) && historyList == old(historyList) && isAborted == old(isAborted)
      ensures !old(hasWindow) ==> Lists() == old(Lists())
      ensures old(hasWindow) ==> Lists() == ProjectsList(old(Lists()), urls, collected, skipProjectsByHistory, old(historyList))
    {
      if !hasWindow {
        return;
      }
      var r := BuildProjectsList(Lists(), urls, collected, skipProjectsByHistory, historyList);
      projects, projectsTotal, projectsFailed, projectsSkipped := r.projects, r.total, r.failed, r.skipped;
    }

    /** The fields the list building sets. */
    function Lists(): ListState
      reads this
    {
      ListState(projects, projectsTotal, projectsFailed, projectsSkipped)
    }

    /** The progress the download loop works on, read from the state. */
    function Snapshot(checks: nat, jobs: seq<Job>): Progress
      reads this, historyFile
    {
      Progress(projectsCompleted, projectsFailed, historyList, (historyFile.present, historyFile.content),
               isAborted, checks, jobs)
    }

    /**
     * `downloadProjects`: `views[p]` is what the page script sees on the page
     * of `projects[p]`, `press(k)` whether the abort handler has run before
     * check `k` of `isAborted`; `jobs` are the `downloadImage` calls.
     */
    method DownloadProjects(views: seq<Option<PageView>>, downloadFolder: string, press: nat -> bool, latinize: string -> string)
      returns (jobs: seq<Job>)
      requires |views| == |projects|
      modifies this, historyFile
      ensures projects == old(projects) && projectsTotal == old(projectsTotal) && projectsSkipped == old(projectsSkipped)
      ensures hasWindow == old(hasWindow) && hasBrowser == old(hasBrowser) && hasPage == old(hasPage)
      ensures !old(hasWindow) ==> jobs == [] && Snapshot(0, []) == old(Snapshot(0, []))
      ensures old(hasWindow) ==> exists checks: nat ::
        Snapshot(checks, jobs) == Run(old(Snapshot(0, [])), Tasks(projects, hasPage, views, downloadFolder, latinize), 0, press)
    {
      jobs := [];
      if !hasWindow {
        return;
      }
      var r := DownloadAll(Snapshot(0, []), projects, hasPage, views, downloadFolder, latinize, press, historyFile);
      projectsCompleted, projectsFailed, historyList, isAborted := r.completed, r.failed, r.historyList, r.aborted;
      jobs := r.jobs;
      assert Snapshot(r.checks, jobs) == r;
    }

    /** The status `taskEnding` reports, `None` without a window. */
    function Status(): (s: Option<TaskStatus>)
      reads this
      ensures s.Some? <==> hasWindow
    {
      if hasWindow
      then Some(FinalStatus(isAborted, projectsTotal, projectsCompleted, projectsSkipped, projectsFailed))
      else None
    }
  }
}
