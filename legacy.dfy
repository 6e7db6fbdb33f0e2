/**
 * The older puppeteer-driven run of app/js/puppeteer.js: its module-level
 * counters, `generateProjectsList`, `saveProjectToHistory`, and the loop of
 * `downloadProjects`, which places every image in the download folder with
 * the older `downloadImage` and ends with the `task:skipped` / `task:done`
 * signals.
 *
 * The browser enters as values: the links each listing page gives, and per
 * project what `parseProjectData` reads and the image requests seen while the
 * page loads, or nothing when `page.goto` or the page script rejects. Every read of `config.isAborted` is a sample `press(k)` of the
 * flag the abort handler sets, `k` counting the reads.
 */
module Legacy {
  import opened Text
  import History
  import Naming
  import ImageFilter
  import Folder

  // ---------------------------------------------------------------- the project list

  predicate IsGallery(url: string) {
    Contains(url, "behance.net/gallery/")
  }

  /**
   * The list after the first `n` seeds: a gallery seed as it was pasted, any
   * other seed replaced by the links its page gives (`collected[i]`).
   */
  function Expanded(urls: seq<string>, collected: seq<seq<string>>, n: nat): seq<string>
    requires n <= |urls| == |collected|
  {
    if n == 0 then []
    else Expanded(urls, collected, n - 1) + (if IsGallery(urls[n - 1]) then [urls[n - 1]] else collected[n - 1])
  }

  /** The history filter: an entry is kept when the history does not list it. */
  function Unlisted(history: seq<string>): string -> bool {
    u => u !in history
  }

  /** The list `generateProjectsList` leaves: each entry cut at its `?`, listed ones dropped when skipping. */
  function ProjectsList(urls: seq<string>, collected: seq<seq<string>>, skip: bool, history: seq<string>): seq<string>
    requires |urls| == |collected|
  {
    var cut := Map(Expanded(urls, collected, |urls|), BeforeQuery);
    if skip then Filter(cut, Unlisted(history)) else cut
  }

  /** The loop over the seeds; `projectsTotal` is set after each seed only, so no seed leaves it as it was. */
  method ExpandSeeds(urls: seq<string>, collected: seq<seq<string>>, total0: int) returns (projects: seq<string>, total: int)
    requires |urls| == |collected|
    ensures projects == Expanded(urls, collected, |urls|)
    ensures total == if |urls| == 0 then total0 else |projects|
  {
    projects := [];
    total := total0;
    var i := 0;
    while i < |urls|
      invariant 0 <= i <= |urls|
      invariant projects == Expanded(urls, collected, i)
      invariant total == if i == 0 then total0 else |projects|
    {
      if IsGallery(urls[i]) {
        projects := projects + [urls[i]];
      } else {
        projects := projects + collected[i];
      }
      total := |projects|;
      i := i + 1;
    }
  }

  /** The list building of `generateProjectsList`, with the total it leaves. */
  method ListProjects(urls: seq<string>, collected: seq<seq<string>>, skip: bool, history: seq<string>, total0: int)
    returns (list: seq<string>, total: int)
    requires |urls| == |collected|
    ensures list == ProjectsList(urls, collected, skip, history)
    ensures total == if |urls| == 0 then total0 else |Expanded(urls, collected, |urls|)|
  {
    list, total := ExpandSeeds(urls, collected, total0);
    list := Map(list, BeforeQuery);
    if skip {
      list := Filter(list, Unlisted(history));
    }
  }

  /**
   * Every listed project is an expanded entry cut at its `?`, so it holds no
   * `?`; when skipping, none is in the history, and every cut entry the
   * history does not list stays.
   */
  lemma ProjectsListSpec(urls: seq<string>, collected: seq<seq<string>>, skip: bool, history: seq<string>)
    requires |urls| == |collected|
    ensures var ps := ProjectsList(urls, collected, skip, history);
      var all := Expanded(urls, collected, |urls|);
      && |ps| <= |all| && (!skip ==> |ps| == |all|)
      && (forall p :: p in ps ==> '?' !in p && exists u :: u in all && BeforeQuery(u) == p)
      && (skip ==> forall p :: p in ps ==> p !in history)
      && (forall u :: u in all && (!skip || BeforeQuery(u) !in history) ==> BeforeQuery(u) in ps)
  {
    var all := Expanded(urls, collected, |urls|);
    var cut := Map(all, BeforeQuery);
    forall p | p in cut ensures '?' !in p && exists u :: u in all && BeforeQuery(u) == p {
      MapMember(all, BeforeQuery, p);
    }
    forall u | u in all ensures BeforeQuery(u) in cut {
      MapMember(all, BeforeQuery, BeforeQuery(u));
    }
  }

  /** A gallery seed is listed once per paste: nothing is deduplicated. */
  lemma ExpandedKeepsCopies(u: string, collected: seq<seq<string>>)
    requires IsGallery(u) && |collected| == 2
    ensures Expanded([u, u], collected, 2) == [u, u]
  {
    assert Expanded([u, u], collected, 1) == [u];
  }

  // ---------------------------------------------------------------- the history list

  /** `saveProjectToHistory` on the list: a listed URL changes nothing, any other is appended. */
  function SaveList(history: seq<string>, url: string): seq<string> {
    if url in history then history else history + [url]
  }

  /** Saving lists the URL, adds at most that URL, and saving it again changes nothing. */
  lemma SaveListSpec(history: seq<string>, url: string)
    ensures var h := SaveList(history, url);
      && url in h && history <= h && |h| <= |history| + 1
      && (url in history <==> h == history)
      && SaveList(h, url) == h
  {
    var h := SaveList(history, url);
    if url !in history {
      assert h[|history|] == url;
    }
  }

  /**
   * The file a save writes, joined by `\r\n` and not trimmed, reads back as
   * the saved list when its lines hold no line break and the joined text has
   * no space at either end.
   */
  lemma SavedFileReadsBack(history: seq<string>, url: string)
    requires url !in history
    requires forall i :: 0 <= i < |history| ==> !Contains(history[i], History.Crlf)
    requires !Contains(url, History.Crlf)
    requires Trimmed(Join(history + [url], History.Crlf))
    ensures History.Lines(true, History.Written(SaveList(history, url), History.Crlf, false), History.Crlf) == history + [url]
  {
    var h := history + [url];
    assert SaveList(history, url) == h;
    SnocFree(history, url, History.Crlf);
    History.ReadWritten(h, History.Crlf, false);
  }

  lemma SnocFree(xs: seq<string>, x: string, eol: History.Eol)
    requires forall i :: 0 <= i < |xs| ==> !Contains(xs[i], eol)
    requires !Contains(x, eol)
    ensures forall i :: 0 <= i < |xs + [x]| ==> !Contains((xs + [x])[i], eol)
  {
  }

  /** The write of `saveProjectToHistory`: only an unlisted URL rewrites the file, with the whole list. */
  method SaveToHistory(history: seq<string>, url: string, file: History.TextFile) returns (h: seq<string>)
    modifies file
    ensures h == SaveList(history, url)
    ensures url in history ==> file.present == old(file.present) && file.content == old(file.content)
    ensures url !in history ==> file.present && file.content == History.Written(h, History.Crlf, false)
  {
    h := history;
    if url !in h {
      h := h + [url];
      file.WriteLines(h, History.Crlf, false);
    }
  }

  // ---------------------------------------------------------------- the download loop

  /** What `parseProjectData` returns for a project page, and the image requests its loading made. */
  datatype Page = Page(title: string, owners: string, url: string, id: string, images: seq<Option<string>>, requests: seq<string>)

  /**
   * The inputs from outside: per project its page, `None` when `page.goto`
   * rejects or the page script throws (it reads the `content` of an `og:`
   * meta tag that may be missing), which nothing catches; per project `k` and image
   * `i` the size `downloadFile` leaves (`None` when the fetch fails) and the
   * size after the EXIF step; the abort samples; the transliteration.
   */
  datatype World = World(pages: seq<Option<Page>>, fetched: (nat, nat) -> Option<nat>, exif: (nat, nat) -> Option<nat>,
                         press: nat -> bool, latinize: string -> string)

  /**
   * What the run changes: the download folder, the history list and file,
   * `projectsCompleted`, the flag and the number of its reads, and whether an
   * error has escaped (`crashed`), which rejects `downloadProjects`.
   */
  datatype Progress = Progress(dir: Folder.Dir, history: seq<string>, file: (bool, string), completed: int,
                               aborted: bool, checks: nat, crashed: bool)

  /** One read of `config.isAborted`. */
  function Check(r: Progress, press: nat -> bool): Progress {
    r.(aborted := r.aborted || press(r.checks), checks := r.checks + 1)
  }

  /** `correctProjectData` of the page. */
  function Images(p: Page): seq<string> {
    ImageFilter.LegacyImages(p.images, p.requests)
  }

  /** The name image `i` of project `k` is saved under. */
  function ImageName(w: World, k: nat, url: string, i: nat): string
    requires k < |w.pages| && w.pages[k].Some?
  {
    Naming.LegacyFileName(w.pages[k].value.title, w.pages[k].value.owners, url, i + 1, w.latinize)
  }

  /** The image loop of project `k` from image `i` on. */
  function ImageLoop(r: Progress, w: World, k: nat, imgs: seq<string>, i: nat): Progress
    requires k < |w.pages| && w.pages[k].Some? && i <= |imgs|
    decreases |imgs| - i
  {
    if i == |imgs| then r
    else
      var c := Check(r, w.press);
      if c.aborted then c
      else
        var (d, crashed) := Folder.AfterLegacyDownload(c.dir, ImageName(w, k, imgs[i], i), w.fetched(k, i), w.exif(k, i));
        if crashed then c.(dir := d, crashed := true)
        else ImageLoop(c.(dir := d), w, k, imgs, i + 1)
  }

  /** After the image loop: unless an error escaped or the flag is seen set, the URL is saved and the project counted. */
  function Finish(r: Progress, url: string, press: nat -> bool): Progress {
    if r.crashed then r
    else
      var c := Check(r, press);
      if c.aborted then c
      else
        var h := SaveList(c.history, url);
        var file := if url in c.history then c.file else (true, History.Written(h, History.Crlf, false));
        c.(history := h, file := file, completed := c.completed + 1)
  }

  /** One project once the check before it has passed: a page that cannot be read rejects the run. */
  function ProjectStep(c: Progress, w: World, k: nat): Progress
    requires k < |w.pages|
  {
    match w.pages[k]
    case None => c.(crashed := true)
    case Some(p) => Finish(ImageLoop(c, w, k, Images(p), 0), p.url, w.press)
  }

  /** The loop over the projects from `k` on. */
  function RunFrom(r: Progress, w: World, k: nat): Progress
    requires k <= |w.pages|
    decreases |w.pages| - k
  {
    if k == |w.pages| then r
    else
      var c := Check(r, w.press);
      if c.aborted then c
      else
        var s := ProjectStep(c, w, k);
        if s.crashed then s else RunFrom(s, w, k + 1)
  }

  /** What the renderer is sent at the end: nothing after an escaped error. */
  datatype Outcome = Crashed | Ended(skipped: bool, done: bool)

  /** The end of `downloadProjects`: `task:done` reads the flag once more. */
  function Ending(r: Progress, toDownload: int, press: nat -> bool): (Progress, Outcome) {
    if r.crashed then (r, Crashed)
    else
      var c := Check(r, press);
      (c, Ended(toDownload == 0, toDownload != 0 && !c.aborted))
  }

  // ---------------------------------------------------------------- properties of the run

  /** What a run keeps of a progress: the counters and lists it only ever extends. */
  ghost predicate Extends(r: Progress, s: Progress) {
    && r.completed <= s.completed && r.checks <= s.checks
    && r.history <= s.history
    && (r.aborted ==> s.aborted)
  }

  /** One image of the loop. */
  lemma ImageLoopStep(r: Progress, w: World, k: nat, imgs: seq<string>, i: nat)
    requires k < |w.pages| && w.pages[k].Some? && i < |imgs|
    ensures var c := Check(r, w.press);
      var a := Folder.AfterLegacyDownload(c.dir, ImageName(w, k, imgs[i], i), w.fetched(k, i), w.exif(k, i));
      ImageLoop(r, w, k, imgs, i) ==
        if c.aborted then c else if a.1 then c.(dir := a.0, crashed := true) else ImageLoop(c.(dir := a.0), w, k, imgs, i + 1)
  {
  }

  /** The image loop counts nothing and leaves the history alone; an abort seen before it leaves the folder too. */
  lemma {:induction false} ImageLoopSpec(r: Progress, w: World, k: nat, imgs: seq<string>, i: nat)
    requires k < |w.pages| && w.pages[k].Some? && i <= |imgs| && !r.crashed
    ensures var s := ImageLoop(r, w, k, imgs, i);
      && s.history == r.history && s.file == r.file && s.completed == r.completed
      && r.checks <= s.checks && (r.aborted ==> s == r.(checks := s.checks))
      && (!s.crashed && !s.aborted ==> s.checks == r.checks + (|imgs| - i))
    decreases |imgs| - i
  {
    if i < |imgs| {
      var c := Check(r, w.press);
      ImageLoopStep(r, w, k, imgs, i);
      if !c.aborted {
        var (d, crashed) := Folder.AfterLegacyDownload(c.dir, ImageName(w, k, imgs[i], i), w.fetched(k, i), w.exif(k, i));
        if !crashed {
          ImageLoopSpec(c.(dir := d), w, k, imgs, i + 1);
        }
      }
    }
  }

  /**
   * A page that cannot be read rejects the run and changes nothing else. A
   * read page completes at most once, puts at most its page URL into the
   * history, and only when it completes.
   */
  lemma ProjectStepSpec(c: Progress, w: World, k: nat)
    requires k < |w.pages| && !c.crashed
    ensures w.pages[k].None? ==> ProjectStep(c, w, k) == c.(crashed := true)
    ensures w.pages[k].Some? ==>
      var u := ProjectStep(c, w, k);
      var url := w.pages[k].value.url;
      && Extends(c, u)
      && c.completed <= u.completed <= c.completed + 1
      && (u.history == c.history || u.history == c.history + [url])
      && (u.completed == c.completed ==> u.history == c.history && u.file == c.file)
      && (!u.crashed && !u.aborted ==> u.completed == c.completed + 1 && url in u.history)
  {
    if w.pages[k].Some? {
      var p := w.pages[k].value;
      ImageLoopSpec(c, w, k, Images(p), 0);
      SaveListSpec(ImageLoop(c, w, k, Images(p), 0).history, p.url);
    }
  }

  /** One project of the run. */
  lemma RunFromStep(r: Progress, w: World, k: nat)
    requires k < |w.pages|
    ensures var c := Check(r, w.press);
      RunFrom(r, w, k) == if c.aborted then c else if ProjectStep(c, w, k).crashed then ProjectStep(c, w, k) else RunFrom(ProjectStep(c, w, k), w, k + 1)
  {
  }

  /**
   * The run only counts up and appends; once the flag has been seen set it
   * stays set, and the run neither downloads, counts nor saves anything more.
   */
  lemma {:induction false} RunExtends(r: Progress, w: World, k: nat)
    requires k <= |w.pages| && !r.crashed
    ensures var s := RunFrom(r, w, k);
      && Extends(r, s)
      && (r.aborted ==> s.dir == r.dir && s.history == r.history && s.file == r.file && s.completed == r.completed && !s.crashed)
    decreases |w.pages| - k
  {
    if k < |w.pages| {
      var c := Check(r, w.press);
      RunFromStep(r, w, k);
      if !c.aborted {
        ProjectStepSpec(c, w, k);
        var s := ProjectStep(c, w, k);
        if !s.crashed {
          RunExtends(s, w, k + 1);
        }
      }
    }
  }

  /** A run that ends neither aborted nor rejected has completed every remaining project. */
  lemma {:induction false} RunAllComplete(r: Progress, w: World, k: nat)
    requires k <= |w.pages| && !r.crashed
    ensures var s := RunFrom(r, w, k);
      !s.aborted && !s.crashed ==> s.completed == r.completed + (|w.pages| - k)
    decreases |w.pages| - k
  {
    if k < |w.pages| {
      var c := Check(r, w.press);
      RunFromStep(r, w, k);
      if !c.aborted {
        ProjectStepSpec(c, w, k);
        var t := ProjectStep(c, w, k);
        if !t.crashed {
          RunAllComplete(t, w, k + 1);
          RunExtends(t, w, k + 1);
        }
      }
    }
  }

  /** Every page from `k` on was read and its URL is in `history`. */
  ghost predicate AllSaved(w: World, k: nat, history: seq<string>) {
    forall q :: k <= q < |w.pages| ==> w.pages[q].Some? && w.pages[q].value.url in history
  }

  /** A run that ends neither aborted nor rejected has read every remaining page and has its URL in the history. */
  lemma {:induction false} RunAllSaved(r: Progress, w: World, k: nat)
    requires k <= |w.pages| && !r.crashed
    ensures var s := RunFrom(r, w, k);
      !s.aborted && !s.crashed ==> AllSaved(w, k, s.history)
    decreases |w.pages| - k
  {
    if k < |w.pages| {
      var c := Check(r, w.press);
      RunFromStep(r, w, k);
      if !c.aborted {
        var t := ProjectStep(c, w, k);
        if !t.crashed {
          RunAllSaved(t, w, k + 1);
          RunExtends(t, w, k + 1);
          var s := RunFrom(t, w, k + 1);
          if !s.aborted && !s.crashed {
            StepSaved(c, w, k);
            PrefixKeeps(t.history, s.history, w.pages[k].value.url);
            AllSavedStep(w, k, s.history);
          }
        }
      }
    }
  }

  lemma AllSavedStep(w: World, k: nat, history: seq<string>)
    requires k < |w.pages| && w.pages[k].Some? && w.pages[k].value.url in history && AllSaved(w, k + 1, history)
    ensures AllSaved(w, k, history)
  {
  }

  /** A project that neither rejects the run nor sees the flag set had its page read and saved. */
  lemma StepSaved(c: Progress, w: World, k: nat)
    requires k < |w.pages| && !c.crashed
    ensures var u := ProjectStep(c, w, k);
      !u.crashed && !u.aborted ==> w.pages[k].Some? && w.pages[k].value.url in u.history
  {
    ProjectStepSpec(c, w, k);
  }

  /** The page URLs of the read pages from `k` on. */
  function PageUrls(w: World, k: nat): (us: set<string>)
    ensures forall q :: k <= q < |w.pages| && w.pages[q].Some? ==> w.pages[q].value.url in us
  {
    set q | k <= q < |w.pages| && w.pages[q].Some? :: w.pages[q].value.url
  }

  lemma PrefixKeeps(a: seq<string>, b: seq<string>, x: string)
    requires a <= b && x in a
    ensures x in b
  {
    var i :| 0 <= i < |a| && a[i] == x;
    assert b[i] == x;
  }

  /** What a run adds past `a` is in `big` when the step to `b` adds only `x` and the rest adds only members of `small`. */
  lemma Added(a: seq<string>, b: seq<string>, c: seq<string>, x: string, small: set<string>, big: set<string>)
    requires a <= b <= c && (b == a || b == a + [x])
    requires forall u :: u in c[|b|..] ==> u in small
    requires small <= big && x in big
    ensures a <= c && forall u :: u in c[|a|..] ==> u in big
  {
    DropSplit(a, b, c);
    if b != a {
      assert b[|a|..] == [x];
    }
  }

  /** Every URL the run adds to the history is the page URL of one of the remaining projects. */
  lemma {:induction false} RunHistory(r: Progress, w: World, k: nat)
    requires k <= |w.pages| && !r.crashed
    ensures var s := RunFrom(r, w, k);
      && r.history <= s.history
      && forall u :: u in s.history[|r.history|..] ==> u in PageUrls(w, k)
    decreases |w.pages| - k
  {
    if k < |w.pages| {
      var c := Check(r, w.press);
      RunFromStep(r, w, k);
      if !c.aborted {
        var t := ProjectStep(c, w, k);
        ProjectStepSpec(c, w, k);
        if !t.crashed {
          RunHistory(t, w, k + 1);
          Added(r.history, t.history, RunFrom(t, w, k + 1).history, w.pages[k].value.url, PageUrls(w, k + 1), PageUrls(w, k));
        }
      }
    }
  }

  /** Every file operation of the run keeps the folder's listing and its name-to-size map in agreement. */
  lemma {:induction false} ImageLoopValid(r: Progress, w: World, k: nat, imgs: seq<string>, i: nat)
    requires k < |w.pages| && w.pages[k].Some? && i <= |imgs| && Folder.Valid(r.dir)
    ensures Folder.Valid(ImageLoop(r, w, k, imgs, i).dir)
    decreases |imgs| - i
  {
    if i < |imgs| {
      var c := Check(r, w.press);
      ImageLoopStep(r, w, k, imgs, i);
      if !c.aborted {
        var name := ImageName(w, k, imgs[i], i);
        Folder.LegacyDownloadValid(c.dir, name, w.fetched(k, i), w.exif(k, i));
        var (d, crashed) := Folder.AfterLegacyDownload(c.dir, name, w.fetched(k, i), w.exif(k, i));
        if !crashed {
          ImageLoopValid(c.(dir := d), w, k, imgs, i + 1);
        }
      }
    }
  }

  lemma {:induction false} RunValid(r: Progress, w: World, k: nat)
    requires k <= |w.pages| && Folder.Valid(r.dir)
    ensures Folder.Valid(RunFrom(r, w, k).dir)
    decreases |w.pages| - k
  {
    if k < |w.pages| {
      var c := Check(r, w.press);
      RunFromStep(r, w, k);
      if !c.aborted && w.pages[k].Some? {
        ImageLoopValid(c, w, k, Images(w.pages[k].value), 0);
        var s := ProjectStep(c, w, k);
        if !s.crashed {
          RunValid(s, w, k + 1);
        }
      }
    }
  }

  /**
   * `task:skipped` is sent exactly for an empty download list and `task:done`
   * exactly for a non-empty one whose last read of the flag finds it clear;
   * never both, and never once the run has seen the flag set.
   */
  lemma EndingSpec(r: Progress, toDownload: int, press: nat -> bool)
    ensures var (c, o) := Ending(r, toDownload, press);
      && (r.crashed <==> o.Crashed?)
      && (o.Ended? ==> (o.skipped <==> toDownload == 0) && (o.done <==> toDownload != 0 && !c.aborted))
      && (o.Ended? ==> !(o.skipped && o.done))
      && (o.Ended? && r.aborted ==> !o.done)
  {
  }

  // ---------------------------------------------------------------- the loop as code

  /** One turn of the image loop: the check, then, unless the flag is seen set, the image placed in the folder. */
  method NextImage(r0: Progress, w: World, k: nat, imgs: seq<string>, i: nat, folder: Folder.DownloadFolder)
    returns (r: Progress, stop: bool)
    requires k < |w.pages| && w.pages[k].Some? && i < |imgs| && !r0.crashed
    requires folder.State() == r0.dir
    modifies folder
    ensures folder.State() == r.dir
    ensures stop ==> r == ImageLoop(r0, w, k, imgs, i)
    ensures !stop ==> !r.crashed && ImageLoop(r, w, k, imgs, i + 1) == ImageLoop(r0, w, k, imgs, i)
  {
    r := r0.(aborted := r0.aborted || w.press(r0.checks), checks := r0.checks + 1);
    assert r == Check(r0, w.press);
    if r.aborted {
      stop := true;
      return;
    }
    var name := ImageName(w, k, imgs[i], i);
    var crashed := folder.LegacyDownloadImage(name, w.fetched(k, i), w.exif(k, i));
    r := r.(dir := folder.State(), crashed := crashed);
    stop := crashed;
  }

  /** The loop over the images of project `k`: a check before each, then `downloadImage` with index `i + 1`. */
  method DownloadImages(r0: Progress, w: World, k: nat, folder: Folder.DownloadFolder) returns (r: Progress)
    requires k < |w.pages| && w.pages[k].Some? && !r0.crashed
    requires folder.State() == r0.dir
    modifies folder
    ensures folder.State() == r.dir
    ensures r == ImageLoop(r0, w, k, Images(w.pages[k].value), 0)
  {
    var imgs := ImageFilter.LegacyImages(w.pages[k].value.images, w.pages[k].value.requests);
    r := r0;
    var i := 0;
    while i < |imgs|
      invariant 0 <= i <= |imgs| && !r.crashed
      invariant folder.State() == r.dir
      invariant ImageLoop(r, w, k, imgs, i) == ImageLoop(r0, w, k, imgs, 0)
    {
      var next, stop := NextImage(r, w, k, imgs, i, folder);
      r := next;
      if stop {
        break;
      }
      i := i + 1;
    }
  }

  /**
   * One turn of the project loop: the check, the page, the images, and,
   * unless an error escaped or the flag is seen set, the save and the count.
   * `save` says that the history file is to be written with `r.history`.
   */
  method NextProject(r0: Progress, w: World, k: nat, folder: Folder.DownloadFolder) returns (r: Progress, save: bool, stop: bool)
    requires k < |w.pages| && !r0.crashed
    requires folder.State() == r0.dir
    modifies folder
    ensures folder.State() == r.dir
    ensures stop ==> !save && r == RunFrom(r0, w, k)
    ensures !stop ==> !r.crashed && RunFrom(r, w, k + 1) == RunFrom(r0, w, k)
    ensures save ==> w.pages[k].Some? && w.pages[k].value.url !in r0.history && r.history == r0.history + [w.pages[k].value.url]
    ensures save ==> r.file == (true, History.Written(r.history, History.Crlf, false))
    ensures !save ==> r.file == r0.file
  {
    save, stop := false, false;
    r := r0.(aborted := r0.aborted || w.press(r0.checks), checks := r0.checks + 1);
    assert r == Check(r0, w.press);
    RunFromStep(r0, w, k);
    if r.aborted {
      stop := true;
      return;
    }
    if w.pages[k].None? {
      r, stop := r.(crashed := true), true;
      return;
    }
    ghost var c := r;
    r := DownloadImages(r, w, k, folder);
    ImageLoopSpec(c, w, k, Images(w.pages[k].value), 0);
    r, save := FinishProject(r, w.pages[k].value.url, w.press);
    stop := r.crashed;
  }

  /** The end of one project: unless an error escaped, the check, then the save and the count. */
  method FinishProject(r0: Progress, url: string, press: nat -> bool) returns (r: Progress, save: bool)
    ensures r == Finish(r0, url, press)
    ensures save <==> !r0.crashed && !r.aborted && url !in r0.history
    ensures save ==> r.history == r0.history + [url] && r.file == (true, History.Written(r.history, History.Crlf, false))
    ensures !save ==> r.file == r0.file && r.dir == r0.dir
  {
    r, save := r0, false;
    if r.crashed {
      return;
    }
    r := r.(aborted := r.aborted || press(r.checks), checks := r.checks + 1);
    if !r.aborted {
      if url !in r.history {
        save := true;
        var h := r.history + [url];
        r := r.(history := h, file := (true, History.Written(h, History.Crlf, false)));
      }
      r := r.(completed := r.completed + 1);
    }
  }

  /** The loop over the projects, until the end of the list, an escaped error, or the flag seen set. */
  method DownloadAll(r0: Progress, w: World, folder: Folder.DownloadFolder, file: History.TextFile) returns (r: Progress)
    requires !r0.crashed
    requires folder.State() == r0.dir && (file.present, file.content) == r0.file
    modifies folder, file
    ensures folder.State() == r.dir && (file.present, file.content) == r.file
    ensures r == RunFrom(r0, w, 0)
  {
    r := r0;
    var k := 0;
    while k < |w.pages|
      invariant 0 <= k <= |w.pages| && !r.crashed
      invariant folder.State() == r.dir && (file.present, file.content) == r.file
      invariant RunFrom(r, w, k) == RunFrom(r0, w, 0)
    {
      var next, save, stop := NextProject(r, w, k, folder);
      if save {
        var _ := SaveToHistory(r.history, w.pages[k].value.url, file);
      }
      r := next;
      if stop {
        break;
      }
      k := k + 1;
    }
  }

  // ---------------------------------------------------------------- the module state

  /** The module-level variables of app/js/puppeteer.js, with `config.isAborted`. */
  class LegacyTask {
    var projects: seq<string>
    var projectsTotal: int
    var projectsPassedByHistory: int
    var projectsToDownload: int
    var projectsCompleted: int
    var historyList: seq<string>
    var isAborted: bool
    const historyFile: History.TextFile
    const folder: Folder.DownloadFolder

    /** The counters `initPuppeteer` sets; the history list, left undefined there, is read by `generateProjectsList`. */
    constructor (historyFile: History.TextFile, folder: Folder.DownloadFolder)
      ensures projects == []
      ensures projectsTotal == 0 && projectsPassedByHistory == 0 && projectsToDownload == 0 && projectsCompleted == 0
      ensures !isAborted
      ensures this.historyFile == historyFile && this.folder == folder
    {
      projects := [];
      projectsTotal := 0;
      projectsPassedByHistory := 0;
      projectsToDownload := 0;
      projectsCompleted := 0;
      historyList := [];
      isAborted := false;
      this.historyFile := historyFile;
      this.folder := folder;
    }

    /**
     * `generateProjectsList`: the history is read from its file, the seeds
     * are expanded, every entry is cut at its `?`, and, when skipping, the
     * listed ones are dropped; the difference is `projectsPassedByHistory`.
     */
    method GenerateProjectsList(urls: seq<string>, collected: seq<seq<string>>, skip: bool)
      requires |urls| == |collected|
      modifies this
      ensures historyList == History.Lines(historyFile.present, historyFile.content, History.Crlf)
      ensures projects == ProjectsList(urls, collected, skip, historyList)
      ensures projectsTotal == if |urls| == 0 then old(projectsTotal) else |Expanded(urls, collected, |urls|)|
      ensures projectsToDownload == |projects| && projectsPassedByHistory == projectsTotal - projectsToDownload
      ensures projectsCompleted == old(projectsCompleted) && isAborted == old(isAborted)
    {
      var history := historyFile.ReadLines(History.Crlf);
      var list, total := ListProjects(urls, collected, skip, history, projectsTotal);
      historyList, projects, projectsTotal := history, list, total;
      projectsToDownload := |list|;
      projectsPassedByHistory := total - |list|;
    }

    /** `saveProjectToHistory`. */
    method SaveProjectToHistory(url: string)
      modifies this, historyFile
      ensures historyList == SaveList(old(historyList), url)
      ensures url in old(historyList) ==> historyFile.present == old(historyFile.present) && historyFile.content == old(historyFile.content)
      ensures url !in old(historyList) ==> historyFile.present && historyFile.content == History.Written(historyList, History.Crlf, false)
      ensures projects == old(projects) && projectsCompleted == old(projectsCompleted)
      ensures projectsTotal == old(projectsTotal) && projectsPassedByHistory == old(projectsPassedByHistory)
      ensures projectsToDownload == old(projectsToDownload) && isAborted == old(isAborted)
    {
      historyList := SaveToHistory(historyList, url, historyFile);
    }

    /** The progress the download loop works on, read from the state. */
    function Snapshot(checks: nat): Progress
      reads this, folder, historyFile
    {
      Progress(folder.State(), historyList, (historyFile.present, historyFile.content), projectsCompleted, isAborted, checks, false)
    }

    /**
     * `downloadProjects`: page `k` is what the browser gives for `projects[k]`;
     * the outcome says which final signal is sent, if any.
     */
    method DownloadProjects(w: World) returns (outcome: Outcome)
      requires |w.pages| == |projects|
      modifies this, folder, historyFile
      ensures projects == old(projects) && projectsTotal == old(projectsTotal)
      ensures projectsToDownload == old(projectsToDownload) && projectsPassedByHistory == old(projectsPassedByHistory)
      ensures var (s, o) := Ending(RunFrom(old(Snapshot(0)), w, 0), old(projectsToDownload), w.press);
        && outcome == o && folder.State() == s.dir && (historyFile.present, historyFile.content) == s.file
        && historyList == s.history && projectsCompleted == s.completed && isAborted == s.aborted
    {
      var r := DownloadAll(Snapshot(0), w, folder, historyFile);
      if !r.crashed {
        r := r.(aborted := r.aborted || w.press(r.checks), checks := r.checks + 1);
        outcome := Ended(projectsToDownload == 0, projectsToDownload != 0 && !r.aborted);
      } else {
        outcome := Crashed;
      }
      historyList, projectsCompleted, isAborted := r.history, r.completed, r.aborted;
    }
  }
}
