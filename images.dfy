/**
 * Selection of a project's own images among all image URLs found on its page
 * (src/utils.ts `getProjectImagesFromParsedImages`), the older variant of
 * app/js/puppeteer.js (`checkImageUrl` and `correctProjectData`).
 *
 * Behance serves an image in several resolution "tiers", each in its own
 * folder under `/project_modules/`; the selection rewrites the folder to
 * `source`, the full-resolution one.
 */
module ImageFilter {
  import opened Text

  /** A URL containing one of these is never a project image. */
  const DenyList: seq<string> := [
    "static.kuula.io",
    "files.kuula.io/users/",
    "files.kuula.io/profiles/",
    "cdn.cp.adobe.io"
  ]

  /** The deny list of app/js/puppeteer.js, without the Adobe CDN entry. */
  const LegacyDenyList: seq<string> := DenyList[..3]

  predicate Denied(url: string, deny: seq<string>) {
    exists i :: 0 <= i < |deny| && Contains(url, deny[i])
  }

  /**
   * `/\.jpe?g|png$/i`: the alternation splits at `|`, so this is ".jpg" or
   * ".jpeg" anywhere, or "png" at the very end.
   */
  predicate JpegOrPng(url: string) {
    ContainsCI(url, ".jpg") || ContainsCI(url, ".jpeg") || EndsWithCI(url, "png")
  }

  /** Lower-case ASCII only; `ContainsCI` expects its pattern in this form. */
  predicate IsLowerAscii(pat: string) {
    forall i :: 0 <= i < |pat| ==> !('A' <= pat[i] <= 'Z')
  }

  /** The acceptance test of one URL, for a given deny list. */
  predicate Accept(url: string, deny: seq<string>) {
    && JpegOrPng(url)
    && !Denied(url, deny)
    && !ContainsCI(url, "base64")
    && (ContainsCI(url, "/project_modules/") || !ContainsCI(url, "behance.net"))
  }

  /** The acceptance test of src/utils.ts. */
  predicate IsProjectImage(url: string) {
    Accept(url, DenyList)
  }

  /** An accepted URL has no deny-list fragment, no `base64` in any case, and is a project module if it is on behance.net. */
  lemma AcceptMeans(url: string, deny: seq<string>)
    requires Accept(url, deny)
    ensures forall i :: 0 <= i < |deny| ==> !Contains(url, deny[i])
    ensures !ContainsCI(url, "base64")
    ensures ContainsCI(url, "behance.net") ==> ContainsCI(url, "/project_modules/")
  {
  }

  // ---------------------------------------------------------------- the tier rewrite

  /** `[\w.-]`. */
  predicate IsNameChar(c: char) {
    IsWordChar(c) || c == '.' || c == '-'
  }

  predicate AllNameChars(t: string) {
    forall i :: 0 <= i < |t| ==> IsNameChar(t[i])
  }

  /**
   * `/([\w.-]+)(\/[\w.-]+)$/` matches `s` starting at `p` with its `/` at `q`:
   * a non-empty run of name characters, a slash, and a non-empty run of
   * name characters up to the end.
   */
  predicate MatchesAt(s: string, p: int, q: int) {
    && 0 <= p < q && q + 1 < |s|
    && s[q] == '/'
    && AllNameChars(s[p..q])
    && AllNameChars(s[q + 1..])
  }

  /** Start of the run of name characters that ends at `q`. */
  function RunStart(s: string, q: int): (p: int)
    requires 0 <= q <= |s|
    ensures 0 <= p <= q
    ensures AllNameChars(s[p..q])
    ensures p > 0 ==> !IsNameChar(s[p - 1])
    decreases q
  {
    if q > 0 && IsNameChar(s[q - 1]) then
      var p := RunStart(s, q - 1);
      assert s[p..q] == s[p..q - 1] + [s[q - 1]];
      p
    else q
  }

  /** No run of name characters ending at `q` starts before `RunStart`. */
  lemma RunStartLeftmost(s: string, q: int, p: int)
    requires 0 <= p <= q <= |s| && AllNameChars(s[p..q])
    ensures RunStart(s, q) <= p
  {
  }

  /** The condition under which the rewrite fires. */
  predicate TierMatch(s: string) {
    var q := LastIndexOf(s, '/');
    q >= 0 && RunStart(s, q) < q && q + 1 < |s| && AllNameChars(s[q + 1..])
  }

  /**
   * `s.replace(/([\w.-]+)(\/[\w.-]+)$/, 'source$2')`: the leftmost match, if
   * any, has its first group replaced by `source`; otherwise `s` is returned.
   */
  function TierRewrite(s: string): string {
    if TierMatch(s) then
      var q := LastIndexOf(s, '/');
      s[..RunStart(s, q)] + "source" + s[q..]
    else s
  }

  /** Any match has its slash at the last slash of the string. */
  lemma MatchSlash(s: string, p: int, q: int)
    requires MatchesAt(s, p, q)
    ensures LastIndexOf(s, '/') == q
  {
  }

  /** When the rewrite fires, the regex matches at the run start. */
  lemma TierMatchMatches(s: string)
    requires TierMatch(s)
    ensures MatchesAt(s, RunStart(s, LastIndexOf(s, '/')), LastIndexOf(s, '/'))
  {
  }

  /** A match makes the rewrite fire, with its leftmost start at the run start. */
  lemma MatchesTierMatch(s: string, p: int, q: int)
    requires MatchesAt(s, p, q)
    ensures TierMatch(s) && LastIndexOf(s, '/') == q
    ensures (p == 0 || !IsNameChar(s[p - 1])) ==> RunStart(s, q) == p
  {
    MatchSlash(s, p, q);
    RunStartLeftmost(s, q, p);
  }

  /** Without a match the string is unchanged. */
  lemma TierRewriteNoMatch(s: string)
    requires forall p, q :: !MatchesAt(s, p, q)
    ensures TierRewrite(s) == s
  {
    if TierMatch(s) {
      TierMatchMatches(s);
    }
  }

  /** The leftmost match has its first group replaced by `source`; the rest of the string is kept. */
  lemma TierRewriteMatch(s: string, p: int, q: int)
    requires MatchesAt(s, p, q) && (p == 0 || !IsNameChar(s[p - 1]))
    ensures TierRewrite(s) == s[..p] + "source" + s[q..]
  {
    MatchesTierMatch(s, p, q);
  }

  /** The rewrite of a URL ending in `tier/file` puts `source` in place of the tier. */
  lemma TierRewriteShape(head: string, tier: string, file: string)
    requires |head| == 0 || !IsNameChar(head[|head| - 1])
    requires |tier| > 0 && AllNameChars(tier) && |file| > 0 && AllNameChars(file)
    ensures TierRewrite(head + tier + "/" + file) == head + "source/" + file
  {
    var s := head + tier + "/" + file;
    ShapeMatches(head, tier, file);
    Pieces(head, tier, "/", file);
    TierRewriteAt(s, head, file, |head|, |head| + |tier|);
  }

  /** The rewrite at a match that starts right after `head` and has `file` after its slash. */
  lemma TierRewriteAt(s: string, head: string, file: string, p: int, q: int)
    requires MatchesAt(s, p, q) && (p == 0 || !IsNameChar(s[p - 1]))
    requires s[..p] == head && s[q + 1..] == file
    ensures TierRewrite(s) == head + "source/" + file
  {
    TierRewriteMatch(s, p, q);
    SlashTail(s, q);
    SourceNameChars();
    Regroup(head, "source", "/", file, "source/");
  }

  /** The regex matches `head + tier + "/" + file` right after `head`. */
  lemma ShapeMatches(head: string, tier: string, file: string)
    requires |head| == 0 || !IsNameChar(head[|head| - 1])
    requires |tier| > 0 && AllNameChars(tier) && |file| > 0 && AllNameChars(file)
    ensures var s := head + tier + "/" + file;
      MatchesAt(s, |head|, |head| + |tier|) && (|head| == 0 || !IsNameChar(s[|head| - 1]))
  {
    Pieces(head, tier, "/", file);
  }

  /** The pieces of `a + b + c + d`, sliced back out. */
  lemma Pieces<T>(a: seq<T>, b: seq<T>, c: seq<T>, d: seq<T>)
    ensures var s := a + b + c + d;
      && s[..|a|] == a && s[|a|..|a| + |b|] == b
      && s[|a| + |b|..] == c + d && s[|a| + |b| + |c|..] == d
      && (|a| > 0 ==> s[|a| - 1] == a[|a| - 1])
      && (|c| > 0 ==> s[|a| + |b|] == c[0])
  {
  }

  lemma Regroup<T>(a: seq<T>, b: seq<T>, c: seq<T>, d: seq<T>, bc: seq<T>)
    requires b + c == bc
    ensures a + b + (c + d) == a + bc + d
    ensures a + b + c + d == a + bc + d
  {
  }

  lemma SourceNameChars()
    ensures AllNameChars("source") && "source" + "/" == "source/"
  {
    var t := "source";
    assert t[0] == 's' && t[1] == 'o' && t[2] == 'u' && t[3] == 'r' && t[4] == 'c' && t[5] == 'e';
  }

  /** Rewriting twice is rewriting once. */
  lemma TierRewriteIdempotent(s: string)
    ensures TierRewrite(TierRewrite(s)) == TierRewrite(s)
  {
    if TierMatch(s) {
      var q := LastIndexOf(s, '/');
      var p := RunStart(s, q);
      var head := s[..p];
      var file := s[q + 1..];
      SlashTail(s, q);
      SourceNameChars();
      Regroup(head, "source", "/", file, "source/");
      assert p > 0 ==> head[|head| - 1] == s[p - 1];
      TierRewriteShape(head, "source", file);
    }
  }

  /** The tail from a slash is that slash and what follows it. */
  lemma SlashTail(s: string, q: int)
    requires 0 <= q < |s| && s[q] == '/'
    ensures s[q..] == "/" + s[q + 1..]
  {
  }

  /** The rewrite neither adds nor removes a `?`. */
  lemma TierRewriteNoQuery(s: string)
    requires '?' !in s
    ensures '?' !in TierRewrite(s)
  {
    if TierMatch(s) {
      var q := LastIndexOf(s, '/');
      var p := RunStart(s, q);
      assert '?' !in s[..p] && '?' !in s[q..];
    }
  }

  /** Project-module URLs get the full-resolution tier; others are kept. */
  function Upgrade(u: string): string {
    if Contains(u, "/project_modules/") then TierRewrite(u) else u
  }

  lemma UpgradeIdempotent(u: string)
    ensures Upgrade(Upgrade(u)) == Upgrade(u)
  {
    TierRewriteIdempotent(u);
  }

  /** What one accepted URL becomes: its query is stripped, then its tier upgraded. */
  function Resolve(u: string): (r: string)
    ensures '?' !in r
  {
    var b := BeforeQuery(u);
    TierRewriteNoQuery(b);
    Upgrade(b)
  }

  // ---------------------------------------------------------------- src/utils.ts

  /** The list before `new Set`: accepted URLs, resolved, in input order with repetitions. */
  function Candidates(parsed: seq<string>): (r: seq<string>)
    ensures |r| <= |parsed|
  {
    Map(Filter(parsed, IsProjectImage), Resolve)
  }

  /** `getProjectImagesFromParsedImages`. */
  function ProjectImages(parsed: seq<string>): seq<string> {
    Dedup(Candidates(parsed))
  }

  /** A resolved URL is in the output exactly when some accepted input resolves to it. */
  lemma ProjectImagesMembers(parsed: seq<string>, x: string)
    ensures x in ProjectImages(parsed) <==>
      exists i :: 0 <= i < |parsed| && Accept(parsed[i], DenyList) && Resolve(parsed[i]) == x
  {
    var f := Filter(parsed, IsProjectImage);
    var c := Candidates(parsed);
    if x in ProjectImages(parsed) {
      var j :| 0 <= j < |c| && c[j] == x;
      assert f[j] in parsed;
      var i :| 0 <= i < |parsed| && parsed[i] == f[j];
    }
    if exists i :: 0 <= i < |parsed| && Accept(parsed[i], DenyList) && Resolve(parsed[i]) == x {
      var i :| 0 <= i < |parsed| && Accept(parsed[i], DenyList) && Resolve(parsed[i]) == x;
      assert parsed[i] in f;
      var j :| 0 <= j < |f| && f[j] == parsed[i];
      assert c[j] == x;
    }
  }

  /** The output has no duplicates, no `?`, and follows the order of first occurrence among the candidates. */
  lemma ProjectImagesShape(parsed: seq<string>)
    ensures NoDup(ProjectImages(parsed))
    ensures forall x :: x in ProjectImages(parsed) ==> '?' !in x
    ensures forall i, j :: 0 <= i < j < |ProjectImages(parsed)| ==>
      FirstIndex(Candidates(parsed), ProjectImages(parsed)[i]) < FirstIndex(Candidates(parsed), ProjectImages(parsed)[j])
  {
    DedupOrder(Candidates(parsed));
    forall x | x in ProjectImages(parsed) ensures '?' !in x {
      ProjectImagesMembers(parsed, x);
    }
  }

  /** A rejected URL (deny-listed, `base64`, wrong extension, or a non-module behance.net image) contributes nothing, wherever it stands. */
  lemma RejectedContributesNothing(xs: seq<string>, u: string, ys: seq<string>)
    requires !Accept(u, DenyList)
    ensures ProjectImages(xs + [u] + ys) == ProjectImages(xs + ys)
  {
    var p := IsProjectImage;
    FilterAppend(xs + [u], ys, p);
    FilterAppend(xs, [u], p);
    FilterAppend(xs, ys, p);
    assert Filter([u], p) == [];
  }

  /** A deny-listed or base64 URL is one such rejected URL. */
  lemma DeniedRejected(u: string)
    requires Denied(u, DenyList) || ContainsCI(u, "base64")
    ensures !Accept(u, DenyList)
  {
  }

  // ---------------------------------------------------------------- app/js/puppeteer.js

  function SomeOf(u: string): Option<string> {
    Some(u)
  }

  /** `checkImageUrl` of app/js/puppeteer.js: non-strings (`None`) are rejected. */
  predicate LegacyAccept(v: Option<string>) {
    v.Some? && Accept(v.value, LegacyDenyList)
  }

  /** The strings among `xs` that pass `LegacyAccept`, in order. */
  function AcceptedStrings(xs: seq<Option<string>>): (r: seq<string>)
    ensures |r| <= |xs|
    decreases |xs|
  {
    if |xs| == 0 then []
    else
      var rest := AcceptedStrings(xs[..|xs| - 1]);
      var v := xs[|xs| - 1];
      if LegacyAccept(v) then rest + [v.value] else rest
  }

  /** A string is kept exactly when it is among the candidates and passes the test. */
  lemma {:induction false} AcceptedStringsMember(xs: seq<Option<string>>, x: string)
    ensures x in AcceptedStrings(xs) <==> Some(x) in xs && Accept(x, LegacyDenyList)
    decreases |xs|
  {
    if |xs| > 0 {
      var init := xs[..|xs| - 1];
      AcceptedStringsMember(init, x);
      SnocMember(xs, Some(x));
    }
  }

  lemma {:induction false} AcceptedStringsAppend(xs: seq<Option<string>>, ys: seq<Option<string>>)
    ensures AcceptedStrings(xs + ys) == AcceptedStrings(xs) + AcceptedStrings(ys)
    decreases |ys|
  {
    if |ys| > 0 {
      var zs := xs + ys;
      assert zs[..|zs| - 1] == xs + ys[..|ys| - 1];
      AcceptedStringsAppend(xs, ys[..|ys| - 1]);
    } else {
      assert xs + ys == xs;
    }
  }

  /**
   * `correctProjectData` of app/js/puppeteer.js: the page's image sources
   * (`None` where an attribute was missing) followed by the intercepted
   * request URLs, filtered, upgraded without stripping queries, deduplicated.
   */
  function LegacyImages(dom: seq<Option<string>>, requests: seq<string>): seq<string> {
    Dedup(Map(AcceptedStrings(dom + Map(requests, SomeOf)), Upgrade))
  }

  /** A legacy output image is the upgrade of an accepted string from either source. */
  lemma LegacyImagesMembers(dom: seq<Option<string>>, requests: seq<string>, x: string)
    ensures x in LegacyImages(dom, requests) <==>
      exists u :: (Some(u) in dom || u in requests) && Accept(u, LegacyDenyList) && Upgrade(u) == x
  {
    var a := AcceptedStrings(dom + Map(requests, SomeOf));
    DedupMember(Map(a, Upgrade), x);
    MapMember(a, Upgrade, x);
    forall u ensures u in a <==> (Some(u) in dom || u in requests) && Accept(u, LegacyDenyList) {
      SourcesMember(dom, requests, u);
      AcceptedStringsMember(dom + Map(requests, SomeOf), u);
    }
  }

  /** The candidate list holds a string exactly when the page or the requests do. */
  lemma SourcesMember(dom: seq<Option<string>>, requests: seq<string>, u: string)
    ensures Some(u) in dom + Map(requests, SomeOf) <==> Some(u) in dom || u in requests
  {
    var all := dom + Map(requests, SomeOf);
    if Some(u) in all {
      var k :| 0 <= k < |all| && all[k] == Some(u);
      if k >= |dom| {
        assert requests[k - |dom|] == u;
      }
    }
    if u in requests {
      var k :| 0 <= k < |requests| && requests[k] == u;
      assert all[|dom| + k] == Some(u);
    }
  }


  /** Legacy output has no duplicates, and keeps the order of first occurrence. */
  lemma LegacyImagesShape(dom: seq<Option<string>>, requests: seq<string>)
    ensures NoDup(LegacyImages(dom, requests))
    ensures var c := Map(AcceptedStrings(dom + Map(requests, SomeOf)), Upgrade);
      forall i, j :: 0 <= i < j < |LegacyImages(dom, requests)| ==>
        FirstIndex(c, LegacyImages(dom, requests)[i]) < FirstIndex(c, LegacyImages(dom, requests)[j])
  {
    DedupOrder(Map(AcceptedStrings(dom + Map(requests, SomeOf)), Upgrade));
  }

  /** The legacy deny list accepts more: everything the current test accepts, plus Adobe CDN URLs. */
  lemma LegacyAcceptsMore(u: string)
    ensures Accept(u, DenyList) ==> Accept(u, LegacyDenyList)
    ensures !Contains(u, "cdn.cp.adobe.io") ==> (Accept(u, LegacyDenyList) <==> Accept(u, DenyList))
  {
    if Denied(u, LegacyDenyList) {
      var i :| 0 <= i < 3 && Contains(u, LegacyDenyList[i]);
      assert LegacyDenyList[i] == DenyList[i];
    }
    if !Contains(u, "cdn.cp.adobe.io") && Denied(u, DenyList) {
      var i :| 0 <= i < 4 && Contains(u, DenyList[i]);
      assert i < 3;
      assert LegacyDenyList[i] == DenyList[i];
    }
  }

  /**
   * Without queries, Adobe CDN URLs, missing attributes or intercepted
   * requests, the two selections agree.
   */
  lemma {:induction false} VariantsAgree(xs: seq<string>)
    requires forall i :: 0 <= i < |xs| ==> '?' !in xs[i] && !Contains(xs[i], "cdn.cp.adobe.io")
    ensures LegacyImages(Map(xs, SomeOf), []) == ProjectImages(xs)
  {
    var dom := Map(xs, SomeOf);
    assert dom + Map([], SomeOf) == dom;
    CandidatesAgree(xs);
  }

  lemma {:induction false} CandidatesAgree(xs: seq<string>)
    requires forall i :: 0 <= i < |xs| ==> '?' !in xs[i] && !Contains(xs[i], "cdn.cp.adobe.io")
    ensures Map(AcceptedStrings(Map(xs, SomeOf)), Upgrade) == Candidates(xs)
    decreases |xs|
  {
    if |xs| > 0 {
      var init := xs[..|xs| - 1];
      var u := xs[|xs| - 1];
      CandidatesAgree(init);
      assert xs == init + [u];
      MapAppend(init, [u], SomeOf);
      AcceptedStringsAppend(Map(init, SomeOf), Map([u], SomeOf));
      FilterAppend(init, [u], IsProjectImage);
      var a1 := AcceptedStrings(Map(init, SomeOf));
      var a2 := AcceptedStrings(Map([u], SomeOf));
      var f1 := Filter(init, IsProjectImage);
      var f2 := Filter([u], IsProjectImage);
      OneAgrees(u);
      MapAppend(a1, a2, Upgrade);
      MapAppend(f1, f2, Resolve);
    }
  }

  lemma OneAgrees(u: string)
    requires '?' !in u && !Contains(u, "cdn.cp.adobe.io")
    ensures Map(AcceptedStrings(Map([u], SomeOf)), Upgrade) == Map(Filter([u], IsProjectImage), Resolve)
  {
    LegacyAcceptsMore(u);
    BeforeQueryNoQuery(u);
    assert Map([u], SomeOf) == [Some(u)];
    assert AcceptedStrings([Some(u)]) == Filter([u], IsProjectImage);
  }

  // ---------------------------------------------------------------- test vectors of app/js/testing.js

  const CdnHost := "https://mir-s3-cdn-cf.behance.net/"
  const SampleFile := "cd3f02155176025.634fbdd5e09ce.jpg"

  lemma SampleFileNameChars()
    ensures |SampleFile| > 0 && AllNameChars(SampleFile)
  {
  }

  const ModulesHead := CdnHost + "project_modules/"

  lemma ModulesHeadEnd()
    ensures ModulesHead[|ModulesHead| - 1] == '/' && !IsNameChar('/')
  {
  }

  /** `project_modules/1200_max/` becomes `project_modules/source/`. */
  lemma Vector1200Max()
    ensures TierRewrite(ModulesHead + "1200_max" + "/" + SampleFile) == ModulesHead + "source/" + SampleFile
  {
    SampleFileNameChars();
    ModulesHeadEnd();
    TierRewriteShape(ModulesHead, "1200_max", SampleFile);
  }

  /** `project_modules/2800_opt_1/` becomes `project_modules/source/`. */
  lemma Vector2800Opt()
    ensures TierRewrite(ModulesHead + "2800_opt_1" + "/" + SampleFile) == ModulesHead + "source/" + SampleFile
  {
    SampleFileNameChars();
    ModulesHeadEnd();
    TierRewriteShape(ModulesHead, "2800_opt_1", SampleFile);
  }

  /** `project_modules/fs/` becomes `project_modules/source/`. */
  lemma VectorFs()
    ensures TierRewrite(ModulesHead + "fs" + "/" + SampleFile) == ModulesHead + "source/" + SampleFile
  {
    SampleFileNameChars();
    ModulesHeadEnd();
    TierRewriteShape(ModulesHead, "fs", SampleFile);
  }

  /** In `project_modules/1400/x/` only the innermost folder `x` is replaced. */
  lemma VectorNested()
    ensures TierRewrite(ModulesHead + "1400/" + "x" + "/" + SampleFile) == ModulesHead + "1400/" + "source/" + SampleFile
  {
    SampleFileNameChars();
    var h := ModulesHead + "1400/";
    assert h[|h| - 1] == '/';
    TierRewriteShape(h, "x", SampleFile);
  }

  /** A CDN URL outside `/project_modules/` is not touched by `Upgrade`. */
  lemma VectorRoot()
    ensures Upgrade(CdnHost + SampleFile) == CdnHost + SampleFile
  {
    var s := CdnHost + SampleFile;
    NoUnderscore();
    assert '_' !in s;
    MissingChar(s, "/project_modules/", 8);
  }

  lemma NoUnderscore()
    ensures '_' !in CdnHost && '_' !in SampleFile
  {
    var h := CdnHost;
    var f := SampleFile;
    assert forall i :: 0 <= i < |h| ==> h[i] != '_';
    assert forall i :: 0 <= i < |f| ==> f[i] != '_';
  }
}
