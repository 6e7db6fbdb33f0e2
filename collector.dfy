/**
 * The page script of `collectProjectsUrlsFromPage` (src/download-pw.ts): it
 * gathers the grid elements of a moodboard, profile or likes page, the
 * project elements inside them, and turns each project element into a
 * `ProjectLink`.
 *
 * The DOM enters as values: for every grid selector the grid elements it
 * matches, and for every grid and project selector the project elements
 * below that grid.
 */
module Collector {
  import opened Text

  datatype Variant = Gallery | Image

  /** `ProjectLink` of src/types.ts: the variant, the project URL and the cover image. */
  datatype ProjectLink = ProjectLink(variant: Variant, url: string, image: string)

  /**
   * What the script reads from one project element: its tag, its parent's
   * tag, and the `href` of the parent's first `a` and the `src` of its first
   * `img` (`None` when there is no such element or attribute).
   */
  datatype Item = Item(tag: string, parentTag: string, href: Option<string>, src: Option<string>)

  /** A grid element: `matches[j]` are the elements below it that project selector `j` matches. */
  datatype Grid = Grid(matches: seq<seq<Item>>)

  /** A JavaScript string value that is neither missing nor empty. */
  predicate Truthy(v: Option<string>) {
    v.Some? && v.value != ""
  }

  /** The body of the last loop: `None` for a skipped element, else its link. */
  function Classify(e: Item, forceGallery: bool): Option<ProjectLink> {
    if !Truthy(e.href) || !Truthy(e.src) || !Contains(e.href.value, "/gallery/") then None
    else
      var single := e.tag == "DIV" && e.parentTag != "ARTICLE";
      var variant := if single && !forceGallery then Image else Gallery;
      Some(ProjectLink(variant, e.href.value, e.src.value))
  }

  /**
   * An element is kept exactly when both attributes are present and non-empty
   * and the URL names a gallery; its link is `image` exactly when it is a
   * `DIV` outside an `ARTICLE` and modules are not forced to galleries.
   */
  lemma ClassifySpec(e: Item, forceGallery: bool)
    ensures Classify(e, forceGallery).Some? <==>
      Truthy(e.href) && Truthy(e.src) && Contains(e.href.value, "/gallery/")
    ensures Classify(e, forceGallery).Some? ==>
      var l := Classify(e, forceGallery).value;
      && l.url == e.href.value && l.image == e.src.value
      && (l.variant == Image <==> e.tag == "DIV" && e.parentTag != "ARTICLE" && !forceGallery)
  {
  }

  // ---------------------------------------------------------------- grids

  /** The grid elements one selector contributes: only the first on a moodboard page. */
  function Chosen(found: seq<Grid>, moodboard: bool): (r: seq<Grid>)
    ensures forall g :: g in r ==> g in found
  {
    if moodboard && |found| > 1 then found[..1] else found
  }

  /** `allFoundGrids` after the first `n` grid selectors. */
  function SelectedGrids(bySelector: seq<seq<Grid>>, moodboard: bool, n: nat): (r: seq<Grid>)
    requires n <= |bySelector|
    ensures moodboard ==> |r| <= n
    ensures forall g :: g in r ==> exists i :: 0 <= i < n && g in bySelector[i]
  {
    if n == 0 then []
    else
      SelectedGrids(bySelector, moodboard, n - 1) + Chosen(bySelector[n - 1], moodboard)
  }

  /** On a moodboard page a selector contributes exactly its first grid, if it has one. */
  lemma ChosenMoodboard(found: seq<Grid>)
    ensures |found| == 0 ==> Chosen(found, true) == []
    ensures |found| > 0 ==> Chosen(found, true) == [found[0]]
  {
  }

  /** The elements project selector `j` matches below a grid. */
  function Matches(g: Grid, j: nat): seq<Item> {
    if j < |g.matches| then g.matches[j] else []
  }

  /** `allFoundGrids.flatMap(...)` for one project selector: the grids in order, each with its matches. */
  function FlatMatches(grids: seq<Grid>, j: nat): seq<Item> {
    if |grids| == 0 then [] else FlatMatches(grids[..|grids| - 1], j) + Matches(grids[|grids| - 1], j)
  }

  /** `projectElements` after the first `n` project selectors. */
  function ProjectItems(grids: seq<Grid>, n: nat): seq<Item> {
    if n == 0 then [] else ProjectItems(grids, n - 1) + FlatMatches(grids, n - 1)
  }

  /** The links of the first `k` elements, skipped elements left out, in element order. */
  function Classified(items: seq<Item>, forceGallery: bool, k: nat): (r: seq<ProjectLink>)
    requires k <= |items|
    ensures |r| <= k
  {
    if k == 0 then []
    else
      var rest := Classified(items, forceGallery, k - 1);
      match Classify(items[k - 1], forceGallery)
      case None => rest
      case Some(l) => rest + [l]
  }

  /** A link is collected exactly when one of the first `k` elements gives it. */
  lemma {:induction false} ClassifiedMember(items: seq<Item>, forceGallery: bool, k: nat)
    requires k <= |items|
    ensures forall l :: l in Classified(items, forceGallery, k) ==>
      exists i :: 0 <= i < k && Classify(items[i], forceGallery) == Some(l)
    ensures forall i :: 0 <= i < k && Classify(items[i], forceGallery).Some? ==>
      Classify(items[i], forceGallery).value in Classified(items, forceGallery, k)
  {
    if k > 0 {
      ClassifiedMember(items, forceGallery, k - 1);
      var rest := Classified(items, forceGallery, k - 1);
      var c := Classify(items[k - 1], forceGallery);
      var r := Classified(items, forceGallery, k);
      assert r == if c.None? then rest else rest + [c.value];
      forall l | l in r
        ensures exists i :: 0 <= i < k && Classify(items[i], forceGallery) == Some(l)
      {
        if l !in rest {
          assert Classify(items[k - 1], forceGallery) == Some(l);
        }
      }
      forall i | 0 <= i < k && Classify(items[i], forceGallery).Some?
        ensures Classify(items[i], forceGallery).value in r
      {
        if i < k - 1 {
          assert Classify(items[i], forceGallery).value in rest;
        }
      }
    }
  }

  /**
   * The page script: the chosen grids, then per project selector the
   * elements below them, then one link per usable element.
   */
  method CollectProjectLinks(bySelector: seq<seq<Grid>>, projectSelectors: nat, moodboard: bool, forceGallery: bool)
    returns (found: seq<ProjectLink>)
    ensures var items := ProjectItems(SelectedGrids(bySelector, moodboard, |bySelector|), projectSelectors);
      found == Classified(items, forceGallery, |items|)
  {
    var allGrids := SelectGrids(bySelector, moodboard);
    var items := GatherItems(allGrids, projectSelectors);
    found := ClassifyItems(items, forceGallery);
  }

  /** The first loop: every grid selector in turn, only its first grid on a moodboard page. */
  method SelectGrids(bySelector: seq<seq<Grid>>, moodboard: bool) returns (allGrids: seq<Grid>)
    ensures allGrids == SelectedGrids(bySelector, moodboard, |bySelector|)
  {
    allGrids := [];
    var s := 0;
    while s < |bySelector|
      invariant 0 <= s <= |bySelector|
      invariant allGrids == SelectedGrids(bySelector, moodboard, s)
    {
      var grids := bySelector[s];
      var g := 0;
      var start := allGrids;
      while g < |grids|
        invariant 0 <= g <= |grids|
        invariant allGrids == start + grids[..g]
        invariant moodboard ==> g == 0
      {
        allGrids := allGrids + [grids[g]];
        g := g + 1;
        if moodboard {
          break;
        }
      }
      assert grids[..g] == Chosen(grids, moodboard) by {
        if !moodboard || |grids| <= 1 {
          assert grids[..|grids|] == grids;
        }
      }
      s := s + 1;
    }
  }

  /** The second loop: per project selector, the matching elements below every chosen grid. */
  method GatherItems(allGrids: seq<Grid>, projectSelectors: nat) returns (items: seq<Item>)
    ensures items == ProjectItems(allGrids, projectSelectors)
  {
    items := [];
    var j := 0;
    while j < projectSelectors
      invariant 0 <= j <= projectSelectors
      invariant items == ProjectItems(allGrids, j)
    {
      items := items + FlatMatches(allGrids, j);
      j := j + 1;
    }
  }

  /** The last loop: one link per usable element, in element order. */
  method ClassifyItems(items: seq<Item>, forceGallery: bool) returns (found: seq<ProjectLink>)
    ensures found == Classified(items, forceGallery, |items|)
  {
    found := [];
    var k := 0;
    while k < |items|
      invariant 0 <= k <= |items|
      invariant found == Classified(items, forceGallery, k)
    {
      var link := Classify(items[k], forceGallery);
      assert Classified(items, forceGallery, k + 1) == if link.None? then found else found + [link.value];
      if link.Some? {
        found := found + [link.value];
      }
      k := k + 1;
    }
  }

  /**
   * Every collected link names a gallery by a non-empty URL with a non-empty
   * cover, and forcing galleries leaves no `image` link.
   */
  lemma {:induction false} ClassifiedLinks(items: seq<Item>, forceGallery: bool, k: nat)
    requires k <= |items|
    ensures forall l :: l in Classified(items, forceGallery, k) ==>
      l.url != "" && l.image != "" && Contains(l.url, "/gallery/") && (forceGallery ==> l.variant == Gallery)
  {
    ClassifiedMember(items, forceGallery, k);
    forall l | l in Classified(items, forceGallery, k)
      ensures l.url != "" && l.image != "" && Contains(l.url, "/gallery/") && (forceGallery ==> l.variant == Gallery)
    {
      var i :| 0 <= i < k && Classify(items[i], forceGallery) == Some(l);
      ClassifySpec(items[i], forceGallery);
    }
  }

  /** Nothing is deduplicated: two usable copies of an element give two equal links. */
  lemma ClassifiedKeepsCopies(e: Item, forceGallery: bool)
    requires Classify(e, forceGallery).Some?
    ensures var r := Classified([e, e], forceGallery, 2);
      |r| == 2 && r[0] == r[1]
  {
    assert Classified([e, e], forceGallery, 1) == [Classify(e, forceGallery).value];
  }
}
