/**
 * Active-link marking (assets/js/modules/navActive.js).
 *
 * A navigation anchor is a `Link` record: its `href` attribute, its class
 * list and its `aria-current` attribute. The page's anchors are an array
 * that the marking loop updates in place.
 */
module NavActive {
  import opened Wrappers
  import opened Strings

  const IndexPage := "index.html"
  const ActiveClass := "active"
  const CurrentPage := "page"

  /**
   * `getPageName`: the last `/`-separated segment, `index.html` when that is
   * empty, otherwise cut at the first `#`. The emptiness test comes before
   * the cut, so `#top` names the empty page `""`. (`file === '/'` can never
   * hold after splitting at `/`; it is kept as written.)
   */
  function PageName(path: string): (r: string)
    ensures '/' !in r && '#' !in r
  {
    LastPartIsFinalSegment(path, '/');
    var file := Last(Split(path, '/'));
    if file == "" || file == "/" then IndexPage
    else if '#' in file then
      FirstPartIsCut(file, '#');
      PrefixChars(file, Split(file, '#')[0], '/');
      Split(file, '#')[0]
    else file
  }

  /**
   * In terms of the final segment `seg` of the path: `index.html` when `seg`
   * is empty, otherwise `seg` cut at its first `#` (all of `seg` when it has
   * no `#`).
   */
  lemma PageNameOfFinalSegment(path: string, seg: string)
    requires IsFinalSegment(path, seg, '/')
    ensures seg == "" ==> PageName(path) == IndexPage
    ensures seg != "" ==> IsCutAtFirst(seg, PageName(path), '#')
    ensures seg != "" && '#' !in seg ==> PageName(path) == seg
  {
    LastPartIsFinalSegment(path, '/');
    FinalSegmentUnique(path, seg, Last(Split(path, '/')), '/');
    if seg != "" && '#' in seg {
      FirstPartIsCut(seg, '#');
    }
  }

  /** The two hrefs the index clause singles out both name the index page. */
  lemma IndexHrefsNameIndex()
    ensures PageName("./") == IndexPage
    ensures PageName("") == IndexPage
  {
    PageNameOfFinalSegment("./", "");
    PageNameOfFinalSegment("", "");
  }

  /** A path ending in a plain file name (no `/`, no `#`) names that file. */
  lemma PageNameOfFile(dir: string, file: string)
    requires file != "" && '/' !in file && '#' !in file
    ensures PageName(dir + "/" + file) == file
  {
    var path := dir + "/" + file;
    assert path[|dir| + 1..] == file;
    PageNameOfFinalSegment(path, file);
  }

  /** A path ending in `/` names the index page. */
  lemma PageNameOfDirectory(dir: string)
    ensures PageName(dir + "/") == IndexPage
  {
    PageNameOfFinalSegment(dir + "/", "");
  }

  /** A fragment after a file name is cut off. */
  lemma PageNameOfFileWithFragment(dir: string, file: string, fragment: string)
    requires file != "" && '/' !in file && '#' !in file && '/' !in fragment
    ensures PageName(dir + "/" + file + "#" + fragment) == file
  {
    var seg := file + "#" + fragment;
    var path := dir + "/" + seg;
    assert dir + "/" + file + "#" + fragment == path;
    assert path[|dir| + 1..] == seg;
    PageNameOfFinalSegment(path, seg);
    assert seg[..|file|] == file;
    CutUnique(seg, PageName(path), file, '#');
  }

  /**
   * A final segment that starts with `#` names the empty page, not the
   * index page: the emptiness test runs before the fragment is cut.
   */
  lemma PageNameOfBareFragment(dir: string, fragment: string)
    requires '/' !in fragment
    ensures PageName(dir + "/#" + fragment) == ""
  {
    var seg := "#" + fragment;
    var path := dir + "/#" + fragment;
    assert path == dir + "/" + seg;
    assert path[|dir| + 1..] == seg;
    PageNameOfFinalSegment(path, seg);
    assert IsCutAtFirst(seg, "", '#');
    CutUnique(seg, PageName(path), "", '#');
  }

  datatype Link = Link(href: string, classes: set<string>, ariaCurrent: Option<string>)

  /** External (`http…`) and in-page (`#…`) anchors are skipped. */
  predicate IsSkipped(href: string): (b: bool)
    ensures b <==> (|href| >= 4 && href[..4] == "http") || (|href| >= 1 && href[0] == '#')
  {
    "http" <= href || "#" <= href
  }

  /**
   * The marking test of the loop body: `isSame || isIndex`. The index
   * clause adds nothing: an anchor is marked exactly when it names the
   * current page.
   */
  predicate IsCurrent(current: string, href: string): (b: bool)
    ensures b <==> PageName(href) == current
  {
    IndexHrefsNameIndex();
    var hrefPage := PageName(href);
    var isIndex := current == IndexPage && (hrefPage == IndexPage || href == "./" || href == "");
    var isSame := hrefPage == current;
    isSame || isIndex
  }

  /**
   * One iteration of the loop: a skipped anchor is left as it is; any other
   * anchor carries class `active` and `aria-current="page"` exactly when it
   * names the current page, and loses both otherwise; its other classes and
   * its href never change.
   */
  function MarkLink(current: string, a: Link): (r: Link)
    ensures IsSkipped(a.href) ==> r == a
    ensures !IsSkipped(a.href) ==>
      && r.href == a.href
      && r.classes - {ActiveClass} == a.classes - {ActiveClass}
      && (ActiveClass in r.classes <==> PageName(a.href) == current)
      && r.ariaCurrent == (if PageName(a.href) == current then Some(CurrentPage) else None)
  {
    if IsSkipped(a.href) then a
    else if IsCurrent(current, a.href) then
      a.(classes := a.classes + {ActiveClass}, ariaCurrent := Some(CurrentPage))
    else
      a.(classes := a.classes - {ActiveClass}, ariaCurrent := None)
  }

  /** Marking one anchor twice gives what marking it once gives. */
  lemma MarkLinkIdempotent(current: string, a: Link)
    ensures MarkLink(current, MarkLink(current, a)) == MarkLink(current, a)
  {
  }

  /** The whole `forEach`: every anchor marked against the same current page, order kept. */
  function MarkAll(current: string, links: seq<Link>): (r: seq<Link>)
    ensures |r| == |links|
    ensures forall i :: 0 <= i < |links| ==> r[i] == MarkLink(current, links[i])
    decreases |links|
  {
    if links == [] then []
    else [MarkLink(current, links[0])] + MarkAll(current, links[1..])
  }

  /** Re-running the marking with the same location and anchors changes nothing more. */
  lemma {:induction false} MarkAllIdempotent(current: string, links: seq<Link>)
    ensures MarkAll(current, MarkAll(current, links)) == MarkAll(current, links)
    decreases |links|
  {
    var once := MarkAll(current, links);
    forall i | 0 <= i < |links|
      ensures MarkAll(current, once)[i] == once[i]
    {
      MarkLinkIdempotent(current, links[i]);
    }
  }

  /** A link to a plain file is marked exactly when that file is the current page. */
  lemma MarkPlainLink(current: string, a: Link)
    requires a.href != "" && '/' !in a.href && '#' !in a.href && !IsSkipped(a.href)
    ensures MarkLink(current, a) ==
      if a.href == current then a.(classes := a.classes + {ActiveClass}, ariaCurrent := Some(CurrentPage))
      else a.(classes := a.classes - {ActiveClass}, ariaCurrent := None)
  {
    PageNameOfFinalSegment(a.href, a.href);
  }

  /**
   * The current page `…/pricing.html` with anchors to another file, to
   * `pricing.html` and to `#contact`: only the second ends up marked, the
   * first loses any marking, and the fragment anchor is untouched.
   */
  lemma PricingScenario(dir: string, page: string, other: Link, same: Link, fragment: Link)
    requires page != "" && '/' !in page && '#' !in page && !IsSkipped(page)
    requires same.href == page && "#" <= fragment.href
    requires other.href != "" && '/' !in other.href && '#' !in other.href && !IsSkipped(other.href)
    requires other.href != page
    ensures var r := MarkAll(PageName(dir + "/" + page), [other, same, fragment]);
            && r[0] == other.(classes := other.classes - {ActiveClass}, ariaCurrent := None)
            && r[1] == same.(classes := same.classes + {ActiveClass}, ariaCurrent := Some(CurrentPage))
            && r[2] == fragment
  {
    PageNameOfFile(dir, page);
    MarkPlainLink(page, other);
    MarkPlainLink(page, same);
  }

  /**
   * `setActiveNavLink`: the location's page name, then every anchor of the
   * navigation updated in place, one at a time.
   */
  method SetActiveNavLink(pathname: string, links: array<Link>)
    modifies links
    ensures links[..] == MarkAll(PageName(pathname), old(links[..]))
  {
    var current := PageName(pathname);
    var i := 0;
    while i < links.Length
      invariant 0 <= i <= links.Length
      invariant forall k :: 0 <= k < i ==> links[k] == MarkLink(current, old(links[k]))
      invariant forall k :: i <= k < links.Length ==> links[k] == old(links[k])
    {
      links[i] := MarkLink(current, links[i]);
      i := i + 1;
    }
  }
}
