/**
 * Marking the navigation link of the current page: every `.nav-link` gets
 * the class `active` or loses it according to the last segment of its
 * `href` and of `location.pathname`.
 */
module Navigation {

  import opened Strings

  /** `pathname.split('/').pop() || 'index.html'`. */
  function CurrentPage(pathname: string): (r: string)
    ensures r != "" && '/' !in r
    ensures LastSegment(pathname) != "" ==> r == LastSegment(pathname)
    ensures LastSegment(pathname) == "" ==> r == "index.html"
  {
    var seg := LastSegment(pathname);
    if seg == "" then "index.html" else seg
  }

  /** The site root and a path ending in `/` are the home page. */
  lemma DirectoryIsIndex(dir: string)
    ensures CurrentPage(dir + "/") == "index.html"
  {
    LastSegmentOfJoin(dir, "");
    assert dir + "/" + "" == dir + "/";
  }

  /** The first test of the `forEach` body, which sets or clears the class. */
  predicate SamePage(currentPage: string, linkPage: string) {
    || linkPage == currentPage
    || (currentPage == "" && linkPage == "index.html")
    || (currentPage == "index.html" && linkPage == "index.html")
  }

  /** The second test, which may add the class again. */
  predicate ServicesOfServicePage(currentPage: string, linkPage: string) {
    StartsWith(currentPage, "service-") && linkPage == "services.html"
  }

  /** The class a link ends with after both tests. */
  predicate LinkActive(currentPage: string, href: string) {
    SamePage(currentPage, LastSegment(href)) || ServicesOfServicePage(currentPage, LastSegment(href))
  }

  /** The rule the code implements: a link is active exactly when it names the current page,
      or the current page is a `service-` page and the link is the services index. */
  predicate ShouldBeActive(currentPage: string, href: string) {
    || LastSegment(href) == currentPage
    || (StartsWith(currentPage, "service-") && LastSegment(href) == "services.html")
  }

  /** The code as written decides by that rule: its two extra `index.html` tests add nothing,
      since the current page is never empty. */
  lemma ActiveRule(currentPage: string, href: string)
    requires currentPage != ""
    ensures LinkActive(currentPage, href) <==> ShouldBeActive(currentPage, href)
  {
  }

  /** Away from `service-` pages all active links point at the same page. */
  lemma ActiveLinksAgree(pathname: string, href1: string, href2: string)
    requires !StartsWith(CurrentPage(pathname), "service-")
    requires ShouldBeActive(CurrentPage(pathname), href1) && ShouldBeActive(CurrentPage(pathname), href2)
    ensures LastSegment(href1) == LastSegment(href2)
  {
  }

  /** One turn of the `navLinks.forEach` body: the link's `active` class afterwards. */
  method MarkLink(currentPage: string, href: string) returns (active: bool)
    ensures active == LinkActive(currentPage, href)
  {
    var linkPage := LastSegment(href);
    if SamePage(currentPage, linkPage) {
      active := true;
    } else {
      active := false;
    }
    if ServicesOfServicePage(currentPage, linkPage) {
      active := true;
    }
  }

  /** The `navLinks.forEach` loop: `active[i]` is the `active` class of the link whose
      `href` is `hrefs[i]`. */
  method MarkActiveLinks(pathname: string, hrefs: seq<string>, active: array<bool>)
    requires active.Length == |hrefs|
    modifies active
    ensures forall i :: 0 <= i < |hrefs| ==> active[i] == ShouldBeActive(CurrentPage(pathname), hrefs[i])
  {
    var currentPage := CurrentPage(pathname);
    var i := 0;
    while i < |hrefs|
      invariant 0 <= i <= |hrefs|
      invariant forall j :: 0 <= j < i ==> active[j] == LinkActive(currentPage, hrefs[j])
    {
      active[i] := MarkLink(currentPage, hrefs[i]);
      i := i + 1;
    }
    forall j | 0 <= j < |hrefs| ensures active[j] == ShouldBeActive(currentPage, hrefs[j]) {
      ActiveRule(currentPage, hrefs[j]);
    }
  }
}
