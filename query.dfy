/** What the client shows from the stored listings: the public browse view
    (filterListings, renderFilteredListings, renderPagination, goToPage), the
    admin view (loadAdminListings) and the statistics (updateStats). */
module Query {
  import opened Common
  import opened Strings
  import opened Listings

  const ITEMS_PER_PAGE := 9

  /** The browse controls: search text and the type, condition and location
      selections ("" when not chosen). */
  datatype BrowseFilters = BrowseFilters(search: string, listingType: string, condition: string, location: string)

  const NO_FILTERS := BrowseFilters("", "", "", "")

  predicate IsPublished(l: Listing) {
    l.status == Published
  }

  /** The search term (already lower-cased) occurs in the lower-cased title,
      author or subject, description, or one of the tags; an empty term
      matches everything. */
  predicate MatchesSearch(l: Listing, term: string) {
    || term == ""
    || Contains(Lower(l.title), term)
    || Contains(Lower(l.authorSubject), term)
    || Contains(Lower(l.description), term)
    || exists i :: 0 <= i < |l.tags| && Contains(Lower(l.tags[i]), term)
  }

  /** A listing passes the browse controls: the search, and each chosen
      selection by exact equality. */
  predicate MatchesFilters(l: Listing, f: BrowseFilters) {
    && MatchesSearch(l, Lower(f.search))
    && (f.listingType == "" || l.listingType == f.listingType)
    && (f.condition == "" || l.condition == f.condition)
    && (f.location == "" || l.location == f.location)
  }

  function Shown(f: BrowseFilters): Listing -> bool {
    (l: Listing) => IsPublished(l) && MatchesFilters(l, f)
  }

  /** filterListings: the published listings that pass the controls, in
      stored order; nothing else is shown and nothing that passes is missed. */
  function FilterListings(ls: seq<Listing>, f: BrowseFilters): (r: seq<Listing>)
    ensures IsSubsequence(r, ls)
    ensures forall i :: 0 <= i < |r| ==> IsPublished(r[i]) && MatchesFilters(r[i], f)
    ensures forall i :: 0 <= i < |ls| && IsPublished(ls[i]) && MatchesFilters(ls[i], f) ==> ls[i] in r
    ensures |r| == |set i | 0 <= i < |ls| && IsPublished(ls[i]) && MatchesFilters(ls[i], f)|
  {
    FilterIsSubsequence(ls, Shown(f));
    FilterCount(ls, Shown(f));
    assert Where(ls, Shown(f)) == set i | 0 <= i < |ls| && IsPublished(ls[i]) && MatchesFilters(ls[i], f);
    Filter(ls, Shown(f))
  }

  /** With no search and no selections, browsing shows every published
      listing. */
  lemma NoFiltersShowsAllPublished(ls: seq<Listing>)
    ensures FilterListings(ls, NO_FILTERS) == Filter(ls, IsPublished)
  {
    FilterAgrees(ls, Shown(NO_FILTERS), IsPublished);
  }

  /** Search ignores the case of the search text. */
  lemma SearchIgnoresCase(ls: seq<Listing>, f: BrowseFilters, search: string)
    requires Lower(search) == Lower(f.search)
    ensures FilterListings(ls, f.(search := search)) == FilterListings(ls, f)
  {
    FilterAgrees(ls, Shown(f.(search := search)), Shown(f));
  }

  /** Choosing a selection only narrows the results. */
  lemma {:induction false} SelectionNarrows(ls: seq<Listing>, f: BrowseFilters, t: string)
    requires f.listingType == ""
    ensures IsSubsequence(FilterListings(ls, f.(listingType := t)), FilterListings(ls, f))
    ensures |FilterListings(ls, f.(listingType := t))| <= |FilterListings(ls, f)|
  {
    var g := f.(listingType := t);
    var narrow := FilterListings(ls, g);
    assert forall i :: 0 <= i < |ls| ==> Shown(g)(ls[i]) == (Shown(f)(ls[i]) && (t == "" || ls[i].listingType == t));
    FilterThenFilter(ls, Shown(f), Shown(g), (l: Listing) => t == "" || l.listingType == t);
    FilterIsSubsequence(FilterListings(ls, f), (l: Listing) => t == "" || l.listingType == t);
  }

  lemma {:induction false} FilterThenFilter(s: seq<Listing>, p: Listing -> bool, pq: Listing -> bool, q: Listing -> bool)
    requires forall i :: 0 <= i < |s| ==> pq(s[i]) == (p(s[i]) && q(s[i]))
    ensures Filter(s, pq) == Filter(Filter(s, p), q)
  {
    if s != [] {
      FilterThenFilter(s[1..], p, pq, q);
      if p(s[0]) {
        assert Filter(s, p) == [s[0]] + Filter(s[1..], p);
        assert (Filter(s, p))[1..] == Filter(s[1..], p);
      }
    }
  }

  /** loadAdminListings: nothing for a visitor who is not an admin; otherwise
      every listing, or those whose status is the chosen one, in stored
      order. */
  function AdminListings(ls: seq<Listing>, isAdmin: bool, statusFilter: string): (r: Option<seq<Listing>>)
    ensures r.None? <==> !isAdmin
    ensures r.Some? && statusFilter == "" ==> r.value == ls
    ensures r.Some? ==> IsSubsequence(r.value, ls)
    ensures r.Some? ==> forall i :: 0 <= i < |r.value| ==> statusFilter == "" || StatusName(r.value[i].status) == statusFilter
    ensures r.Some? ==> forall i :: 0 <= i < |ls| && (statusFilter == "" || StatusName(ls[i].status) == statusFilter) ==> ls[i] in r.value
    ensures r.Some? ==> |r.value| == |set i | 0 <= i < |ls| && (statusFilter == "" || StatusName(ls[i].status) == statusFilter)|
  {
    FilterCount(ls, HasStatusName(statusFilter));
    assert Where(ls, HasStatusName(statusFilter)) == set i | 0 <= i < |ls| && (statusFilter == "" || StatusName(ls[i].status) == statusFilter);
    if !isAdmin then None
    else if statusFilter == "" then
      FilterKeepsAll(ls, HasStatusName(statusFilter));
      FilterIsSubsequence(ls, HasStatusName(statusFilter));
      Some(ls)
    else
      FilterIsSubsequence(ls, HasStatusName(statusFilter));
      Some(Filter(ls, HasStatusName(statusFilter)))
  }

  function HasStatusName(name: string): Listing -> bool {
    (l: Listing) => name == "" || StatusName(l.status) == name
  }

  /** An admin filtering by PUBLISHED sees exactly what a visitor sees with no
      filters. */
  lemma AdminPublishedIsPublicView(ls: seq<Listing>)
    ensures AdminListings(ls, true, "PUBLISHED") == Some(FilterListings(ls, NO_FILTERS))
  {
    FilterAgrees(ls, HasStatusName("PUBLISHED"), Shown(NO_FILTERS));
  }

  /** Math.ceil(totalItems / size). */
  function TotalPages(totalItems: nat, size: nat): (t: nat)
    requires size > 0
    ensures t * size >= totalItems
    ensures t > 0 ==> (t - 1) * size < totalItems
    ensures t == 0 <==> totalItems == 0
  {
    var t := (totalItems + size - 1) / size;
    assert t * size + (totalItems + size - 1) % size == totalItems + size - 1;
    t
  }

  /** The elements from position start on, at most size of them:
      slice(start, start + size). */
  function Window<T>(items: seq<T>, start: nat, size: nat): (r: seq<T>)
    ensures |r| <= size
    ensures start >= |items| ==> r == []
    ensures start < |items| ==> |r| == Min(size, |items| - start)
    ensures forall k :: 0 <= k < |r| ==> start + k < |items| && r[k] == items[start + k]
  {
    if start >= |items| then [] else items[start..Min(start + size, |items|)]
  }

  /** The listings on a page: slice((page - 1) * size, page * size). */
  function PageOf<T>(items: seq<T>, page: nat, size: nat): (r: seq<T>)
    requires page >= 1 && size > 0
    ensures |r| <= size
    ensures (page - 1) * size >= |items| ==> r == []
    ensures (page - 1) * size < |items| ==> |r| == Min(size, |items| - (page - 1) * size)
    ensures forall k :: 0 <= k < |r| ==> (page - 1) * size + k < |items| && r[k] == items[(page - 1) * size + k]
  {
    Window(items, (page - 1) * size, size)
  }

  function Min(a: int, b: int): int {
    if a <= b then a else b
  }

  /** Item i is the (i mod size)-th on page i div size + 1. */
  lemma ItemOnItsPage<T>(items: seq<T>, size: nat, i: nat)
    requires size > 0 && i < |items|
    ensures i % size < |PageOf(items, i / size + 1, size)|
    ensures PageOf(items, i / size + 1, size)[i % size] == items[i]
  {
    var p := i / size + 1;
    assert (p - 1) * size + i % size == i;
    assert (p - 1) * size <= i;
  }

  /** Pages 1 to TotalPages hold something and the page after them nothing. */
  lemma PagesCover<T>(items: seq<T>, size: nat, page: nat)
    requires size > 0 && page >= 1
    ensures page <= TotalPages(|items|, size) ==> PageOf(items, page, size) != []
    ensures page > TotalPages(|items|, size) ==> PageOf(items, page, size) == []
  {
    var t := TotalPages(|items|, size);
    if page <= t {
      assert (page - 1) * size <= (t - 1) * size;
    } else {
      assert (page - 1) * size >= t * size;
    }
  }

  /** A button of the pager, with the page it goes to. */
  datatype PagerButton = PrevButton(target: int) | PageButton(target: int, active: bool) | NextButton(target: int)

  function PageButtons(count: nat, current: int): (r: seq<PagerButton>)
    ensures |r| == count
    ensures forall k :: 0 <= k < count ==> r[k] == PageButton(k + 1, k + 1 == current)
  {
    seq(count, k => PageButton(k + 1, k + 1 == current))
  }

  /** The pager for a number of pages: nothing for a single page; otherwise a
      Previous button unless on the first page, a button per page marked
      active on the current page, and a Next button unless on the last. */
  function Pager(totalPages: nat, current: int): (r: seq<PagerButton>)
    ensures totalPages <= 1 <==> r == []
    ensures totalPages > 1 ==> (r[0].PrevButton? <==> current > 1)
    ensures totalPages > 1 ==> (r[|r| - 1].NextButton? <==> current < totalPages)
    ensures totalPages > 1 && current > 1 ==> r[0] == PrevButton(current - 1)
    ensures totalPages > 1 && current < totalPages ==> r[|r| - 1] == NextButton(current + 1)
    ensures totalPages > 1 ==> |r| == totalPages + (if current > 1 then 1 else 0) + (if current < totalPages then 1 else 0)
    ensures forall k :: 0 <= k < |r| && r[k].PageButton? ==> (r[k].active <==> r[k].target == current)
    ensures 1 <= current <= totalPages ==> forall k :: 0 <= k < |r| ==> 1 <= r[k].target <= totalPages
  {
    if totalPages <= 1 then []
    else
      (if current > 1 then [PrevButton(current - 1)] else [])
      + PageButtons(totalPages, current)
      + (if current < totalPages then [NextButton(current + 1)] else [])
  }

  predicate IsActive(r: seq<PagerButton>, k: int) {
    0 <= k < |r| && r[k].PageButton? && r[k].active
  }

  /** Exactly one page button is active when the current page is one of the
      pages, and none otherwise. */
  lemma PagerOneActive(totalPages: nat, current: int)
    ensures (exists k :: IsActive(Pager(totalPages, current), k)) <==> 1 <= current <= totalPages && totalPages > 1
    ensures forall k, k' :: IsActive(Pager(totalPages, current), k) && IsActive(Pager(totalPages, current), k') ==> k == k'
  {
    var r := Pager(totalPages, current);
    if 1 <= current <= totalPages && totalPages > 1 {
      var off := if current > 1 then 1 else 0;
      assert r[off + current - 1] == PageButton(current, true);
      assert IsActive(r, off + current - 1);
    }
  }

  /** The page buttons are numbered 1 to totalPages, in order. */
  lemma PagerNumbersPages(totalPages: nat, current: int)
    requires totalPages > 1
    ensures var off := if current > 1 then 1 else 0;
      Pager(totalPages, current)[off..off + totalPages] == PageButtons(totalPages, current)
  {
  }

  /** The browse view: the empty state, or the current page's listings with
      the pager. */
  datatype BrowseView = NoListingsFound | Results(cards: seq<Listing>, pager: seq<PagerButton>)

  /** The page the browse view is on (currentPageNumber). */
  class Browser {
    var currentPage: nat

    constructor()
      ensures currentPage == 1
    {
      currentPage := 1;
    }

    /** goToPage: the pager's buttons only lead to pages from 1 on. */
    method GoToPage(page: nat)
      requires page >= 1
      modifies this
      ensures currentPage == page
    {
      currentPage := page;
    }

    /** renderPagination: builds the buttons one by one. */
    method RenderPagination(totalItems: nat) returns (buttons: seq<PagerButton>)
      ensures buttons == Pager(TotalPages(totalItems, ITEMS_PER_PAGE), currentPage)
    {
      var totalPages := (totalItems + ITEMS_PER_PAGE - 1) / ITEMS_PER_PAGE;
      assert totalPages == TotalPages(totalItems, ITEMS_PER_PAGE);
      if totalPages <= 1 {
        return [];
      }
      buttons := [];
      if currentPage > 1 {
        buttons := buttons + [PrevButton(currentPage - 1)];
      }
      var prefix := buttons;
      var i := 1;
      while i <= totalPages
        invariant 1 <= i <= totalPages + 1
        invariant buttons == prefix + PageButtons(i - 1, currentPage)
      {
        buttons := buttons + [PageButton(i, i == currentPage)];
        i := i + 1;
      }
      if currentPage < totalPages {
        buttons := buttons + [NextButton(currentPage + 1)];
      }
    }

    /** renderFilteredListings: the empty state when nothing matches (and the
        pager is not redrawn); otherwise the current page's slice and the
        pager. */
    method RenderFilteredListings(listings: seq<Listing>) returns (view: BrowseView)
      requires currentPage >= 1
      ensures listings == [] <==> view == NoListingsFound
      ensures view.Results? ==> view.cards == PageOf(listings, currentPage, ITEMS_PER_PAGE)
      ensures view.Results? ==> view.pager == Pager(TotalPages(|listings|, ITEMS_PER_PAGE), currentPage)
    {
      if |listings| == 0 {
        return NoListingsFound;
      }
      var startIndex := (currentPage - 1) * ITEMS_PER_PAGE;
      var cards := Window(listings, startIndex, ITEMS_PER_PAGE);
      var pager := RenderPagination(|listings|);
      view := Results(cards, pager);
    }
  }

  /** The figures of updateStats. */
  datatype Stats = Stats(
    published: nat, books: nat, notes: nat, locations: nat,
    total: nat, pending: nat, reported: nat)

  function Locations(ls: seq<Listing>): (r: seq<string>)
    ensures |r| == |ls| && forall i :: 0 <= i < |ls| ==> r[i] == ls[i].location
  {
    seq(|ls|, i requires 0 <= i < |ls| => ls[i].location)
  }

  function IsType(t: string): Listing -> bool {
    (l: Listing) => l.listingType == t
  }

  function HasStatus(s: ClientStatus): Listing -> bool {
    (l: Listing) => l.status == s
  }

  function PublishedOfType(t: string): Listing -> bool {
    (l: Listing) => l.status == Published && l.listingType == t
  }

  /** updateStats: the number of published listings (what the browse view
      shows with no filters), of published books and of published notes, of
      distinct locations among the published listings, and the admin counts
      of all, pending and reported listings. Books and notes do not exceed
      the published listings, nor do the distinct locations, and the three
      admin counts add up to all listings. */
  function UpdateStats(ls: seq<Listing>): (s: Stats)
    ensures s.total == |ls|
    ensures s.published == |FilterListings(ls, NO_FILTERS)|
    ensures s.published == |set i | 0 <= i < |ls| && ls[i].status == Published|
    ensures s.books == |set i | 0 <= i < |ls| && ls[i].status == Published && ls[i].listingType == "BOOK"|
    ensures s.notes == |set i | 0 <= i < |ls| && ls[i].status == Published && ls[i].listingType == "NOTES"|
    ensures s.locations == |set l | l in ls && l.status == Published :: l.location|
    ensures s.pending == |set i | 0 <= i < |ls| && ls[i].status == Pending|
    ensures s.reported == |set i | 0 <= i < |ls| && ls[i].status == Reported|
    ensures s.books + s.notes <= s.published
    ensures s.locations <= s.published
    ensures s.published + s.pending + s.reported == s.total
  {
    var published := Filter(ls, IsPublished);
    var books := Filter(published, IsType("BOOK"));
    var notes := Filter(published, IsType("NOTES"));
    var locations := set x | x in Locations(published);
    var pending := Filter(ls, HasStatus(Pending));
    var reported := Filter(ls, HasStatus(Reported));
    NoFiltersShowsAllPublished(ls);
    FilterDisjointCount(published, IsType("BOOK"), IsType("NOTES"));
    DistinctBound(Locations(published));
    FilterPartitionCount(ls, IsPublished, (l: Listing) => l.status != Published);
    FilterThreeWay(ls);
    StatusCount(ls, Published);
    StatusCount(ls, Pending);
    StatusCount(ls, Reported);
    PublishedTypeCount(ls, "BOOK");
    PublishedTypeCount(ls, "NOTES");
    PublishedLocations(ls);
    Stats(|published|, |books|, |notes|, |locations|, |ls|, |pending|, |reported|)
  }

  /** Filtering by a status keeps one listing per position with that status. */
  lemma StatusCount(ls: seq<Listing>, st: ClientStatus)
    ensures |Filter(ls, HasStatus(st))| == |set i | 0 <= i < |ls| && ls[i].status == st|
    ensures st == Published ==> |Filter(ls, IsPublished)| == |set i | 0 <= i < |ls| && ls[i].status == st|
  {
    FilterCount(ls, HasStatus(st));
    assert Where(ls, HasStatus(st)) == set i | 0 <= i < |ls| && ls[i].status == st;
    if st == Published {
      FilterAgrees(ls, HasStatus(st), IsPublished);
    }
  }

  /** Counting a type among the published listings counts the positions that
      are published and of that type. */
  lemma PublishedTypeCount(ls: seq<Listing>, t: string)
    ensures |Filter(Filter(ls, IsPublished), IsType(t))| ==
      |set i | 0 <= i < |ls| && ls[i].status == Published && ls[i].listingType == t|
  {
    FilterThenFilter(ls, IsPublished, PublishedOfType(t), IsType(t));
    FilterCount(ls, PublishedOfType(t));
    assert Where(ls, PublishedOfType(t)) == set i | 0 <= i < |ls| && ls[i].status == Published && ls[i].listingType == t;
  }

  /** The distinct locations of the published listings, as the client
      collects them, are the locations of the listings that are published. */
  lemma PublishedLocations(ls: seq<Listing>)
    ensures (set x | x in Locations(Filter(ls, IsPublished))) ==
      (set l | l in ls && l.status == Published :: l.location)
  {
    var names := Locations(Filter(ls, IsPublished));
    forall x | x in names ensures exists l :: l in ls && l.status == Published && l.location == x {
      LocationIsPublished(ls, x);
    }
    forall l | l in ls && l.status == Published ensures l.location in names {
      PublishedLocationListed(ls, l);
    }
  }

  lemma LocationIsPublished(ls: seq<Listing>, x: string)
    requires x in Locations(Filter(ls, IsPublished))
    ensures exists l :: l in ls && l.status == Published && l.location == x
  {
    var published := Filter(ls, IsPublished);
    var names := Locations(published);
    var j :| 0 <= j < |names| && names[j] == x;
    var l := published[j];
    assert l in ls && IsPublished(l);
  }

  lemma PublishedLocationListed(ls: seq<Listing>, l: Listing)
    requires l in ls && l.status == Published
    ensures l.location in Locations(Filter(ls, IsPublished))
  {
    var published := Filter(ls, IsPublished);
    var i :| 0 <= i < |ls| && ls[i] == l;
    assert IsPublished(ls[i]);
    assert l in published;
    var j :| 0 <= j < |published| && published[j] == l;
    assert Locations(published)[j] == l.location;
  }

  lemma {:induction false} FilterThreeWay(ls: seq<Listing>)
    ensures |Filter(ls, IsPublished)| + |Filter(ls, HasStatus(Pending))| + |Filter(ls, HasStatus(Reported))| == |ls|
  {
    if ls != [] {
      FilterThreeWay(ls[1..]);
    }
  }
}
