/**
 * `paginate` (pagination/utils.py) over Django's `Paginator` with no orphans
 * and an allowed empty first page: the `page` query value picks a slice of
 * at most `perPage` items; a value that is not an integer gives page 1, and
 * a number outside 1..num_pages gives the last page.
 */
module Pagination {

  /** The `page` query value: missing, not an integer, or a number. */
  datatype PageParam = Absent | NotAnInteger | Number(n: int)

  /** `Paginator.num_pages`: at least one page, even for an empty list. */
  function NumPages(count: nat, perPage: nat): (n: nat)
    requires perPage >= 1
    ensures n >= 1
    ensures (n - 1) * perPage < count || (count == 0 && n == 1)
    ensures count <= n * perPage
  {
    var hits := if count == 0 then 1 else count;
    var n := (hits + perPage - 1) / perPage;
    DivBounds(hits, perPage);
    n
  }

  lemma DivBounds(hits: nat, perPage: nat)
    requires hits >= 1 && perPage >= 1
    ensures var n := (hits + perPage - 1) / perPage; n >= 1 && (n - 1) * perPage < hits <= n * perPage
  {
    var n := (hits + perPage - 1) / perPage;
    var m := (hits + perPage - 1) % perPage;
    assert hits + perPage - 1 == n * perPage + m;
    assert (n - 1) * perPage == n * perPage - perPage;
  }

  /** The page `paginate` serves for a request. */
  function PageNumber(p: PageParam, numPages: nat): (k: nat)
    requires numPages >= 1
    ensures 1 <= k <= numPages
    ensures p.Number? && 1 <= p.n <= numPages ==> k == p.n
    ensures !p.Number? ==> k == 1
  {
    match p
    case Absent => 1
    case NotAnInteger => 1
    case Number(n) => if 1 <= n <= numPages then n else numPages
  }

  /** The items of page `k` (`Paginator.page(k).object_list`). */
  function PageSlice<T>(items: seq<T>, k: nat, perPage: nat): (r: seq<T>)
    requires perPage >= 1 && 1 <= k <= NumPages(|items|, perPage)
    ensures |r| <= perPage
  {
    var bottom := (k - 1) * perPage;
    var top := if bottom + perPage >= |items| then |items| else bottom + perPage;
    MulMono(k - 1, NumPages(|items|, perPage) - 1, perPage);
    items[bottom..top]
  }

  lemma MulMono(a: nat, b: nat, c: nat)
    requires a <= b
    ensures a * c <= b * c
  {
  }

  /**
   * `paginate(request, items, perPage)`. Any request is answered with a page;
   * a non-empty list never yields an empty page.
   */
  function Paginate<T>(items: seq<T>, p: PageParam, perPage: nat): (r: seq<T>)
    requires perPage >= 1
    ensures |r| <= perPage
    ensures |items| > 0 ==> |r| > 0
    ensures forall i :: 0 <= i < |r| ==> r[i] in items
  {
    var k := PageNumber(p, NumPages(|items|, perPage));
    MulMono(k - 1, NumPages(|items|, perPage) - 1, perPage);
    PageSlice(items, k, perPage)
  }

  /** Every out-of-range page number is answered with the last page. */
  lemma OutOfRangeGivesLastPage<T>(items: seq<T>, n: int, perPage: nat)
    requires perPage >= 1 && (n < 1 || n > NumPages(|items|, perPage))
    ensures Paginate(items, Number(n), perPage) == PageSlice(items, NumPages(|items|, perPage), perPage)
  {
  }

  /** Pages 1 to k, one after the other. */
  function FirstPages<T>(items: seq<T>, k: nat, perPage: nat): seq<T>
    requires perPage >= 1 && k <= NumPages(|items|, perPage)
  {
    if k == 0 then [] else FirstPages(items, k - 1, perPage) + PageSlice(items, k, perPage)
  }

  /** The first k pages are the first k * perPage items (or all of them). */
  lemma {:induction false} FirstPagesPrefix<T>(items: seq<T>, k: nat, perPage: nat)
    requires perPage >= 1 && k <= NumPages(|items|, perPage)
    ensures FirstPages(items, k, perPage) == items[..if k * perPage <= |items| then k * perPage else |items|]
  {
    if k > 0 {
      var bottom := (k - 1) * perPage;
      var end := if k * perPage <= |items| then k * perPage else |items|;
      PageSliceAt(items, k, perPage);
      FirstPagesPrefix(items, k - 1, perPage);
      PrefixThenSlice(items, bottom, end);
    }
  }

  /** A prefix followed by the slice after it is the longer prefix. */
  lemma PrefixThenSlice<T>(items: seq<T>, bottom: nat, end: nat)
    requires bottom <= end <= |items|
    ensures items[..bottom] + items[bottom..end] == items[..end]
  {
  }

  /** Page k (1-based) is the slice from (k - 1) * perPage to k * perPage, cut at the end of the list. */
  lemma PageSliceAt<T>(items: seq<T>, k: nat, perPage: nat)
    requires perPage >= 1 && 1 <= k <= NumPages(|items|, perPage)
    ensures k * perPage == (k - 1) * perPage + perPage
    ensures var end := if k * perPage <= |items| then k * perPage else |items|;
      (k - 1) * perPage <= end <= |items| && PageSlice(items, k, perPage) == items[(k - 1) * perPage..end]
  {
    MulMono(k - 1, NumPages(|items|, perPage) - 1, perPage);
    assert k * perPage == (k - 1) * perPage + perPage;
  }

  /** The pages, read in order, are the whole list: no item is lost or repeated. */
  lemma PagesCoverItems<T>(items: seq<T>, perPage: nat)
    requires perPage >= 1
    ensures FirstPages(items, NumPages(|items|, perPage), perPage) == items
  {
    FirstPagesPrefix(items, NumPages(|items|, perPage), perPage);
  }
}
