/**
 * Two page blocks of blocks.py: `SiteMapBlock` (the home page's sections in
 * two columns) and `NewsBlock` (the current news items in display order).
 */
module PageBlocks {
  import opened Wrappers
  import opened Collections
  import opened Sorting

  // ---------------------------------------------------------------------------
  // Site map.

  /** A child page of the home page, with the flags the site map reads. */
  datatype SitePage = SitePage(id: int, live: bool, public: bool, excludeFromSitemap: bool)

  /** The part of the parent context the block reads: the page being rendered, if any. */
  datatype ParentContext = ParentContext(page: Option<SitePage>)

  /** The block's additions to the context: none, or the two columns. */
  datatype SiteMapContext = NoSections | Sections(left: seq<SitePage>, right: seq<SitePage>)

  predicate InSiteMap(p: SitePage, current: SitePage) {
    p.live && p.public && !p.excludeFromSitemap && p.id != current.id
  }

  /** The sections: live, public, not excluded and not the current page, in tree order. */
  function SiteMapSections(children: seq<SitePage>, current: SitePage): (r: seq<SitePage>)
    ensures forall p :: p in r <==> p in children && InSiteMap(p, current)
    ensures SubsequenceOf(r, children)
  {
    var r := Filter(children, p => InSiteMap(p, current));
    assert forall p :: p in r <==> p in children && InSiteMap(p, current) by {
      forall p ensures p in r <==> p in children && InSiteMap(p, current) {
        FilterMember(children, p => InSiteMap(p, current), p);
      }
    }
    r
  }

  /** `sections[:mid]` and `sections[mid:]` with `mid = len(sections) // 2`. */
  function HalfSplit(sections: seq<SitePage>): (r: (seq<SitePage>, seq<SitePage>))
    ensures r.0 + r.1 == sections
    ensures |r.0| <= |r.1| <= |r.0| + 1
  {
    var mid := |sections| / 2;
    assert sections[..mid] + sections[mid..] == sections;
    (sections[..mid], sections[mid..])
  }

  /**
   * `SiteMapBlock.get_context`: without a parent context or a page in it,
   * nothing is added; otherwise the sections, split into a left column and
   * a right column at most one longer.
   */
  function SiteMapGetContext(parent: Option<ParentContext>, children: seq<SitePage>): (r: SiteMapContext)
    ensures parent.None? || parent.value.page.None? ==> r == NoSections
    ensures parent.Some? && parent.value.page.Some? ==>
      r.Sections? && r.left + r.right == SiteMapSections(children, parent.value.page.value)
    ensures r.Sections? ==> |r.left| <= |r.right| <= |r.left| + 1
  {
    if parent.None? then NoSections
    else if parent.value.page.None? then NoSections
    else
      var split := HalfSplit(SiteMapSections(children, parent.value.page.value));
      Sections(split.0, split.1)
  }

  /** The current page never appears in either column. */
  lemma CurrentPageNotListed(parent: Option<ParentContext>, children: seq<SitePage>)
    requires parent.Some? && parent.value.page.Some?
    ensures var r := SiteMapGetContext(parent, children);
      parent.value.page.value !in r.left && parent.value.page.value !in r.right
  {
  }

  // ---------------------------------------------------------------------------
  // News.

  /** A `NewsItem` row; times are instants on one clock. */
  datatype NewsItem = NewsItem(id: int, category: int, archive: bool, expiry: Option<int>, sortOrder: nat, publishedAt: int)

  /** Not archived, and either without an expiry or expiring after `now`. */
  predicate Current(item: NewsItem, now: int) {
    !item.archive && (item.expiry.None? || item.expiry.value > now)
  }

  /** `order_by("sort_order", "-published_at")`: lower sort order first, then the newest first. */
  predicate NewsOrder(a: NewsItem, b: NewsItem) {
    a.sortOrder < b.sortOrder || (a.sortOrder == b.sortOrder && a.publishedAt >= b.publishedAt)
  }

  lemma NewsOrderIsPreorder()
    ensures TotalPreorder(NewsOrder)
  {
  }

  /** The items `NewsBlock` lists, in any order. */
  function ShownNews(items: seq<NewsItem>, now: int, category: Option<int>): (r: seq<NewsItem>)
    ensures forall x :: x in r <==> x in items && Current(x, now) && (category.Some? ==> x.category == category.value)
  {
    var current := Filter(items, x => Current(x, now));
    var r := if category.Some? then Filter(current, (x: NewsItem) => x.category == category.value) else current;
    assert forall x :: x in r <==> x in items && Current(x, now) && (category.Some? ==> x.category == category.value) by {
      forall x ensures x in r <==> x in items && Current(x, now) && (category.Some? ==> x.category == category.value) {
        FilterMember(items, x => Current(x, now), x);
        if category.Some? {
          FilterMember(current, (x: NewsItem) => x.category == category.value, x);
        }
      }
    }
    r
  }

  /**
   * `NewsBlock.get_context`: the current items (of the chosen category, when
   * one is chosen), every one of them, in news order.
   */
  function NewsItems(items: seq<NewsItem>, now: int, category: Option<int>): (r: seq<NewsItem>)
    ensures multiset(r) == multiset(ShownNews(items, now, category))
    ensures SortedBy(r, NewsOrder)
  {
    NewsOrderIsPreorder();
    SortSorted(ShownNews(items, now, category), NewsOrder);
    Sort(ShownNews(items, now, category), NewsOrder)
  }

  /** Every listed item is current and of the chosen category; every such item is listed. */
  lemma NewsItemsMembers(items: seq<NewsItem>, now: int, category: Option<int>, x: NewsItem)
    ensures x in NewsItems(items, now, category) <==>
      x in items && Current(x, now) && (category.Some? ==> x.category == category.value)
  {
    var r := NewsItems(items, now, category);
    assert x in r <==> x in multiset(r);
    assert x in ShownNews(items, now, category) <==> x in multiset(ShownNews(items, now, category));
  }
}
