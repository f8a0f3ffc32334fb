/**
 * Flat menus and news expiry (snippets/models.py): saving a `MenuItem` that
 * links a page makes that page, and with `show_children` its live children,
 * appear in menus; `get_child_pages` lists the children a menu shows; and a
 * news item expires by default 3650 days after the day it is created.
 */
module Menus {
  import opened Wrappers
  import opened Calendar
  import opened Collections

  /** A Wagtail page: the flag menus read and the children below it in tree order. */
  class Page {
    const id: int
    const live: bool
    var showInMenus: bool
    const children: seq<Page>

    constructor (id: int, live: bool, showInMenus: bool, children: seq<Page>)
      ensures this.id == id && this.live == live && this.showInMenus == showInMenus && this.children == children
    {
      this.id := id;
      this.live := live;
      this.showInMenus := showInMenus;
      this.children := children;
    }
  }

  /** A flat menu. */
  datatype Menu = Menu(name: string)

  /** The live pages of `pages`, in order (`.live()`). */
  function LivePages(pages: seq<Page>): (r: seq<Page>)
    ensures forall i :: 0 <= i < |r| ==> r[i] in pages && r[i].live
    ensures forall i :: 0 <= i < |pages| && pages[i].live ==> pages[i] in r
    ensures SubsequenceOf(r, pages)
    decreases |pages|
  {
    if |pages| == 0 then []
    else
      var rest := LivePages(pages[1..]);
      if pages[0].live then
        assert SubsequenceOf([pages[0]] + rest, pages) by {
          assert ([pages[0]] + rest)[1..] == rest;
        }
        [pages[0]] + rest
      else
        SubsequenceSkip(rest, pages);
        rest
  }

  /** The live pages of `pages` that show in menus, in order (`.live().filter(show_in_menus=True)`). */
  function ShownLivePages(pages: seq<Page>): (r: seq<Page>)
    reads set p | p in pages
    ensures forall i :: 0 <= i < |r| ==> r[i] in pages && r[i].live && r[i].showInMenus
    ensures forall i :: 0 <= i < |pages| && pages[i].live && pages[i].showInMenus ==> pages[i] in r
    ensures SubsequenceOf(r, pages)
    decreases |pages|
  {
    if |pages| == 0 then []
    else
      var rest := ShownLivePages(pages[1..]);
      if pages[0].live && pages[0].showInMenus then
        assert SubsequenceOf([pages[0]] + rest, pages) by {
          assert ([pages[0]] + rest)[1..] == rest;
        }
        [pages[0]] + rest
      else
        SubsequenceSkip(rest, pages);
        rest
  }

  /** Once every live page shows in menus, the shown live pages are all the live pages. */
  lemma {:induction false} ShownLiveAll(pages: seq<Page>)
    requires forall i :: 0 <= i < |pages| && pages[i].live ==> pages[i].showInMenus
    ensures ShownLivePages(pages) == LivePages(pages)
    decreases |pages|
  {
    if |pages| > 0 {
      assert forall i :: 0 <= i < |pages| - 1 ==> pages[1..][i] == pages[i + 1];
      ShownLiveAll(pages[1..]);
    }
  }

  /** A `MenuItem` row; the fields `save` reads. */
  class MenuItem {
    const menu: Option<Menu>
    const name: Option<string>
    const page: Option<Page>
    const showChildren: bool

    constructor (menu: Option<Menu>, name: Option<string>, page: Option<Page>, showChildren: bool)
      ensures this.menu == menu && this.name == name && this.page == page && this.showChildren == showChildren
    {
      this.menu := menu;
      this.name := name;
      this.page := page;
      this.showChildren := showChildren;
    }

    /** The pages `save` may update: the linked page and its live children. */
    function Touched(): (r: set<Page>)
      ensures page.None? ==> r == {}
      ensures page.Some? ==> page.value in r
      ensures page.Some? ==> forall c :: c in r ==> c == page.value || c in page.value.children
    {
      if page.None? then {} else {page.value} + set c | c in page.value.children && c.live
    }

    /**
     * `MenuItem.save`: the linked page is set to show in menus and, when
     * `show_children` is set, so is every live child; non-live children and
     * every other page keep their flag, and without a page nothing changes.
     */
    method Save()
      modifies Touched()
      ensures page.Some? ==> page.value.showInMenus
      ensures page.Some? ==> forall c :: c in page.value.children ==>
        c.showInMenus == (old(c.showInMenus) || c == page.value || (showChildren && c.live))
      ensures page.Some? && showChildren ==> GetChildPages() == LivePages(page.value.children)
    {
      if page.Some? {
        var p := page.value;
        p.showInMenus := true;
        if showChildren {
          forall c | c in p.children && c.live {
            c.showInMenus := true;
          }
          ShownLiveAll(p.children);
        }
      }
    }

    /**
     * `MenuItem.get_child_pages`: nothing unless both `show_children` and a
     * page are set; otherwise the page's live children that show in menus.
     */
    function GetChildPages(): (r: seq<Page>)
      reads if page.Some? then set c | c in page.value.children else {}
      ensures !(showChildren && page.Some?) ==> r == []
      ensures showChildren && page.Some? ==>
        forall i :: 0 <= i < |r| ==> r[i] in page.value.children && r[i].live && r[i].showInMenus
      ensures showChildren && page.Some? ==>
        forall i :: 0 <= i < |page.value.children| && page.value.children[i].live && page.value.children[i].showInMenus ==>
          page.value.children[i] in r
    {
      if showChildren && page.Some? then ShownLivePages(page.value.children) else []
    }

    /** `MenuItem.__str__`: "menu: name" (a missing name reads "None"), or a fixed message without a menu. */
    function Str(): (s: string)
      ensures menu.None? ==> s == "Menu item not associated with a menu"
      ensures menu.Some? && name.Some? ==> s == menu.value.name + ": " + name.value
      ensures menu.Some? && name.None? ==> s == menu.value.name + ": None"
    {
      if menu.Some? then menu.value.name + ": " + NameText(name)
      else "Menu item not associated with a menu"
    }
  }

  /** Python's `f"{x}"` of an optional text. */
  function NameText(name: Option<string>): (s: string)
    ensures name.Some? ==> s == name.value
    ensures name.None? ==> s == "None"
  {
    if name.Some? then name.value else "None"
  }

  /** Saving twice leaves the pages as saving once does: the flags only go up. */
  method SaveTwice(item: MenuItem)
    modifies item.Touched()
    ensures item.page.Some? ==> forall c :: c in item.page.value.children ==>
      c.showInMenus == (old(c.showInMenus) || c == item.page.value || (item.showChildren && c.live))
  {
    item.Save();
    item.Save();
  }

  /**
   * `default_expiry_date`: `today` plus 10 * 365 days, at midnight (the
   * time of day is always midnight, so only the day is modelled).
   */
  function DefaultExpiryDate(today: Day): (r: Day)
    ensures Ordinal(r) == Ordinal(today) + 3650
    ensures Before(today, r)
  {
    var r := AddDays(today, 10 * 365);
    OrdinalOrder(today, r);
    r
  }

  /** 3650 days are not ten calendar years: from 1 January 2024 they end on 29 December 2033. */
  lemma ExpiryIsNotTenYears()
    ensures DefaultExpiryDate(Date(2024, 1, 1)) == Date(2033, 12, 29)
  {
    var start: Day := Date(2024, 1, 1);
    var target: Day := Date(2033, 12, 29);
    var r := DefaultExpiryDate(start);
    StartOrdinal();
    TargetOrdinal();
    OrdinalOrder(r, target);
  }

  /** The day number of 1 January 2024. */
  lemma StartOrdinal()
    ensures Ordinal(Date(2024, 1, 1)) == 738886
  {
    DaysBeforeYearClosedForm(2024);
  }

  /** The day number of 29 December 2033. */
  lemma TargetOrdinal()
    ensures Ordinal(Date(2033, 12, 29)) == 742536
  {
    DaysBeforeYearClosedForm(2033);
  }
}
