/**
 * `PolygonsBlock.get_context` (maps/blocks.py): the chosen map polygons are
 * translated into the current locale, and every polygon item that has a
 * GeoJSON document becomes one map entry, with titles, descriptions and
 * links falling back from the item to its page or polygon.
 */
module PolygonsBlock {
  import opened Wrappers
  import opened Collections

  /** A stored document: its title may be empty. */
  datatype Document = Document(title: string, url: string)

  /** A linked Wagtail page. */
  datatype LinkedPage = LinkedPage(title: string, url: string)

  /** A `MapPolygonItem` row. */
  datatype PolygonItem = PolygonItem(
    document: Option<Document>,
    linkedPage: Option<LinkedPage>,
    description: Option<string>,
    linkUrl: Option<string>,
    colour: string)

  /** A `MapPolygon` row with its items in order. */
  datatype Polygon = Polygon(
    translationKey: int,
    locale: int,
    title: string,
    description: Option<string>,
    items: seq<PolygonItem>)

  /** The active locale. */
  datatype Locale = Locale(id: int, languageCode: string)

  /** One entry of `geojson_map_items`. */
  datatype MapItem = MapItem(title: string, description: Option<string>, geojsonUrl: string, link: string, colour: string)

  datatype PolygonsContext = PolygonsContext(items: seq<MapItem>, viewMore: string)

  /** Python's `a or b` on optional text: `a` unless it is missing or empty. */
  function OrElse(a: Option<string>, b: Option<string>): (r: Option<string>)
    ensures a.Some? && a.value != "" ==> r == a
    ensures a.None? || a.value == "" ==> r == b
  {
    if a.Some? && a.value != "" then a else b
  }

  /** The entry of an item that has a document. */
  function Entry(p: Polygon, item: PolygonItem): (m: MapItem)
    requires item.document.Some?
    ensures item.linkedPage.Some? ==> m.title == item.linkedPage.value.title
    ensures item.linkedPage.None? && item.document.value.title != "" ==> m.title == item.document.value.title
    ensures item.linkedPage.None? && item.document.value.title == "" ==> m.title == p.title
    ensures m.description == OrElse(item.description, p.description)
    ensures m.geojsonUrl == item.document.value.url && m.colour == item.colour
    ensures item.linkUrl.Some? && item.linkUrl.value != "" ==> m.link == item.linkUrl.value
    ensures (item.linkUrl.None? || item.linkUrl.value == "") ==>
      m.link == (if item.linkedPage.Some? then item.linkedPage.value.url else "")
  {
    var doc := item.document.value;
    var title :=
      if item.linkedPage.Some? then item.linkedPage.value.title
      else if doc.title != "" then doc.title
      else p.title;
    var link :=
      if item.linkUrl.Some? && item.linkUrl.value != "" then item.linkUrl.value
      else if item.linkedPage.Some? then item.linkedPage.value.url
      else "";
    MapItem(title, OrElse(item.description, p.description), doc.url, link, item.colour)
  }

  /** The entries of `items` of polygon `p`: one per item with a document, in order. */
  function ItemEntries(p: Polygon, items: seq<PolygonItem>): (r: seq<MapItem>)
    ensures |r| <= |items|
    decreases |items|
  {
    if |items| == 0 then []
    else
      var init := ItemEntries(p, items[..|items| - 1]);
      var item := items[|items| - 1];
      if item.document.Some? then init + [Entry(p, item)] else init
  }

  /** The entries of all polygons, polygon after polygon. */
  function MapItems(polygons: seq<Polygon>): seq<MapItem>
    decreases |polygons|
  {
    if |polygons| == 0 then []
    else MapItems(polygons[..|polygons| - 1]) + ItemEntries(polygons[|polygons| - 1], polygons[|polygons| - 1].items)
  }

  /** One more item: one more entry when it has a document. */
  lemma ItemEntriesStep(p: Polygon, items: seq<PolygonItem>, j: int)
    requires 0 <= j < |items|
    ensures ItemEntries(p, items[..j + 1]) ==
      ItemEntries(p, items[..j]) + (if items[j].document.Some? then [Entry(p, items[j])] else [])
  {
    PrefixStep(items, j);
  }

  /** One more polygon: its entries follow those before it. */
  lemma MapItemsStep(polygons: seq<Polygon>, i: int)
    requires 0 <= i < |polygons|
    ensures MapItems(polygons[..i + 1]) == MapItems(polygons[..i]) + ItemEntries(polygons[i], polygons[i].items)
  {
    PrefixStep(polygons, i);
  }

  predicate HasDocument(item: PolygonItem) {
    item.document.Some?
  }

  /**
   * The entries are the entries of the items that have a document, one per
   * item, in item order.
   */
  lemma {:induction false} ItemEntriesContents(p: Polygon, items: seq<PolygonItem>)
    ensures var documented := Filter(items, HasDocument);
      |ItemEntries(p, items)| == |documented| &&
      forall k :: 0 <= k < |documented| ==> ItemEntries(p, items)[k] == Entry(p, documented[k])
    decreases |items|
  {
    if |items| > 0 {
      var init := items[..|items| - 1];
      var last := items[|items| - 1];
      ItemEntriesContents(p, init);
      SplitLast(items);
      assert ItemEntries(p, items) == ItemEntries(p, init) + (if HasDocument(last) then [Entry(p, last)] else []);
      FilterAppend(init, [last], HasDocument);
      if HasDocument(last) {
        assert Filter([last], HasDocument) == [last];
      } else {
        assert Filter([last], HasDocument) == [];
      }
    }
  }

  /** Every entry comes from an item with a document, in item order. */
  lemma {:induction false} ItemEntriesFrom(p: Polygon, items: seq<PolygonItem>, k: int)
    requires 0 <= k < |ItemEntries(p, items)|
    ensures exists i :: 0 <= i < |items| && items[i].document.Some? && ItemEntries(p, items)[k] == Entry(p, items[i])
    decreases |items|
  {
    var init := items[..|items| - 1];
    var item := items[|items| - 1];
    if k < |ItemEntries(p, init)| {
      ItemEntriesFrom(p, init, k);
      var i :| 0 <= i < |init| && init[i].document.Some? && ItemEntries(p, init)[k] == Entry(p, init[i]);
      assert items[i] == init[i];
    } else {
      assert items[|items| - 1] == item;
    }
  }

  /** The selection without the empty choices. */
  function Chosen(selection: seq<Option<Polygon>>): (r: seq<Polygon>)
    ensures forall p :: p in r <==> Some(p) in selection
    decreases |selection|
  {
    if |selection| == 0 then []
    else
      var init := Chosen(selection[..|selection| - 1]);
      assert selection == selection[..|selection| - 1] + [selection[|selection| - 1]];
      match selection[|selection| - 1]
      case None => init
      case Some(p) => init + [p]
  }

  /**
   * The polygons of the current locale that share a translation key with a
   * chosen polygon (`translation_key__in`, `locale`), in table order.
   */
  function TranslatedPolygons(selection: Option<seq<Option<Polygon>>>, all: seq<Polygon>, active: Locale): (r: seq<Polygon>)
    ensures forall p :: p in r <==>
      p in all && p.locale == active.id && selection.Some? &&
      exists q :: q in Chosen(selection.value) && q.translationKey == p.translationKey
  {
    var chosen := if selection.Some? then Chosen(selection.value) else [];
    var keys := set q | q in chosen :: q.translationKey;
    var r := Filter(all, (p: Polygon) => p.translationKey in keys && p.locale == active.id);
    assert forall p :: p in r <==> p in all && p.translationKey in keys && p.locale == active.id by {
      forall p ensures p in r <==> p in all && p.translationKey in keys && p.locale == active.id {
        FilterMember(all, (p: Polygon) => p.translationKey in keys && p.locale == active.id, p);
      }
    }
    r
  }

  /** The "view more" label: Welsh exactly for the `cy` locale. */
  function ViewMore(active: Locale): (s: string)
    ensures s == "Gweld mwy" <==> active.languageCode == "cy"
    ensures s == "View more" <==> active.languageCode != "cy"
  {
    if active.languageCode == "cy" then "Gweld mwy" else "View more"
  }

  /**
   * `PolygonsBlock.get_context`: the nested loops over the translated
   * polygons and their items append one entry per item with a document.
   */
  method GetContext(selection: Option<seq<Option<Polygon>>>, all: seq<Polygon>, active: Locale)
    returns (ctx: PolygonsContext)
    ensures ctx.items == MapItems(TranslatedPolygons(selection, all, active))
    ensures ctx.viewMore == ViewMore(active)
  {
    var entries := CollectEntries(TranslatedPolygons(selection, all, active));
    var viewMore := if active.languageCode == "cy" then "Gweld mwy" else "View more";
    ctx := PolygonsContext(entries, viewMore);
  }

  /** The nested loops of `get_context`: one entry per item with a document, polygon after polygon. */
  method CollectEntries(polygons: seq<Polygon>) returns (entries: seq<MapItem>)
    ensures entries == MapItems(polygons)
  {
    entries := [];
    var i := 0;
    while i < |polygons|
      invariant 0 <= i <= |polygons|
      invariant entries == MapItems(polygons[..i])
    {
      var polygon := polygons[i];
      var j := 0;
      var start := entries;
      while j < |polygon.items|
        invariant 0 <= j <= |polygon.items|
        invariant entries == start + ItemEntries(polygon, polygon.items[..j])
      {
        var item := polygon.items[j];
        ItemEntriesStep(polygon, polygon.items, j);
        if item.document.Some? {
          entries := entries + [Entry(polygon, item)];
        }
        j := j + 1;
      }
      MapItemsStep(polygons, i);
      assert polygon.items[..j] == polygon.items;
      i := i + 1;
    }
    assert polygons[..i] == polygons;
  }
}
