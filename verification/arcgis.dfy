/** `ArcGisMapServerCatalogItem`: which layers of an ArcGIS MapServer an item
    shows, how they are looked up from the comma-separated `layers` trait,
    the item's name, its legend, the bounding box of its layers, and the
    choice of layer list once the service metadata has loaded. */
module ArcGis {
  import opened Wrappers
  import opened Strings
  import opened Json
  import opened TerriaErrors

  /** A layer of the service: a numeric id and, usually, a name. */
  datatype Layer = Layer(id: nat, name: Option<string>)

  // ---------------------------------------------------------------------
  // The `layers` trait and the uri

  /** Whether a string has a decimal digit (the test `match(/\d+/)`). */
  predicate HasDigit(s: string) {
    exists i :: 0 <= i < |s| && '0' <= s[i] <= '9'
  }

  /** The `layers` getter: the trait when it is a non-empty string, else the
      uri's last segment when it holds a digit (a single REST layer), else
      undefined. `lastSegment` is `None` when there is no uri. */
  function ItemLayers(traitLayers: Option<string>, lastSegment: Option<string>): (r: Option<string>)
    ensures traitLayers.Some? && traitLayers.value != "" ==> r == traitLayers
    ensures !(traitLayers.Some? && traitLayers.value != "") ==>
      r == (if lastSegment.Some? && HasDigit(lastSegment.value) then lastSegment else None)
  {
    if traitLayers.Some? && traitLayers.value != "" then traitLayers
    else if lastSegment.Some? && HasDigit(lastSegment.value) then lastSegment
    else None
  }

  // ---------------------------------------------------------------------
  // findLayers

  /** The layer's id, as a string, is the name looked up. */
  predicate IdMatch(l: Layer, id: string) {
    NatToString(l.id) == id
  }

  /** The layer's name equals the name looked up, ignoring case. */
  predicate NameMatch(l: Layer, id: string) {
    l.name.Some? && ToLower(l.name.value) == ToLower(id)
  }

  /** The `for` loop of `findLayer` from position `i`, with the last name
      match so far in `foundByName`: an id match returns at once. */
  function FindLayerFrom(layers: seq<Layer>, id: string, i: nat, foundByName: Option<Layer>): Option<Layer>
    requires i <= |layers|
    decreases |layers| - i
  {
    if i == |layers| then foundByName
    else if IdMatch(layers[i], id) then Some(layers[i])
    else FindLayerFrom(layers, id, i + 1, if NameMatch(layers[i], id) then Some(layers[i]) else foundByName)
  }

  /** `findLayer(layers, id)`. */
  function FindLayer(layers: seq<Layer>, id: string): Option<Layer> {
    FindLayerFrom(layers, id, 0, None)
  }

  /** The first layer matched by id. */
  function FirstById(layers: seq<Layer>, id: string): (r: Option<Layer>)
    ensures r.None? <==> forall i :: 0 <= i < |layers| ==> !IdMatch(layers[i], id)
    ensures r.Some? ==>
      exists i :: 0 <= i < |layers| && layers[i] == r.value && IdMatch(r.value, id) &&
                  forall j :: 0 <= j < i ==> !IdMatch(layers[j], id)
  {
    if layers == [] then None
    else if IdMatch(layers[0], id) then Some(layers[0])
    else
      var r := FirstById(layers[1..], id);
      assert forall j :: 0 < j < |layers| ==> layers[j] == layers[1..][j - 1];
      if r.Some? then
        var i :| 0 <= i < |layers[1..]| && layers[1..][i] == r.value && IdMatch(r.value, id) &&
          forall j :: 0 <= j < i ==> !IdMatch(layers[1..][j], id);
        assert layers[i + 1] == r.value;
        r
      else r
  }

  /** The last layer matched by name. */
  function LastByName(layers: seq<Layer>, id: string): (r: Option<Layer>)
    ensures r.None? <==> forall i :: 0 <= i < |layers| ==> !NameMatch(layers[i], id)
    ensures r.Some? ==>
      exists i :: 0 <= i < |layers| && layers[i] == r.value && NameMatch(r.value, id) &&
                  forall j :: i < j < |layers| ==> !NameMatch(layers[j], id)
  {
    if layers == [] then None
    else
      var rest := LastByName(layers[1..], id);
      assert forall j :: 0 < j < |layers| ==> layers[j] == layers[1..][j - 1];
      if rest.Some? then
        var i :| 0 <= i < |layers[1..]| && layers[1..][i] == rest.value && NameMatch(rest.value, id) &&
          forall j :: i < j < |layers[1..]| ==> !NameMatch(layers[1..][j], id);
        assert layers[i + 1] == rest.value;
        rest
      else if NameMatch(layers[0], id) then Some(layers[0])
      else None
  }

  function OrElse<T>(a: Option<T>, b: Option<T>): Option<T> {
    if a.Some? then a else b
  }

  lemma {:induction false} FindLayerFromMeaning(layers: seq<Layer>, id: string, i: nat, found: Option<Layer>)
    requires i <= |layers|
    ensures FindLayerFrom(layers, id, i, found) ==
      OrElse(FirstById(layers[i..], id), OrElse(LastByName(layers[i..], id), found))
    decreases |layers| - i
  {
    if i < |layers| {
      assert layers[i..][0] == layers[i];
      assert layers[i..][1..] == layers[i + 1..];
      if !IdMatch(layers[i], id) {
        FindLayerFromMeaning(layers, id, i + 1, if NameMatch(layers[i], id) then Some(layers[i]) else found);
      }
    }
  }

  /** `findLayer` takes the first layer whose id is the name, else the last
      layer whose name matches it ignoring case, else nothing. */
  lemma FindLayerMeaning(layers: seq<Layer>, id: string)
    ensures FindLayer(layers, id) == OrElse(FirstById(layers, id), LastByName(layers, id))
  {
    FindLayerFromMeaning(layers, id, 0, None);
    assert layers[0..] == layers;
  }

  /** An id match beats any name match, even one earlier in the list. */
  lemma IdBeatsName()
    ensures FindLayer([Layer(7, Some("3")), Layer(3, Some("roads"))], "3") == Some(Layer(3, Some("roads")))
  {
    var layers := [Layer(7, Some("3")), Layer(3, Some("roads"))];
    assert NatToString(7) == "7";
    assert NatToString(3) == "3";
    FindLayerMeaning(layers, "3");
  }

  /** `findLayers(layers, names)`: all layers without names; otherwise one
      lookup per comma-separated name, in order. */
  function FindLayers(layers: seq<Layer>, names: Option<string>): (r: seq<Option<Layer>>)
    ensures names.None? ==> |r| == |layers| && forall i :: 0 <= i < |layers| ==> r[i] == Some(layers[i])
    ensures names.Some? ==> |r| == |Split(names.value, ',')|
    ensures names.Some? ==> forall k :: 0 <= k < |r| ==> r[k] == FindLayer(layers, Split(names.value, ',')[k])
  {
    match names
    case None => seq(|layers|, i requires 0 <= i < |layers| => Some(layers[i]))
    case Some(n) =>
      var ids := Split(n, ',');
      seq(|ids|, k requires 0 <= k < |ids| => FindLayer(layers, ids[k]))
  }

  /** `filterOutUndefined`. */
  function FilterOutUndefined(xs: seq<Option<Layer>>): (r: seq<Layer>)
    ensures |r| <= |xs|
    ensures forall x :: x in r <==> Some(x) in xs
    decreases |xs|
  {
    if xs == [] then []
    else
      var rest := FilterOutUndefined(xs[1..]);
      assert forall y :: y in xs <==> y == xs[0] || y in xs[1..];
      (if xs[0].Some? then [xs[0].value] else []) + rest
  }

  /** The defined entries of `a + b` are those of `a` followed by those of `b`. */
  lemma {:induction false} FilterOutUndefinedAppend(a: seq<Option<Layer>>, b: seq<Option<Layer>>)
    ensures FilterOutUndefined(a + b) == FilterOutUndefined(a) + FilterOutUndefined(b)
    decreases |a|
  {
    if a == [] {
      assert a + b == b;
    } else {
      assert (a + b)[0] == a[0];
      assert (a + b)[1..] == a[1..] + b;
      FilterOutUndefinedAppend(a[1..], b);
    }
  }

  /** With every entry defined nothing is dropped: the values, in order. */
  lemma {:induction false} FilterOutUndefinedAllDefined(xs: seq<Option<Layer>>)
    requires forall i :: 0 <= i < |xs| ==> xs[i].Some?
    ensures |FilterOutUndefined(xs)| == |xs|
    ensures forall i :: 0 <= i < |xs| ==> FilterOutUndefined(xs)[i] == xs[i].value
    decreases |xs|
  {
    if xs != [] {
      assert forall i :: 0 <= i < |xs[1..]| ==> xs[1..][i] == xs[i + 1];
      FilterOutUndefinedAllDefined(xs[1..]);
    }
  }

  /** `MapServerStratum.allLayers`: the layers the item's `layers` names. */
  function AllLayers(layers: seq<Layer>, itemLayers: Option<string>): (r: seq<Layer>)
    ensures forall l :: l in r ==> l in layers
    ensures itemLayers.Some? ==> forall l :: l in r <==>
      exists k :: 0 <= k < |Split(itemLayers.value, ',')| && FindLayer(layers, Split(itemLayers.value, ',')[k]) == Some(l)
  {
    var found := FindLayers(layers, itemLayers);
    FoundLayersAreLayers(layers, itemLayers);
    FilterOutUndefined(found)
  }

  lemma FoundLayersAreLayers(layers: seq<Layer>, itemLayers: Option<string>)
    ensures forall l :: Some(l) in FindLayers(layers, itemLayers) ==> l in layers
  {
    var found := FindLayers(layers, itemLayers);
    forall k | 0 <= k < |found| && found[k].Some?
      ensures found[k].value in layers
    {
      if itemLayers.Some? {
        FindLayerMeaning(layers, Split(itemLayers.value, ',')[k]);
      }
    }
  }

  /** When every comma-separated name finds a layer, the layers come in the
      order of the names, one per name. */
  lemma AllLayersFollowNames(layers: seq<Layer>, names: string)
    requires forall k :: 0 <= k < |Split(names, ',')| ==> FindLayer(layers, Split(names, ',')[k]).Some?
    ensures |AllLayers(layers, Some(names))| == |Split(names, ',')|
    ensures forall k :: 0 <= k < |Split(names, ',')| ==>
      AllLayers(layers, Some(names))[k] == FindLayer(layers, Split(names, ',')[k]).value
  {
    FilterOutUndefinedAllDefined(FindLayers(layers, Some(names)));
  }

  /** A non-empty run of digits has a digit and no comma, so it splits into itself. */
  lemma DecimalSegment(seg: string)
    requires |seg| >= 1 && forall i :: 0 <= i < |seg| ==> '0' <= seg[i] <= '9'
    ensures HasDigit(seg)
    ensures Split(seg, ',') == [seg]
  {
    assert '0' <= seg[0] <= '9';
    assert ',' !in seg;
    assert IndexOfChar(seg, ',').None?;
  }

  /** A uri naming a single REST layer (a last segment of digits, no
      `layers` trait) selects exactly one layer: the first whose id reads as
      that segment. */
  lemma ItemLayersSelectsUriLayer(layers: seq<Layer>, traitLayers: Option<string>, seg: string)
    requires traitLayers.None? || traitLayers.value == ""
    requires |seg| >= 1 && forall i :: 0 <= i < |seg| ==> '0' <= seg[i] <= '9'
    requires exists i :: 0 <= i < |layers| && IdMatch(layers[i], seg)
    ensures ItemLayers(traitLayers, Some(seg)) == Some(seg)
    ensures FirstById(layers, seg).Some?
    ensures AllLayers(layers, ItemLayers(traitLayers, Some(seg))) == [FirstById(layers, seg).value]
  {
    DecimalSegment(seg);
    var first := FirstById(layers, seg);
    FindLayerMeaning(layers, seg);
    assert FindLayer(layers, Split(seg, ',')[0]) == first;
    AllLayersFollowNames(layers, seg);
    var all := AllLayers(layers, Some(seg));
    assert |all| == 1 && all[0] == first.value;
    assert all == [first.value];
  }

  /** Without a `layers` value every layer is shown, in order. */
  lemma {:induction false} AllLayersWithoutSelection(layers: seq<Layer>)
    ensures AllLayers(layers, None) == layers
    decreases |layers|
  {
    var found := FindLayers(layers, None);
    if layers != [] {
      AllLayersWithoutSelection(layers[1..]);
      assert found[1..] == FindLayers(layers[1..], None);
    } else {
      assert found == [];
    }
  }

  // ---------------------------------------------------------------------
  // layerIds, allSelectedLayers

  function Ids(layers: seq<Layer>): (r: seq<string>)
    ensures |r| == |layers|
    ensures forall i :: 0 <= i < |layers| ==> r[i] == NatToString(layers[i].id)
  {
    seq(|layers|, i requires 0 <= i < |layers| => NatToString(layers[i].id))
  }

  /** `layerIds`: the selected layers' ids joined by commas; undefined
      without the map-server stratum (`allLayers` is `None`) or without layers. */
  function LayerIds(allLayers: Option<seq<Layer>>): (r: Option<string>)
    ensures r.None? <==> allLayers.None? || allLayers.value == []
    ensures r.Some? ==> r.value == Join(Ids(allLayers.value), ',')
  {
    var ids := if allLayers.Some? then Ids(allLayers.value) else [];
    if |ids| == 0 then None else Some(Join(ids, ','))
  }

  /** Splitting `layerIds` at the commas gives back each layer's id. */
  lemma LayerIdsSplit(allLayers: seq<Layer>)
    requires allLayers != []
    ensures Split(LayerIds(Some(allLayers)).value, ',') == Ids(allLayers)
  {
    var ids := Ids(allLayers);
    forall k | 0 <= k < |ids|
      ensures ',' !in ids[k]
    {
      assert forall c :: c in ids[k] ==> '0' <= c <= '9';
    }
    SplitJoin(ids, ',');
  }

  /** `allSelectedLayers`: nothing without the stratum; every layer without
      a `layers` value; else the layers whose id is one of the comma list's entries. */
  function AllSelectedLayers(allLayers: Option<seq<Layer>>, itemLayers: Option<string>): (r: seq<Layer>)
    ensures allLayers.None? ==> r == []
    ensures allLayers.Some? && itemLayers.None? ==> r == allLayers.value
    ensures allLayers.Some? && itemLayers.Some? ==>
      forall l :: l in r <==> l in allLayers.value && NatToString(l.id) in Split(itemLayers.value, ',')
  {
    match allLayers
    case None => []
    case Some(all) =>
      match itemLayers
      case None => all
      case Some(s) => SelectById(all, Split(s, ','))
  }

  function SelectById(layers: seq<Layer>, ids: seq<string>): (r: seq<Layer>)
    ensures forall l :: l in r <==> l in layers && NatToString(l.id) in ids
    decreases |layers|
  {
    if layers == [] then []
    else
      var rest := SelectById(layers[1..], ids);
      assert forall l :: l in layers <==> l == layers[0] || l in layers[1..];
      (if NatToString(layers[0].id) in ids then [layers[0]] else []) + rest
  }

  /** The selection keeps the layers' order: selecting from `a + b` is
      selecting from `a`, then from `b`. */
  lemma {:induction false} SelectByIdAppend(a: seq<Layer>, b: seq<Layer>, ids: seq<string>)
    ensures SelectById(a + b, ids) == SelectById(a, ids) + SelectById(b, ids)
    decreases |a|
  {
    if a == [] {
      assert a + b == b;
    } else {
      assert (a + b)[0] == a[0];
      assert (a + b)[1..] == a[1..] + b;
      SelectByIdAppend(a[1..], b, ids);
    }
  }

  /** When every layer's id is listed, all layers are selected, in order. */
  lemma {:induction false} SelectByIdAll(layers: seq<Layer>, ids: seq<string>)
    requires forall i :: 0 <= i < |layers| ==> NatToString(layers[i].id) in ids
    ensures SelectById(layers, ids) == layers
    decreases |layers|
  {
    if layers != [] {
      assert forall i :: 0 <= i < |layers[1..]| ==> layers[1..][i] == layers[i + 1];
      SelectByIdAll(layers[1..], ids);
    }
  }

  /** `allSelectedLayers` keeps the service's layer order: for the layers
      `a + b` it is the selection from `a` followed by that from `b`. */
  lemma AllSelectedLayersKeepsOrder(a: seq<Layer>, b: seq<Layer>, itemLayers: Option<string>)
    ensures AllSelectedLayers(Some(a + b), itemLayers) ==
      AllSelectedLayers(Some(a), itemLayers) + AllSelectedLayers(Some(b), itemLayers)
  {
    if itemLayers.Some? {
      SelectByIdAppend(a, b, Split(itemLayers.value, ','));
    }
  }

  // ---------------------------------------------------------------------
  // name

  /** `MapServerStratum.name`: a single layer's non-empty name, else a
      non-empty document title, else a non-empty map name, each with
      underscores read as spaces; else undefined. */
  function Name(allLayers: seq<Layer>, documentTitle: Option<string>, mapName: Option<string>): (r: Option<string>)
    ensures |allLayers| == 1 && allLayers[0].name.Some? && allLayers[0].name.value != "" ==>
      r == Some(ReplaceUnderscores(allLayers[0].name.value))
    ensures !(|allLayers| == 1 && allLayers[0].name.Some? && allLayers[0].name.value != "") &&
            documentTitle.Some? && documentTitle.value != "" ==>
      r == Some(ReplaceUnderscores(documentTitle.value))
    ensures r.None? <==>
      !(|allLayers| == 1 && allLayers[0].name.Some? && allLayers[0].name.value != "") &&
      !(documentTitle.Some? && documentTitle.value != "") &&
      !(mapName.Some? && mapName.value != "")
    ensures !(|allLayers| == 1 && allLayers[0].name.Some? && allLayers[0].name.value != "") &&
            !(documentTitle.Some? && documentTitle.value != "") &&
            mapName.Some? && mapName.value != "" ==>
      r == Some(ReplaceUnderscores(mapName.value))
  {
    if |allLayers| == 1 && allLayers[0].name.Some? && allLayers[0].name.value != "" then
      Some(ReplaceUnderscores(allLayers[0].name.value))
    else if documentTitle.Some? && documentTitle.value != "" then
      Some(ReplaceUnderscores(documentTitle.value))
    else if mapName.Some? && mapName.value != "" then
      Some(ReplaceUnderscores(mapName.value))
    else None
  }

  /** A name never keeps an underscore. */
  lemma NameHasNoUnderscore(allLayers: seq<Layer>, documentTitle: Option<string>, mapName: Option<string>)
    ensures var r := Name(allLayers, documentTitle, mapName);
      r.Some? ==> '_' !in r.value
  {
    var r := Name(allLayers, documentTitle, mapName);
    if r.Some? {
      forall i | 0 <= i < |r.value|
        ensures r.value[i] != '_'
      {
      }
    }
  }

  // ---------------------------------------------------------------------
  // legends

  datatype LegendEntry = LegendEntry(caption: Option<string>, contentType: string, imageData: string, width: int, height: int)

  datatype LegendLayer = LegendLayer(layerId: nat, layerName: string, legend: seq<LegendEntry>)

  datatype LegendItem = LegendItem(title: Option<string>, imageUrl: string, imageWidth: int, imageHeight: int)

  /** The whitespace, `_` and `-` that `[\s_-]` accepts (ASCII whitespace only). */
  predicate NoDataSeparator(c: char) {
    c == ' ' || c == '\t' || c == '\n' || c == '\r' || c == '\U{B}' || c == '\U{C}' || c == '_' || c == '-'
  }

  /** `/^No[\s_-]?Data$/i`. */
  predicate IsNoData(name: string) {
    var n := ToLower(name);
    n == "nodata" || (|n| == 7 && n[..2] == "no" && NoDataSeparator(n[2]) && n[3..] == "data")
  }

  /** `/_Labels$/`. */
  predicate IsLabels(name: string) {
    |name| >= 7 && name[|name| - 7..] == "_Labels"
  }

  /** Whether a legend layer is shown: not a no-data or labels layer, and,
      when a selection exists, selected by id or by name. */
  predicate LegendLayerShown(l: LegendLayer, selection: seq<string>) {
    !IsNoData(l.layerName) && !IsLabels(l.layerName) &&
    (|selection| == 0 || NatToString(l.layerId) in selection || l.layerName in selection)
  }

  /** The item for one legend entry: the label, or the layer name for an
      empty label, with underscores read as spaces; the image as a data URL.
      An undefined label stays undefined. */
  function EntryItem(l: LegendLayer, e: LegendEntry): LegendItem {
    var title := if e.caption.Some? && e.caption.value == "" then Some(l.layerName) else e.caption;
    LegendItem(
      if title.Some? then Some(ReplaceUnderscores(title.value)) else None,
      "data:" + e.contentType + ";base64," + e.imageData,
      e.width, e.height)
  }

  function EntryItems(l: LegendLayer): (r: seq<LegendItem>)
    ensures |r| == |l.legend|
    ensures forall j :: 0 <= j < |l.legend| ==> r[j] == EntryItem(l, l.legend[j])
    ensures forall x :: x in r <==> exists j :: 0 <= j < |l.legend| && x == EntryItem(l, l.legend[j])
  {
    assert forall j :: 0 <= j < |l.legend| ==>
      seq(|l.legend|, i requires 0 <= i < |l.legend| => EntryItem(l, l.legend[i]))[j] == EntryItem(l, l.legend[j]);
    seq(|l.legend|, i requires 0 <= i < |l.legend| => EntryItem(l, l.legend[i]))
  }

  /** The items of the shown layers, before deduplication. */
  function ShownItems(layers: seq<LegendLayer>, selection: seq<string>): (r: seq<LegendItem>)
    ensures forall x :: x in r <==>
      exists i, j :: 0 <= i < |layers| && LegendLayerShown(layers[i], selection) &&
        0 <= j < |layers[i].legend| && x == EntryItem(layers[i], layers[i].legend[j])
    decreases |layers|
  {
    if layers == [] then []
    else
      var rest := ShownItems(layers[1..], selection);
      var own := if LegendLayerShown(layers[0], selection) then EntryItems(layers[0]) else [];
      assert forall i :: 0 < i < |layers| ==> layers[i] == layers[1..][i - 1];
      own + rest
  }

  /** One layer contributes its entries' items in legend order when shown,
      and nothing otherwise. */
  lemma ShownItemsSingle(l: LegendLayer, selection: seq<string>)
    ensures ShownItems([l], selection) == (if LegendLayerShown(l, selection) then EntryItems(l) else [])
  {
    assert [l][1..] == [];
  }

  /** Items follow the layers' order: the items of `a` come before those of `b`. */
  lemma {:induction false} ShownItemsAppend(a: seq<LegendLayer>, b: seq<LegendLayer>, selection: seq<string>)
    ensures ShownItems(a + b, selection) == ShownItems(a, selection) + ShownItems(b, selection)
    decreases |a|
  {
    if a == [] {
      assert a + b == b;
    } else {
      var own := if LegendLayerShown(a[0], selection) then EntryItems(a[0]) else [];
      assert (a + b)[0] == a[0];
      assert (a + b)[1..] == a[1..] + b;
      assert ShownItems(a + b, selection) == own + ShownItems(a[1..] + b, selection);
      assert ShownItems(a, selection) == own + ShownItems(a[1..], selection);
      ShownItemsAppend(a[1..], b, selection);
      assert own + (ShownItems(a[1..], selection) + ShownItems(b, selection)) ==
             (own + ShownItems(a[1..], selection)) + ShownItems(b, selection);
    }
  }

  /** Some item of `r` has the image URL `url`. */
  predicate HasUrl(r: seq<LegendItem>, url: string) {
    exists k :: 0 <= k < |r| && r[k].imageUrl == url
  }

  /** `uniqWith(items, same imageUrl)`: the first item of each image URL, in order. */
  function UniqByImageUrl(items: seq<LegendItem>): (r: seq<LegendItem>)
    ensures forall a, b :: 0 <= a < b < |r| ==> r[a].imageUrl != r[b].imageUrl
    ensures forall x :: x in r ==> x in items
    ensures forall i :: 0 <= i < |items| ==> HasUrl(r, items[i].imageUrl)
    decreases |items|
  {
    if items == [] then []
    else
      var n := |items| - 1;
      var p := UniqByImageUrl(items[..n]);
      assert forall i :: 0 <= i < n ==> items[..n][i] == items[i];
      if HasUrl(p, items[n].imageUrl) then p
      else
        var r := p + [items[n]];
        assert forall i :: 0 <= i < n ==> HasUrl(r, items[i].imageUrl) by {
          forall i | 0 <= i < n
            ensures HasUrl(r, items[i].imageUrl)
          {
            assert HasUrl(p, items[..n][i].imageUrl);
            var k :| 0 <= k < |p| && p[k].imageUrl == items[i].imageUrl;
            assert r[k] == p[k];
          }
        }
        assert r[|p|] == items[n];
        r
  }

  /** The position of the first item with image URL `url`; `|items|` when there is none. */
  function FirstUrlIndex(items: seq<LegendItem>, url: string): (i: nat)
    ensures i <= |items|
    ensures i < |items| ==> items[i].imageUrl == url
    ensures forall j :: 0 <= j < i ==> items[j].imageUrl != url
    decreases |items|
  {
    if items == [] then 0
    else if items[0].imageUrl == url then 0
    else
      var i := FirstUrlIndex(items[1..], url);
      assert forall j :: 0 < j <= i ==> items[j] == items[1..][j - 1];
      i + 1
  }

  lemma FirstUrlIndexPrefix(items: seq<LegendItem>, n: nat, url: string)
    requires n <= |items| && FirstUrlIndex(items[..n], url) < n
    ensures FirstUrlIndex(items, url) == FirstUrlIndex(items[..n], url)
  {
    var i := FirstUrlIndex(items[..n], url);
    assert forall j :: 0 <= j <= i ==> items[..n][j] == items[j];
  }

  /** Every item of `r` is the first item of `items` with its image URL. */
  predicate FirstsOf(items: seq<LegendItem>, r: seq<LegendItem>) {
    forall k :: 0 <= k < |r| ==>
      FirstUrlIndex(items, r[k].imageUrl) < |items| && items[FirstUrlIndex(items, r[k].imageUrl)] == r[k]
  }

  lemma FirstsOfPrefix(items: seq<LegendItem>, n: nat, p: seq<LegendItem>)
    requires n <= |items| && FirstsOf(items[..n], p)
    ensures FirstsOf(items, p)
  {
    forall k | 0 <= k < |p|
      ensures FirstUrlIndex(items, p[k].imageUrl) < |items| && items[FirstUrlIndex(items, p[k].imageUrl)] == p[k]
    {
      FirstUrlIndexPrefix(items, n, p[k].imageUrl);
      assert items[..n][FirstUrlIndex(items[..n], p[k].imageUrl)] == p[k];
    }
  }

  lemma FirstsOfAppend(items: seq<LegendItem>, p: seq<LegendItem>)
    requires |items| > 0 && FirstsOf(items, p)
    requires !HasUrl(p, items[|items| - 1].imageUrl)
    requires forall j :: 0 <= j < |items| - 1 ==> HasUrl(p, items[j].imageUrl)
    ensures FirstsOf(items, p + [items[|items| - 1]])
  {
    var n := |items| - 1;
    forall j | 0 <= j < n
      ensures items[j].imageUrl != items[n].imageUrl
    {
      assert HasUrl(p, items[j].imageUrl);
    }
    assert FirstUrlIndex(items, items[n].imageUrl) == n;
    var r := p + [items[n]];
    assert forall k :: 0 <= k < |r| ==> r[k] == if k < |p| then p[k] else items[n];
  }

  /** Each deduplicated item is the first item with its image URL. */
  lemma {:induction false} UniqKeepsFirst(items: seq<LegendItem>)
    ensures FirstsOf(items, UniqByImageUrl(items))
    decreases |items|
  {
    if items == [] {
      assert UniqByImageUrl(items) == [];
    } else {
      var n := |items| - 1;
      var p := UniqByImageUrl(items[..n]);
      UniqKeepsFirst(items[..n]);
      FirstsOfPrefix(items, n, p);
      if !HasUrl(p, items[n].imageUrl) {
        forall j | 0 <= j < n
          ensures HasUrl(p, items[j].imageUrl)
        {
          assert items[..n][j] == items[j];
        }
        FirstsOfAppend(items, p);
      }
    }
  }

  /** The items of `r` appear in the order of their first positions in `items`. */
  predicate InFirstOrder(items: seq<LegendItem>, r: seq<LegendItem>) {
    forall a, b :: 0 <= a < b < |r| ==>
      FirstUrlIndex(items, r[a].imageUrl) < FirstUrlIndex(items, r[b].imageUrl)
  }

  lemma InFirstOrderPrefix(items: seq<LegendItem>, n: nat, p: seq<LegendItem>)
    requires n <= |items| && FirstsOf(items[..n], p) && InFirstOrder(items[..n], p)
    ensures InFirstOrder(items, p)
    ensures forall k :: 0 <= k < |p| ==> FirstUrlIndex(items, p[k].imageUrl) < n
  {
    forall k | 0 <= k < |p|
      ensures FirstUrlIndex(items, p[k].imageUrl) == FirstUrlIndex(items[..n], p[k].imageUrl) < n
    {
      FirstUrlIndexPrefix(items, n, p[k].imageUrl);
    }
  }

  lemma InFirstOrderAppend(items: seq<LegendItem>, p: seq<LegendItem>, x: LegendItem)
    requires InFirstOrder(items, p)
    requires forall k :: 0 <= k < |p| ==> FirstUrlIndex(items, p[k].imageUrl) < FirstUrlIndex(items, x.imageUrl)
    ensures InFirstOrder(items, p + [x])
  {
    var r := p + [x];
    assert forall k :: 0 <= k < |r| ==> r[k] == if k < |p| then p[k] else x;
  }

  /** The deduplicated items keep the input order: their first positions in
      `items` strictly increase along the result. */
  lemma {:induction false} UniqKeepsInputOrder(items: seq<LegendItem>)
    ensures InFirstOrder(items, UniqByImageUrl(items))
    decreases |items|
  {
    if items != [] {
      var n := |items| - 1;
      var p := UniqByImageUrl(items[..n]);
      UniqKeepsInputOrder(items[..n]);
      UniqKeepsFirst(items[..n]);
      InFirstOrderPrefix(items, n, p);
      if !HasUrl(p, items[n].imageUrl) {
        forall j | 0 <= j < n
          ensures items[j].imageUrl != items[n].imageUrl
        {
          assert items[..n][j] == items[j];
          assert HasUrl(p, items[..n][j].imageUrl);
        }
        assert FirstUrlIndex(items, items[n].imageUrl) == n;
        InFirstOrderAppend(items, p, items[n]);
      }
    }
  }

  /** `MapServerStratum.legends` (its one legend's items): `legends` is the
      legend response's `layers` (`None` when undefined); the selection is
      the item's `layers` split at commas. */
  function LegendItems(legends: Option<seq<LegendLayer>>, itemLayers: Option<string>): (r: seq<LegendItem>)
    ensures forall a, b :: 0 <= a < b < |r| ==> r[a].imageUrl != r[b].imageUrl
    ensures forall x :: x in r ==> x in ShownItems(legends.GetOr([]), Selection(itemLayers))
    ensures forall x :: x in ShownItems(legends.GetOr([]), Selection(itemLayers)) ==> HasUrl(r, x.imageUrl)
    ensures FirstsOf(ShownItems(legends.GetOr([]), Selection(itemLayers)), r)
    ensures InFirstOrder(ShownItems(legends.GetOr([]), Selection(itemLayers)), r)
  {
    var shown := ShownItems(legends.GetOr([]), Selection(itemLayers));
    var r := UniqByImageUrl(shown);
    UniqKeepsFirst(shown);
    UniqKeepsInputOrder(shown);
    assert forall x :: x in shown ==> HasUrl(r, x.imageUrl) by {
      forall x | x in shown
        ensures HasUrl(r, x.imageUrl)
      {
        var i :| 0 <= i < |shown| && shown[i] == x;
      }
    }
    r
  }

  function Selection(itemLayers: Option<string>): seq<string> {
    if itemLayers.Some? then Split(itemLayers.value, ',') else []
  }

  /** No-data and label layers never contribute, whatever the selection. */
  lemma NoDataLayersSkipped(l: LegendLayer, itemLayers: Option<string>)
    requires IsNoData(l.layerName) || IsLabels(l.layerName)
    ensures LegendItems(Some([l]), itemLayers) == []
  {
    assert ShownItems([l], Selection(itemLayers)) == [];
  }

  /** With a selection, a layer named neither by its id nor by its name contributes nothing. */
  lemma UnselectedLayerSkipped(l: LegendLayer, itemLayers: string)
    requires NatToString(l.layerId) !in Split(itemLayers, ',') && l.layerName !in Split(itemLayers, ',')
    ensures LegendItems(Some([l]), Some(itemLayers)) == []
  {
    assert ShownItems([l], Selection(Some(itemLayers))) == [];
  }

  lemma NoDataSpelledTogether()
    ensures IsNoData("NoData")
  {
    var n := ToLower("NoData");
    assert n == "nodata";
  }

  lemma NoDataWithUnderscore()
    ensures IsNoData("No_Data")
  {
    var n := ToLower("No_Data");
    assert n[..2] == "no" && n[2] == '_' && n[3..] == "data";
  }

  lemma NoDataWithSpace()
    ensures IsNoData("NO DATA")
  {
    var n := ToLower("NO DATA");
    assert n[..2] == "no" && n[2] == ' ' && n[3..] == "data";
  }

  lemma NoDataIsWholeName()
    ensures !IsNoData("NoDatum") && !IsNoData("No Data!")
  {
    assert ToLower("NoDatum")[6] == 'm';
  }

  lemma LabelsIsCaseSensitive()
    ensures IsLabels("Roads_Labels") && !IsLabels("Roads_labels")
  {
    assert "Roads_Labels"[5..] == "_Labels";
    assert "Roads_labels"[5..][1] == 'l';
  }

  // ---------------------------------------------------------------------
  // updateBbox

  datatype Extent = Extent(xmin: real, ymin: real, xmax: real, ymax: real)

  datatype Rectangle = Rectangle(west: real, south: real, east: real, north: real)

  function Min(a: real, b: real): real { if a < b then a else b }

  function Max(a: real, b: real): real { if a > b then a else b }

  /** `updateBbox`: the rectangle only ever widens to take in the extent. */
  function UpdateBbox(e: Extent, r: Rectangle): (w: Rectangle)
    ensures w.west <= r.west && w.west <= e.xmin && (w.west == r.west || w.west == e.xmin)
    ensures w.south <= r.south && w.south <= e.ymin && (w.south == r.south || w.south == e.ymin)
    ensures w.east >= r.east && w.east >= e.xmax && (w.east == r.east || w.east == e.xmax)
    ensures w.north >= r.north && w.north >= e.ymax && (w.north == r.north || w.north == e.ymax)
  {
    Rectangle(
      if e.xmin < r.west then e.xmin else r.west,
      if e.ymin < r.south then e.ymin else r.south,
      if e.xmax > r.east then e.xmax else r.east,
      if e.ymax > r.north then e.ymax else r.north)
  }

  /** The order in which extents are taken in does not matter, and taking
      one in twice changes nothing more. */
  lemma UpdateBboxCommutes(a: Extent, b: Extent, r: Rectangle)
    ensures UpdateBbox(a, UpdateBbox(b, r)) == UpdateBbox(b, UpdateBbox(a, r))
    ensures UpdateBbox(a, UpdateBbox(a, r)) == UpdateBbox(a, r)
  {
  }

  // ---------------------------------------------------------------------
  // MapServerStratum.load: the layer list

  const InvalidUrlError: TerriaError := New(Options(
    Key("models.arcGisMapServerCatalogItem.invalidUrlMessage", []),
    Some(Key("models.arcGisMapServerCatalogItem.invalidUrlTitle", [])), None, None, None, None))

  function InvalidServerError(appName: string, supportEmail: string): TerriaError {
    New(Options(
      Key("models.arcGisService.invalidServerMessage", [
        ("cors", "<a href=\"http://enable-cors.org/\" target=\"_blank\">CORS</a>"),
        ("appName", appName),
        ("email", "<a href=\"mailto:" + supportEmail + "\">" + supportEmail + "</a>")]),
      Some(Key("models.arcGisService.invalidServerTitle", [])), None, None, None, None))
  }

  const NoLayersError: TerriaError := New(Options(
    Key("models.arcGisMapServerCatalogItem.noLayersFoundMessage", []),
    Some(Key("models.arcGisMapServerCatalogItem.noLayersFoundMessage", [])), None, None, None, None))

  /** `isDefined(j[key])`: present and not `null`. */
  predicate Defined(j: Option<Json>) {
    j.Some? && !j.value.JNull?
  }

  /** `layers.length === 0` for a defined value. */
  predicate LengthIsZero(j: Json) {
    match j
    case JArr(items) => items == []
    case JStr(s) => s == ""
    case JObj(fields) => Lookup(fields, "length") == Some(JNum(0))
    case _ => false
  }

  /** The `TypeError` thrown when reading a property of `undefined`. */
  const ReadOfUndefined: NativeError := NativeError("Cannot read properties of undefined (reading 'layers')")

  /** The layer list `load` settles on, as written: with both responses, the
      service's `layers`; otherwise the layers response's `layers`, or the
      response itself as a single layer when it has an `id`. A missing
      service response, no layers or an empty list is a `TerriaError`; a
      missing layers response without service layers, or with them, reads a
      property of `undefined` and throws a `TypeError`. */
  function ChooseLayers(uriDefined: bool, service: Option<Json>, layersResponse: Option<Json>,
                        appName: string, supportEmail: string): (r: Result<Json, Thrown>)
    ensures !uriDefined ==> r == Err(ThrownTerria(InvalidUrlError))
    ensures uriDefined && !Defined(service) ==> r == Err(ThrownTerria(InvalidServerError(appName, supportEmail)))
    ensures uriDefined && Defined(service) && !Defined(layersResponse) ==> r == Err(ThrownError(ReadOfUndefined))
    ensures r.Ok? ==> !LengthIsZero(r.value) && !r.value.JNull?
    ensures uriDefined && Defined(service) && Defined(layersResponse) && Defined(Field(service.value, "layers")) ==>
      r == (if LengthIsZero(Field(service.value, "layers").value) then Err(ThrownTerria(NoLayersError))
            else Ok(Field(service.value, "layers").value))
    ensures uriDefined && Defined(service) && Defined(layersResponse) && !Defined(Field(service.value, "layers")) ==>
      r == (if Defined(Field(layersResponse.value, "layers")) then
              (if LengthIsZero(Field(layersResponse.value, "layers").value) then Err(ThrownTerria(NoLayersError))
               else Ok(Field(layersResponse.value, "layers").value))
            else if Defined(Field(layersResponse.value, "id")) then Ok(JArr([layersResponse.value]))
            else Err(ThrownTerria(NoLayersError)))
  {
    if !uriDefined then Err(ThrownTerria(InvalidUrlError))
    else if !Defined(service) then Err(ThrownTerria(InvalidServerError(appName, supportEmail)))
    else
      var serviceLayers := Field(service.value, "layers");
      var layers: Option<Json> :=
        if Defined(layersResponse) && Defined(serviceLayers) then serviceLayers
        else if !Defined(layersResponse) then None
        else if Defined(Field(layersResponse.value, "layers")) then Field(layersResponse.value, "layers")
        else if Defined(Field(layersResponse.value, "id")) then Some(JArr([layersResponse.value]))
        else Some(JNull);
      if !Defined(layersResponse) then Err(ThrownError(ReadOfUndefined))
      else if !Defined(layers) || LengthIsZero(layers.value) then Err(ThrownTerria(NoLayersError))
      else Ok(layers.value)
  }

  /** A failed layers request throws a `TypeError` even though the service
      metadata lists layers. */
  lemma LayersRequestFailureCrashes()
    ensures var service := JObj([("layers", JArr([JObj([("id", JNum(0))])]))]);
      ChooseLayers(true, Some(service), None, "app", "help@example.org") == Err(ThrownError(ReadOfUndefined))
  {
  }

  /** The layer list with the missing layers response handled: the service's
      layers when it has them, the no-layers error otherwise. */
  function ChooseLayersGuarded(uriDefined: bool, service: Option<Json>, layersResponse: Option<Json>,
                               appName: string, supportEmail: string): (r: Result<Json, Thrown>)
    ensures r.Err? ==> r.error.ThrownTerria?
    ensures r.Ok? ==> !LengthIsZero(r.value) && !r.value.JNull?
    ensures Defined(layersResponse) ==> r == ChooseLayers(uriDefined, service, layersResponse, appName, supportEmail)
    ensures (uriDefined && Defined(service) && Defined(Field(service.value, "layers")) &&
             !LengthIsZero(Field(service.value, "layers").value)) ==>
            r == Ok(Field(service.value, "layers").value)
  {
    if uriDefined && Defined(service) && !Defined(layersResponse) then
      var serviceLayers := Field(service.value, "layers");
      if Defined(serviceLayers) && !LengthIsZero(serviceLayers.value) then Ok(serviceLayers.value)
      else Err(ThrownTerria(NoLayersError))
    else ChooseLayers(uriDefined, service, layersResponse, appName, supportEmail)
  }

  /** On the input that crashes the original, the guarded choice uses the
      service's layers. */
  lemma GuardedUsesServiceLayers()
    ensures var service := JObj([("layers", JArr([JObj([("id", JNum(0))])]))]);
      ChooseLayersGuarded(true, Some(service), None, "app", "help@example.org") ==
        Ok(JArr([JObj([("id", JNum(0))])]))
  {
  }
}
