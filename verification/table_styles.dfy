/** `TableAutomaticStylesStratum`: the styles a table gets when nobody has
    configured any, decided from the types of its columns, and the legend
    that a colour style shows. Numbers, colours and formatting are not
    modelled; a style names its columns and records which legend it uses. */
module TableStyles {
  import opened Wrappers

  datatype ColumnType = Longitude | Latitude | Height | Time | Scalar | Enum | Region | Text | Address | Hidden

  datatype Column = Column(name: string, columnType: ColumnType)

  /** The name of the column a default table looks for to group rows over time. */
  const DefaultIdColumn: string := "id"

  // ---------------------------------------------------------------------
  // Column lookups

  /** The columns of one type, in table order. */
  function OfType(cols: seq<Column>, t: ColumnType): (r: seq<Column>)
    ensures |r| <= |cols|
    ensures forall c :: c in r <==> c in cols && c.columnType == t
    decreases |cols|
  {
    if cols == [] then []
    else
      var rest := OfType(cols[1..], t);
      assert forall c :: c in cols[1..] ==> c in cols;
      assert forall c :: c in cols ==> c == cols[0] || c in cols[1..];
      (if cols[0].columnType == t then [cols[0]] else []) + rest
  }

  /** Filtering keeps the columns' order: the columns of `a + b` of a type
      are those of `a`, then those of `b`. */
  lemma {:induction false} OfTypeAppend(a: seq<Column>, b: seq<Column>, t: ColumnType)
    ensures OfType(a + b, t) == OfType(a, t) + OfType(b, t)
    decreases |a|
  {
    if a == [] {
      assert a + b == b;
    } else {
      assert (a + b)[0] == a[0];
      assert (a + b)[1..] == a[1..] + b;
      OfTypeAppend(a[1..], b, t);
    }
  }

  /** When every column has the type, all are kept, in order. */
  lemma {:induction false} OfTypeAll(cols: seq<Column>, t: ColumnType)
    requires forall i :: 0 <= i < |cols| ==> cols[i].columnType == t
    ensures OfType(cols, t) == cols
    decreases |cols|
  {
    if cols != [] {
      assert forall i :: 0 <= i < |cols[1..]| ==> cols[1..][i] == cols[i + 1];
      OfTypeAll(cols[1..], t);
    }
  }

  /** `findFirstColumnByType`. */
  function FindFirstColumnByType(cols: seq<Column>, t: ColumnType): (r: Option<Column>)
    ensures r.None? <==> forall i :: 0 <= i < |cols| ==> cols[i].columnType != t
    ensures r.Some? ==>
      exists i :: 0 <= i < |cols| && cols[i] == r.value && r.value.columnType == t &&
        forall j :: 0 <= j < i ==> cols[j].columnType != t
    decreases |cols|
  {
    if cols == [] then None
    else if cols[0].columnType == t then Some(cols[0])
    else
      var r := FindFirstColumnByType(cols[1..], t);
      assert forall j :: 0 < j < |cols| ==> cols[j] == cols[1..][j - 1];
      if r.Some? then
        var i :| 0 <= i < |cols[1..]| && cols[1..][i] == r.value && r.value.columnType == t &&
          forall j :: 0 <= j < i ==> cols[1..][j].columnType != t;
        assert cols[i + 1] == r.value;
        r
      else r
  }

  /** The first column found by type is the first of the columns of that type. */
  lemma {:induction false} FirstOfType(cols: seq<Column>, t: ColumnType)
    ensures FindFirstColumnByType(cols, t) == (if OfType(cols, t) == [] then None else Some(OfType(cols, t)[0]))
    decreases |cols|
  {
    if cols != [] {
      FirstOfType(cols[1..], t);
    }
  }

  /** `findColumnByName`: the first column with that name. */
  function FindColumnByName(cols: seq<Column>, name: string): (r: Option<Column>)
    ensures r.None? <==> forall i :: 0 <= i < |cols| ==> cols[i].name != name
    ensures r.Some? ==> r.value in cols && r.value.name == name
    decreases |cols|
  {
    if cols == [] then None
    else if cols[0].name == name then Some(cols[0])
    else
      var r := FindColumnByName(cols[1..], name);
      assert forall j :: 0 < j < |cols| ==> cols[j] == cols[1..][j - 1];
      r
  }

  // ---------------------------------------------------------------------
  // Style records

  datatype TimeStyle = TimeStyle(timeColumn: Option<string>, idColumns: Option<seq<string>>)

  datatype ChartLine = ChartLine(yAxisColumn: string, isSelectedInWorkbench: bool)

  datatype Chart = Chart(xAxisColumn: string, lines: seq<ChartLine>)

  /** A `TableStyleTraits` stratum; `legend` is the index given to the
      `ColorStyleLegend` of its colour style (-1 for the default style). */
  datatype Style = Style(
    id: Option<string>,
    longitudeColumn: Option<string>,
    latitudeColumn: Option<string>,
    regionColumn: Option<string>,
    time: Option<TimeStyle>,
    colorColumn: Option<string>,
    legend: Option<int>,
    pointSizeColumn: Option<string>,
    chart: Option<Chart>,
    hidden: Option<bool>)

  const EmptyStyle: Style := Style(None, None, None, None, None, None, None, None, None, None)

  /** A style with nothing but the default legend. */
  const LegendOnlyStyle: Style := EmptyStyle.(legend := Some(-1))

  // ---------------------------------------------------------------------
  // defaultChartStyle

  /** Chart lines for the given scalar columns; only the first is selected. */
  function ChartLines(cols: seq<Column>): (r: seq<ChartLine>)
    ensures |r| == |cols|
    ensures forall i :: 0 <= i < |cols| ==> r[i] == ChartLine(cols[i].name, i == 0)
  {
    seq(|cols|, i requires 0 <= i < |cols| => ChartLine(cols[i].name, i == 0))
  }

  /** `defaultChartStyle`: a chart needs one scalar column next to a time
      column, or two scalar columns without one. The x axis is the first
      time column, else the first scalar, which is then not plotted. */
  function DefaultChartStyle(cols: seq<Column>): (r: Option<Style>)
    ensures r.Some? <==> |OfType(cols, Scalar)| >= (if OfType(cols, Time) != [] then 1 else 2)
    ensures r.Some? ==> r.value.legend == Some(-1) && r.value.chart.Some?
    ensures r.Some? && OfType(cols, Time) != [] ==>
      r.value.chart.value.xAxisColumn == OfType(cols, Time)[0].name &&
      r.value.chart.value.lines == ChartLines(OfType(cols, Scalar))
    ensures r.Some? && OfType(cols, Time) == [] ==>
      r.value.chart.value.xAxisColumn == OfType(cols, Scalar)[0].name &&
      r.value.chart.value.lines == ChartLines(OfType(cols, Scalar)[1..])
  {
    var timeColumns := OfType(cols, Time);
    var scalarColumns := OfType(cols, Scalar);
    var hasTime := |timeColumns| > 0;
    if |scalarColumns| >= (if hasTime then 1 else 2) then
      var x := if hasTime then timeColumns[0].name else scalarColumns[0].name;
      var plotted := if hasTime then scalarColumns else scalarColumns[1..];
      Some(LegendOnlyStyle.(chart := Some(Chart(x, ChartLines(plotted)))))
    else None
  }

  /** Every chart line plots a scalar column, and exactly one line, the first, is selected. */
  lemma ChartLinesArePlottedScalars(cols: seq<Column>)
    requires DefaultChartStyle(cols).Some?
    ensures var lines := DefaultChartStyle(cols).value.chart.value.lines;
      |lines| >= 1 &&
      (forall i :: 0 <= i < |lines| ==> (lines[i].isSelectedInWorkbench <==> i == 0)) &&
      (forall i :: 0 <= i < |lines| ==> exists c :: c in cols && c.columnType == Scalar && c.name == lines[i].yAxisColumn)
  {
    var scalars := OfType(cols, Scalar);
    var plotted := if OfType(cols, Time) != [] then scalars else scalars[1..];
    forall i | 0 <= i < |plotted|
      ensures plotted[i] in cols && plotted[i].columnType == Scalar
    {
      assert plotted[i] in scalars;
    }
  }

  // ---------------------------------------------------------------------
  // defaultStyle

  /** `defaultStyle`: spatial when there is a region column or both a
      longitude and a latitude column; otherwise the chart style, if any;
      otherwise just the default legend. */
  function DefaultStyle(cols: seq<Column>): (r: Style)
    ensures var lon := FindFirstColumnByType(cols, Longitude);
      var lat := FindFirstColumnByType(cols, Latitude);
      var region := FindFirstColumnByType(cols, Region);
      var spatial := region.Some? || (lon.Some? && lat.Some?);
      (spatial ==> r.time.Some? && r.legend == Some(-1)) &&
      (r.longitudeColumn.Some? <==> spatial && lon.Some? && lat.Some?) &&
      (r.latitudeColumn.Some? <==> spatial && lon.Some? && lat.Some?) &&
      (spatial && lon.Some? && lat.Some? ==>
        r.longitudeColumn == Some(lon.value.name) && r.latitudeColumn == Some(lat.value.name)) &&
      (spatial ==> r.regionColumn == (if region.Some? then Some(region.value.name) else None)) &&
      (!spatial && DefaultChartStyle(cols).Some? ==> r == DefaultChartStyle(cols).value) &&
      (!spatial && DefaultChartStyle(cols).None? ==> r == LegendOnlyStyle)
    ensures r.time.Some? ==>
      var time := FindFirstColumnByType(cols, Time);
      var id := FindColumnByName(cols, DefaultIdColumn);
      r.time.value.timeColumn == (if time.Some? then Some(time.value.name) else None) &&
      (r.time.value.idColumns.Some? <==> time.Some? && id.Some?) &&
      (r.time.value.idColumns.Some? ==> r.time.value.idColumns.value == [DefaultIdColumn])
  {
    var lon := FindFirstColumnByType(cols, Longitude);
    var lat := FindFirstColumnByType(cols, Latitude);
    var region := FindFirstColumnByType(cols, Region);
    var time := FindFirstColumnByType(cols, Time);
    var idColumn := if time.Some? then FindColumnByName(cols, DefaultIdColumn) else None;
    if region.Some? || (lon.Some? && lat.Some?) then
      var both := lon.Some? && lat.Some?;
      EmptyStyle.(
        longitudeColumn := if both then Some(lon.value.name) else None,
        latitudeColumn := if both then Some(lat.value.name) else None,
        regionColumn := if region.Some? then Some(region.value.name) else None,
        time := Some(TimeStyle(
          if time.Some? then Some(time.value.name) else None,
          if idColumn.Some? then Some([idColumn.value.name]) else None)),
        legend := Some(-1))
    else
      match DefaultChartStyle(cols)
      case Some(chart) => chart
      case None => LegendOnlyStyle
  }

  /** A table with a region column is always spatial, whatever else it holds. */
  lemma RegionTableIsSpatial(cols: seq<Column>, i: nat)
    requires i < |cols| && cols[i].columnType == Region
    ensures DefaultStyle(cols).regionColumn.Some? && DefaultStyle(cols).chart.None?
  {
  }

  /** A table with neither a region column nor a coordinate pair charts its scalars. */
  lemma TwoScalarsChart(a: string, b: string)
    ensures var s := DefaultStyle([Column(a, Scalar), Column(b, Scalar)]);
      s.chart == Some(Chart(a, [ChartLine(b, true)]))
  {
    var cols := [Column(a, Scalar), Column(b, Scalar)];
    assert FindFirstColumnByType(cols, Region).None?;
    assert FindFirstColumnByType(cols, Longitude).None?;
    assert OfType(cols[1..], Time) == [];
    assert OfType(cols, Time) == [];
    assert OfType(cols[1..], Scalar) == [Column(b, Scalar)];
    assert OfType(cols, Scalar) == cols;
    assert OfType(cols, Scalar)[1..] == [Column(b, Scalar)];
    assert ChartLines([Column(b, Scalar)]) == [ChartLine(b, true)];
  }

  // ---------------------------------------------------------------------
  // styles

  /** Scalar and enum columns are styled; region columns only when there are none of those. */
  predicate HasScalarOrEnum(cols: seq<Column>) {
    exists i :: 0 <= i < |cols| && (cols[i].columnType == Scalar || cols[i].columnType == Enum)
  }

  /** `styles`: one style per column, in column order, named after the
      column, colouring and sizing by it, with legend index `i`. */
  function Styles(cols: seq<Column>): (r: seq<Style>)
    ensures |r| == |cols|
    ensures forall i :: 0 <= i < |cols| ==>
      r[i].id == Some(cols[i].name) && r[i].colorColumn == Some(cols[i].name) &&
      r[i].pointSizeColumn == Some(cols[i].name) && r[i].legend == Some(i)
    ensures forall i :: 0 <= i < |cols| && (cols[i].columnType == Scalar || cols[i].columnType == Enum) ==>
      r[i].hidden == Some(false)
    ensures forall i :: 0 <= i < |cols| && cols[i].columnType == Region ==>
      r[i].hidden == Some(HasScalarOrEnum(cols))
    ensures forall i :: 0 <= i < |cols| && cols[i].columnType !in {Scalar, Enum, Region} ==>
      r[i].hidden == Some(true)
  {
    var showRegionStyles := forall j :: 0 <= j < |cols| ==> cols[j].columnType != Scalar && cols[j].columnType != Enum;
    seq(|cols|, i requires 0 <= i < |cols| =>
      var t := cols[i].columnType;
      EmptyStyle.(
        id := Some(cols[i].name),
        colorColumn := Some(cols[i].name),
        legend := Some(i),
        pointSizeColumn := Some(cols[i].name),
        hidden := Some(t != Scalar && t != Enum && (t != Region || !showRegionStyles))))
  }

  /** A visible style exists exactly when some column is scalar, enum or (for want of those) region. */
  lemma SomeStyleVisible(cols: seq<Column>)
    ensures (exists i :: 0 <= i < |cols| && Styles(cols)[i].hidden == Some(false)) <==>
      HasScalarOrEnum(cols) || exists i :: 0 <= i < |cols| && cols[i].columnType == Region
  {
    var r := Styles(cols);
    if !HasScalarOrEnum(cols) && exists i :: 0 <= i < |cols| && cols[i].columnType == Region {
      var i :| 0 <= i < |cols| && cols[i].columnType == Region;
      assert r[i].hidden == Some(false);
    }
  }

  // ---------------------------------------------------------------------
  // ColorStyleLegend

  /** `ColorStyleLegend.tableStyle`: the style at `index` when the index is
      defined, not -1 and below the number of styles; otherwise the default
      style. A negative index other than -1 passes the test and reads
      `undefined`, here `None`. */
  function LegendTableStyle<S>(index: Option<int>, tableStyles: seq<S>, defaultStyle: S): (r: Option<S>)
    ensures index.None? || index.value == -1 || index.value >= |tableStyles| ==> r == Some(defaultStyle)
    ensures index.Some? && 0 <= index.value < |tableStyles| ==> r == Some(tableStyles[index.value])
    ensures index.Some? && index.value < -1 ==> r.None?
  {
    if index.Some? && index.value != -1 && index.value < |tableStyles| then
      if index.value >= 0 then Some(tableStyles[index.value]) else None
    else Some(defaultStyle)
  }

  /** Every legend `styles` creates reads its own column's style, and the
      default style's legend reads the default style. */
  lemma StyleLegendsReadOwnStyle<S>(cols: seq<Column>, tableStyles: seq<S>, defaultStyle: S)
    requires |tableStyles| == |cols|
    ensures forall i :: 0 <= i < |cols| ==>
      LegendTableStyle(Styles(cols)[i].legend, tableStyles, defaultStyle) == Some(tableStyles[i])
    ensures LegendTableStyle(DefaultStyle(cols).legend, tableStyles, defaultStyle) == Some(defaultStyle)
  {
  }

  // ---------------------------------------------------------------------
  // Enum legend

  datatype LegendItem = LegendItem(
    title: Option<string>,
    multipleTitles: Option<seq<string>>,
    color: string,
    addSpacingAbove: bool)

  /** The values of `values` whose colour is `color`, in order. */
  function ValuesOfColor(values: seq<string>, colors: seq<string>, color: string): (r: seq<string>)
    requires |values| <= |colors|
    ensures |r| <= |values|
    decreases |values|
  {
    if values == [] then []
    else
      var n := |values| - 1;
      ValuesOfColor(values[..n], colors, color) + (if colors[n] == color then [values[n]] else [])
  }

  /** No colour has two groups. */
  predicate DistinctColors(groups: seq<(string, seq<string>)>) {
    forall a, b :: 0 <= a < b < |groups| ==> groups[a].0 != groups[b].0
  }

  predicate HasGroup(groups: seq<(string, seq<string>)>, color: string) {
    exists k :: 0 <= k < |groups| && groups[k].0 == color
  }

  predicate UsesColor(values: seq<string>, colors: seq<string>, color: string)
    requires |values| <= |colors|
  {
    exists i :: 0 <= i < |values| && colors[i] == color
  }

  /** Add one value to the colour groups: to its colour's group when there
      is one, else as a new group at the end. */
  function AddToGroup(groups: seq<(string, seq<string>)>, color: string, value: string): (r: seq<(string, seq<string>)>)
    requires DistinctColors(groups)
    ensures DistinctColors(r)
    ensures HasGroup(groups, color) ==> |r| == |groups|
    ensures !HasGroup(groups, color) ==> |r| == |groups| + 1 && r[|groups|] == (color, [value])
    ensures forall k :: 0 <= k < |groups| ==> r[k].0 == groups[k].0
    ensures forall k :: 0 <= k < |groups| ==> r[k].1 == groups[k].1 + (if groups[k].0 == color then [value] else [])
    decreases |groups|
  {
    if groups == [] then [(color, [value])]
    else
      assert forall k :: 0 < k < |groups| ==> groups[k] == groups[1..][k - 1];
      if groups[0].0 == color then [(color, groups[0].1 + [value])] + groups[1..]
      else
        var rest := AddToGroup(groups[1..], color, value);
        [groups[0]] + rest
  }

  /** The `reduce` that groups the colour map's values by CSS colour; the
      groups keep the order in which their colours first appear. */
  function GroupByColor(values: seq<string>, colors: seq<string>): (r: seq<(string, seq<string>)>)
    requires |values| <= |colors|
    ensures DistinctColors(r)
    decreases |values|
  {
    if values == [] then []
    else
      var n := |values| - 1;
      AddToGroup(GroupByColor(values[..n], colors), colors[n], values[n])
  }

  predicate GroupsHoldValues(groups: seq<(string, seq<string>)>, values: seq<string>, colors: seq<string>)
    requires |values| <= |colors|
  {
    forall k :: 0 <= k < |groups| ==> groups[k].1 == ValuesOfColor(values, colors, groups[k].0)
  }

  /** Every group holds exactly the values of its colour, in order. */
  lemma {:induction false} GroupByColorContents(values: seq<string>, colors: seq<string>)
    requires |values| <= |colors|
    ensures GroupsHoldValues(GroupByColor(values, colors), values, colors)
    decreases |values|
  {
    if values != [] {
      var n := |values| - 1;
      var p := values[..n];
      GroupByColorContents(p, colors);
      var g0 := GroupByColor(p, colors);
      var g := AddToGroup(g0, colors[n], values[n]);
      assert g == GroupByColor(values, colors);
      assert GroupsHoldValues(g0, p, colors);
      forall k | 0 <= k < |g|
        ensures g[k].1 == ValuesOfColor(values, colors, g[k].0)
      {
        var c := g[k].0;
        assert ValuesOfColor(values, colors, c) ==
          ValuesOfColor(p, colors, c) + (if colors[n] == c then [values[n]] else []);
        if k == |g0| {
          GroupByColorCovers(p, colors);
          NoValuesOfColor(p, colors, colors[n]);
        } else {
          assert c == g0[k].0;
          assert g0[k].1 == ValuesOfColor(p, colors, c);
        }
      }
    }
  }

  lemma AddToGroupHas(groups: seq<(string, seq<string>)>, color: string, value: string, c: string)
    requires DistinctColors(groups)
    ensures HasGroup(AddToGroup(groups, color, value), c) <==> HasGroup(groups, c) || c == color
  {
    var r := AddToGroup(groups, color, value);
    if HasGroup(groups, c) {
      var k :| 0 <= k < |groups| && groups[k].0 == c;
      assert r[k].0 == c;
    }
    if c == color && HasGroup(groups, color) {
      var k :| 0 <= k < |groups| && groups[k].0 == c;
      assert r[k].0 == c;
    }
    if c == color && !HasGroup(groups, color) {
      assert r[|groups|].0 == c;
    }
  }

  lemma UsesColorExtend(values: seq<string>, colors: seq<string>, c: string)
    requires 0 < |values| <= |colors|
    ensures UsesColor(values, colors, c) <==>
      UsesColor(values[..|values| - 1], colors, c) || colors[|values| - 1] == c
  {
    if UsesColor(values[..|values| - 1], colors, c) {
      var i :| 0 <= i < |values| - 1 && colors[i] == c;
    }
  }

  /** The groups are those of the colours used, no more and no fewer. */
  lemma {:induction false} GroupByColorCovers(values: seq<string>, colors: seq<string>)
    requires |values| <= |colors|
    ensures forall c :: HasGroup(GroupByColor(values, colors), c) <==> UsesColor(values, colors, c)
    decreases |values|
  {
    if values != [] {
      var n := |values| - 1;
      var p := values[..n];
      GroupByColorCovers(p, colors);
      var g0 := GroupByColor(p, colors);
      forall c
        ensures HasGroup(GroupByColor(values, colors), c) <==> UsesColor(values, colors, c)
      {
        AddToGroupHas(g0, colors[n], values[n], c);
        UsesColorExtend(values, colors, c);
      }
    }
  }

  lemma {:induction false} NoValuesOfColor(values: seq<string>, colors: seq<string>, c: string)
    requires |values| <= |colors|
    requires !UsesColor(values, colors, c)
    ensures ValuesOfColor(values, colors, c) == []
    decreases |values|
  {
    if values != [] {
      NoValuesOfColor(values[..|values| - 1], colors, c);
    }
  }

  /** What the enum legend reads from the table style and its colour column. */
  datatype EnumLegendInput = EnumLegendInput(
    /** The colour map's values and, index by index, their CSS colours. */
    values: seq<string>,
    colors: seq<string>,
    /** Whether the style has a colour column, and what its unique values say. */
    hasColorColumn: bool,
    numberOfNulls: nat,
    uniqueValueCount: nat,
    nullColor: Option<string>,
    nullLabel: Option<string>)

  /** `a || b` on optional strings: the empty string is falsy. */
  function OrDefault(s: Option<string>, fallback: string): string {
    if s.Some? && s.value != "" then s.value else fallback
  }

  /** The item for values without a colour. */
  function NullBin(input: EnumLegendInput): LegendItem {
    LegendItem(Some(OrDefault(input.nullLabel, "(No value)")), None,
               OrDefault(input.nullColor, "rgba(0, 0, 0, 0)"), true)
  }

  /** `_createLegendItemsFromEnumColorMap`: one item per colour, then a
      null bin when the column has nulls or more unique values than the
      colour map has values. */
  function EnumLegendItems(input: EnumLegendInput): (r: seq<LegendItem>)
    requires |input.values| <= |input.colors|
    ensures var g := GroupByColor(input.values, input.colors);
      var nullBin := input.hasColorColumn &&
        (input.numberOfNulls > 0 || input.uniqueValueCount > |input.values|);
      |r| == |g| + (if nullBin then 1 else 0) &&
      (forall k :: 0 <= k < |g| ==> r[k] == LegendItem(None, Some(g[k].1), g[k].0, false)) &&
      (nullBin ==> r[|g|] == NullBin(input))
  {
    var g := GroupByColor(input.values, input.colors);
    var items := seq(|g|, k requires 0 <= k < |g| => LegendItem(None, Some(g[k].1), g[k].0, false));
    var nullBin :=
      if input.hasColorColumn && (input.numberOfNulls > 0 || input.uniqueValueCount > |input.values|) then
        [NullBin(input)]
      else [];
    items + nullBin
  }

  /** The colour items of the enum legend list every value exactly under
      its colour, and no colour twice. */
  lemma EnumLegendGroupsValues(input: EnumLegendInput)
    requires |input.values| <= |input.colors|
    ensures var r := EnumLegendItems(input);
      var g := GroupByColor(input.values, input.colors);
      (forall a, b :: 0 <= a < b < |g| ==> r[a].color != r[b].color) &&
      (forall k :: 0 <= k < |g| ==> r[k].multipleTitles == Some(ValuesOfColor(input.values, input.colors, r[k].color))) &&
      (forall i :: 0 <= i < |input.values| ==> exists k :: 0 <= k < |g| && r[k].color == input.colors[i])
  {
    GroupByColorContents(input.values, input.colors);
    GroupByColorCovers(input.values, input.colors);
    var g := GroupByColor(input.values, input.colors);
    forall i | 0 <= i < |input.values|
      ensures exists k :: 0 <= k < |g| && EnumLegendItems(input)[k].color == input.colors[i]
    {
      assert UsesColor(input.values, input.colors, input.colors[i]);
      var k :| 0 <= k < |g| && g[k].0 == input.colors[i];
      assert EnumLegendItems(input)[k].color == input.colors[i];
    }
  }

  /** Two values of one colour share one legend item. */
  lemma EnumLegendExample()
    ensures EnumLegendItems(EnumLegendInput(["a", "b", "c"], ["red", "blue", "red"], true, 0, 3, None, None)) ==
      [LegendItem(None, Some(["a", "c"]), "red", false), LegendItem(None, Some(["b"]), "blue", false)]
  {
    var values := ["a", "b", "c"];
    var colors := ["red", "blue", "red"];
    assert values[..2] == ["a", "b"];
    assert values[..2][..1] == ["a"];
    assert values[..2][..1][..0] == [];
    assert GroupByColor(["a"], colors) == [("red", ["a"])];
    assert !HasGroup([("red", ["a"])], "blue");
    assert GroupByColor(["a", "b"], colors) == [("red", ["a"]), ("blue", ["b"])];
    var g2 := [("red", ["a"]), ("blue", ["b"])];
    assert g2[1..] == [("blue", ["b"])];
    assert ["a"] + ["c"] == ["a", "c"];
    assert AddToGroup(g2, "red", "c") == [("red", ["a", "c"]), ("blue", ["b"])];
    assert GroupByColor(values, colors) == [("red", ["a", "c"]), ("blue", ["b"])];
  }
}
