/** The district page (`district_page`) and the state page (`state_page`) of
    analyzer/views.py: which rows they keep, the cluster labels the district page
    attaches, and when they fail. Rendering, charts and means are not modelled. */
module Views {
  import opened Tables
  import opened Strings
  import opened Listing
  import opened Storage
  import opened Clustering
  import opened Frames

  const Lat := "latitude"
  const Lon := "longitude"

  /** Python's `a or b` on two optional strings: `a` unless it is None or empty. */
  function Or(a: Option<string>, b: Option<string>): (r: Option<string>)
    ensures a.Some? && a.value != "" ==> r == a
    ensures (a.None? || a.value == "") ==> r == b
  {
    if a.Some? && a.value != "" then a else b
  }

  predicate Truthy(a: Option<string>) {
    a.Some? && a.value != ""
  }

  /** `request.GET.get(key)` */
  function Query(query: map<string, string>, key: string): Option<string> {
    if key in query then Some(query[key]) else None
  }

  /** The rows whose latitude and longitude both convert to numbers. */
  function Locatable(t: Table, number: string -> Option<Float>): seq<Line> {
    Filter(t.columns, t.rows, Both(Numeric(Lat, number), Numeric(Lon, number)))
  }

  /** Both coordinate columns through `pd.to_numeric(errors='coerce')`, then
      `dropna(subset=['latitude', 'longitude'])`: exactly the rows whose coordinates
      convert survive, in order, with their coordinates converted and every other field
      as it was. */
  function Located(t: Table, number: string -> Option<Float>): (r: Table)
    requires Lat in t.columns && Lon in t.columns
    ensures r.columns == t.columns
    ensures |r.rows| == |Locatable(t, number)|
    ensures forall i :: 0 <= i < |r.rows| ==>
              && Get(r.columns, r.rows[i], Lat) == ToNumeric(Get(t.columns, Locatable(t, number)[i], Lat), number)
              && Get(r.columns, r.rows[i], Lon) == ToNumeric(Get(t.columns, Locatable(t, number)[i], Lon), number)
    ensures forall i, c :: 0 <= i < |r.rows| && c != Lat && c != Lon ==>
              Get(r.columns, r.rows[i], c) == Get(t.columns, Locatable(t, number)[i], c)
    ensures forall i :: 0 <= i < |r.rows| ==>
              !IsNA(Get(r.columns, r.rows[i], Lat)) && !IsNA(Get(r.columns, r.rows[i], Lon))
  {
    var cols := t.columns;
    var kLat, kLon := Find(cols, Lat).value, Find(cols, Lon).value;
    var rows := Filter(cols, Twice(cols, t.rows, kLat, kLon, number), Present([Lat, Lon]));
    FilterMembers(cols, Twice(cols, t.rows, kLat, kLon, number), Present([Lat, Lon]));
    LocatedRows(t, number);
    var kept := Locatable(t, number);
    assert forall i :: 0 <= i < |rows| ==> rows[i] == ConvertRow(cols, ConvertRow(cols, kept[i], kLat, ToNumber(number)), kLon, ToNumber(number));
    forall i, c | 0 <= i < |rows|
      ensures Get(cols, rows[i], c) == if c == Lat || c == Lon then ToNumeric(Get(cols, kept[i], c), number) else Get(cols, kept[i], c)
    {
      TwiceReads(cols, kept[i], number, c);
    }
    forall i | 0 <= i < |rows|
      ensures !IsNA(Get(cols, rows[i], Lat)) && !IsNA(Get(cols, rows[i], Lon))
    {
      assert rows[i] in rows;
      assert Holds(cols, Present([Lat, Lon]), rows[i]);
      assert Lat in [Lat, Lon] && Lon in [Lat, Lon];
    }
    Table(cols, rows)
  }

  /** Both coordinate conversions, row by row. */
  function Twice(cols: seq<string>, rows: seq<Line>, kLat: nat, kLon: nat, number: string -> Option<Float>): seq<Line>
    requires kLat < |cols| && kLon < |cols|
  {
    ConvertRows(cols, ConvertRows(cols, rows, kLat, ToNumber(number)), kLon, ToNumber(number))
  }

  /** Reading a row after both conversions. */
  lemma TwiceReads(cols: seq<string>, line: Line, number: string -> Option<Float>, c: string)
    requires Lat in cols && Lon in cols
    ensures var once := ConvertRow(cols, line, Find(cols, Lat).value, ToNumber(number));
            Get(cols, ConvertRow(cols, once, Find(cols, Lon).value, ToNumber(number)), c)
            == if c == Lat || c == Lon then ToNumeric(Get(cols, line, c), number) else Get(cols, line, c)
  {
    var once := ConvertRow(cols, line, Find(cols, Lat).value, ToNumber(number));
    GetConverted(cols, line, Lat, c, ToNumber(number));
    GetConverted(cols, once, Lon, c, ToNumber(number));
  }

  /** Dropping the rows without both converted coordinates keeps the converted
      locatable rows. */
  lemma LocatedRows(t: Table, number: string -> Option<Float>)
    requires Lat in t.columns && Lon in t.columns
    ensures var kLat, kLon := Find(t.columns, Lat).value, Find(t.columns, Lon).value;
            Filter(t.columns, Twice(t.columns, t.rows, kLat, kLon, number), Present([Lat, Lon]))
            == Twice(t.columns, Locatable(t, number), kLat, kLon, number)
  {
    var conv := ToNumber(number);
    var cols := t.columns;
    var kLat, kLon := Find(cols, Lat).value, Find(cols, Lon).value;
    var a := ConvertRows(cols, t.rows, kLat, conv);
    var middle := Both(Present([Lat]), Numeric(Lon, number));
    forall l: Line ensures Holds(cols, Present([Lat, Lon]), ConvertRow(cols, l, kLon, conv)) <==> Holds(cols, middle, l) {
      GetConverted(cols, l, Lon, Lat, conv);
      GetConverted(cols, l, Lon, Lon, conv);
    }
    forall l: Line ensures Holds(cols, middle, ConvertRow(cols, l, kLat, conv))
                       <==> Holds(cols, Both(Numeric(Lat, number), Numeric(Lon, number)), l) {
      GetConverted(cols, l, Lat, Lat, conv);
      GetConverted(cols, l, Lat, Lon, conv);
    }
    FilterConverted(cols, a, kLon, conv, middle, Present([Lat, Lon]));
    FilterConverted(cols, t.rows, kLat, conv, Both(Numeric(Lat, number), Numeric(Lon, number)), middle);
  }

  /** The cluster labels of the surviving rows: the saved model's parameters refitted on
      them when a model is saved and there is a point, otherwise 0 for every row. */
  function ClusterLabels(located: Table, saved: Option<ClusterModel>, dbscan: Clusterer): (r: seq<int>)
    ensures |r| == |located.rows|
    ensures (saved.None? || located.rows == []) ==> forall i :: 0 <= i < |r| ==> r[i] == 0
    ensures saved.Some? && located.rows != [] ==> r == Labels(dbscan, saved.value.params, Points(located))
  {
    if saved.Some? && |Points(located)| > 0 then Labels(dbscan, saved.value.params, Points(located))
    else seq(|located.rows|, i => 0)
  }

  /** The columns `map_data` is cut from. */
  const MapColumns: seq<string> := [Lat, Lon, "Date", "Time", "Accident_Severity", "Road_Type", "cluster"]

  /** `df[c].mode()[0]` raises when the column has rows but no value at all. */
  predicate ModeFails(t: Table, c: string) {
    t.rows != [] && forall i :: 0 <= i < |t.rows| ==> IsNA(Get(t.columns, t.rows[i], c))
  }

  /** The columns the district page reads once the labels are attached: those of
      `map_data` other than `cluster`, and the weather chart's. */
  predicate HasHotspotColumns(cols: seq<string>) {
    && Lat in cols && Lon in cols && "Date" in cols && "Time" in cols
    && "Accident_Severity" in cols && "Road_Type" in cols && "Weather_Conditions" in cols
  }

  /** What raises once the labels are attached: cutting `map_data` from a column that
      does not exist (`KeyError`), the mode of a column with rows but no value
      (`IndexError`), or the weather chart of a missing column (`KeyError`). */
  predicate HotspotFails(table: Table) {
    || (exists c :: c in MapColumns && c !in table.columns)
    || ModeFails(table, "Time") || ModeFails(table, "Road_Type")
    || "Weather_Conditions" !in table.columns
  }

  /** Attaching `cluster` adds the one column `map_data` needs besides the file's own,
      and changes neither `Time` nor `Road_Type`. */
  lemma LabelledFails(located: Table, cells: seq<Cell>)
    requires |cells| == |located.rows|
    ensures HotspotFails(SetColumn(located, "cluster", cells))
        <==> !HasHotspotColumns(located.columns) || ModeFails(located, "Time") || ModeFails(located, "Road_Type")
  {
    LabelledColumns(located, cells);
    LabelledModes(located, cells, "Time");
    LabelledModes(located, cells, "Road_Type");
  }

  lemma LabelledColumns(located: Table, cells: seq<Cell>)
    requires |cells| == |located.rows|
    ensures var table := SetColumn(located, "cluster", cells);
            (exists c :: c in MapColumns && c !in table.columns) || "Weather_Conditions" !in table.columns
            <==> !HasHotspotColumns(located.columns)
  {
    var cols := located.columns;
    var tc := SetColumn(located, "cluster", cells).columns;
    assert tc == cols || tc == cols + ["cluster"];
    assert forall c :: c in tc <==> c in cols || c == "cluster";
    if Lat !in cols { assert Lat in MapColumns && Lat !in tc; }
    else if Lon !in cols { assert Lon in MapColumns && Lon !in tc; }
    else if "Date" !in cols { assert "Date" in MapColumns && "Date" !in tc; }
    else if "Time" !in cols { assert "Time" in MapColumns && "Time" !in tc; }
    else if "Accident_Severity" !in cols { assert "Accident_Severity" in MapColumns && "Accident_Severity" !in tc; }
    else if "Road_Type" !in cols { assert "Road_Type" in MapColumns && "Road_Type" !in tc; }
  }

  lemma LabelledModes(located: Table, cells: seq<Cell>, d: string)
    requires |cells| == |located.rows| && d != "cluster"
    ensures ModeFails(SetColumn(located, "cluster", cells), d) <==> ModeFails(located, d)
  {
    var table := SetColumn(located, "cluster", cells);
    assert forall i :: 0 <= i < |table.rows| ==> Get(table.columns, table.rows[i], d) == Get(located.columns, located.rows[i], d);
  }

  /** `df.empty`: no rows, or no columns. */
  predicate Empty(t: Table) {
    t.rows == [] || t.columns == []
  }

  /** What the district page shows for one district: nothing (`data_loaded` stays
      false), an uncaught exception, or the hotspot table and `total_accidents`. */
  datatype Hotspot = NoData | Failed | Hotspots(table: Table, total: nat)

  /** The hotspot part of the district page for one district file. */
  function HotspotView(file: Loaded, saved: Option<ClusterModel>, number: string -> Option<Float>,
                        dbscan: Clusterer): (v: Hotspot)
    ensures file.NotFound? || (file.Read? && Empty(file.table)) ==> v == NoData
    ensures file.Unreadable? ==> v == Failed
    ensures file.Read? && !Empty(file.table) ==> v.Hotspots? || v == Failed
    ensures file.Read? && !Empty(file.table) ==>
              (v.Hotspots? <==> && HasHotspotColumns(file.table.columns)
                                && !ModeFails(Located(file.table, number), "Time")
                                && !ModeFails(Located(file.table, number), "Road_Type"))
    ensures v.Hotspots? ==> file.Read? && Lat in file.table.columns && Lon in file.table.columns
    ensures v.Hotspots? ==>
              var t := file.table;
              var located := Located(t, number);
              var labels := ClusterLabels(located, saved, dbscan);
              && v.total == |v.table.rows| == |located.rows| == Count(t.columns, t.rows, Both(Numeric(Lat, number), Numeric(Lon, number)))
              && (forall i :: 0 <= i < v.total ==> Get(v.table.columns, v.table.rows[i], "cluster") == Some(Num(Finite(labels[i] as real))))
              && (forall i, c :: 0 <= i < v.total && c != "cluster" ==>
                    Get(v.table.columns, v.table.rows[i], c) == Get(located.columns, located.rows[i], c))
  {
    match file
    case NotFound => NoData
    case Unreadable => Failed
    case Read(t) =>
      if Empty(t) then NoData
      else if Lat !in t.columns || Lon !in t.columns then Failed
      else
        var located := Located(t, number);
        var cells := LabelCells(ClusterLabels(located, saved, dbscan));
        var table := SetColumn(located, "cluster", cells);
        LabelledFails(located, cells);
        if HotspotFails(table) then Failed
        else Hotspots(table, |table.rows|)
  }

  /** The template context of the district page. */
  datatype DistrictContext = DistrictContext(
    allStates: seq<string>,
    availableDistricts: seq<string>,
    selectedState: Option<string>,
    selectedDistrict: Option<string>,
    view: Hotspot)

  /** `district_page(request, state_name, district_name)`. The states directory
      listing and the listings of the district directories (a missing directory has no
      entry) stand for `os.listdir`. */
  method DistrictPage(stateName: Option<string>, districtName: Option<string>, query: map<string, string>,
                      statesListing: Option<seq<string>>, districtListings: map<string, seq<string>>,
                      files: Files, saved: Option<ClusterModel>, number: string -> Option<Float>,
                      dbscan: Clusterer)
    returns (ctx: DistrictContext)
    ensures ctx.allStates == CsvNames(statesListing)
    ensures ctx.selectedState == Or(stateName, Query(query, "state_select"))
    ensures ctx.selectedDistrict == Or(districtName, Query(query, "district_select"))
    ensures Truthy(ctx.selectedState) ==>
              var st := ctx.selectedState.value;
              ctx.availableDistricts == CsvNames(if st in districtListings then Some(districtListings[st]) else None)
    ensures !Truthy(ctx.selectedState) ==> ctx.availableDistricts == []
    ensures !(Truthy(ctx.selectedState) && Truthy(ctx.selectedDistrict)) ==> ctx.view == NoData
    ensures Truthy(ctx.selectedState) && Truthy(ctx.selectedDistrict) ==>
              ctx.view == HotspotView(LoadData(files, DistrictCsv(ctx.selectedState.value, ctx.selectedDistrict.value)),
                                       saved, number, dbscan)
  {
    var allStates := CsvNames(statesListing);
    var selectedState := Or(stateName, Query(query, "state_select"));
    var availableDistricts := [];
    if Truthy(selectedState) {
      var st := selectedState.value;
      availableDistricts := CsvNames(if st in districtListings then Some(districtListings[st]) else None);
    }
    var selectedDistrict := Or(districtName, Query(query, "district_select"));
    var view := NoData;
    if Truthy(selectedState) && Truthy(selectedDistrict) {
      var file := LoadData(files, DistrictCsv(selectedState.value, selectedDistrict.value));
      if file.Unreadable? {
        view := Failed;
      } else if file.Read? && !Empty(file.table) {
        view := FindHotspots(file.table, saved, number, dbscan);
      }
    }
    ctx := DistrictContext(allStates, availableDistricts, selectedState, selectedDistrict, view);
  }

  /** The part of the district page that works on the loaded table in place. */
  method FindHotspots(t: Table, saved: Option<ClusterModel>, number: string -> Option<Float>, dbscan: Clusterer)
    returns (v: Hotspot)
    requires !Empty(t)
    ensures v == HotspotView(Read(t), saved, number, dbscan)
  {
    if Lat !in t.columns || Lon !in t.columns {
      return Failed;
    }
    var df := new Frame(t);
    df.Convert(Lat, ToNumber(number));
    df.Convert(Lon, ToNumber(number));
    df.DropMissing([Lat, Lon]);
    assert df.View() == Located(t, number);
    var coords := Points(df.View());
    var labels: seq<int>;
    if saved.Some? && |coords| > 0 {
      labels := Labels(dbscan, saved.value.params, coords);
    } else {
      labels := seq(|df.rows|, i => 0);
    }
    df.Assign("cluster", LabelCells(labels));
    var table := df.View();
    if HotspotFails(table) {
      return Failed;
    }
    return Hotspots(table, |df.rows|);
  }

  /** Every district page that shows hotspots has one integer label per surviving row,
      and all of them are 0 when no model is saved. */
  lemma FallbackLabelsAreZero(file: Loaded, number: string -> Option<Float>, dbscan: Clusterer)
    requires HotspotView(file, None, number, dbscan).Hotspots?
    ensures var v := HotspotView(file, None, number, dbscan);
            forall i :: 0 <= i < v.total ==> Get(v.table.columns, v.table.rows[i], "cluster") == Some(Num(Finite(0.0)))
  {
    var v := HotspotView(file, None, number, dbscan);
    var located := Located(file.table, number);
    var labels := ClusterLabels(located, None, dbscan);
    forall i | 0 <= i < v.total ensures Get(v.table.columns, v.table.rows[i], "cluster") == Some(Num(Finite(0.0))) {
      assert labels[i] == 0;
    }
  }

  const DistrictCol := "District"

  /** `df_full` after the conversions at the top of the state page: both coordinates
      to numbers, `Date` to timestamps, `District` to text (the cell-by-cell facts are
      `StateTableCells`). */
  function StateTable(t: Table, parsers: Parsers): (r: Table)
    requires Lat in t.columns && Lon in t.columns && "Date" in t.columns && DistrictCol in t.columns
    ensures r.columns == t.columns && |r.rows| == |t.rows|
    ensures forall i :: 0 <= i < |t.rows| ==>
              Get(r.columns, r.rows[i], DistrictCol) == Some(Text(AsText(Get(t.columns, t.rows[i], DistrictCol), parsers.show)))
  {
    var a := ConvertColumn(t, Lat, ToNumber(parsers.number));
    var b := ConvertColumn(a, Lon, ToNumber(parsers.number));
    var c := ConvertColumn(b, "Date", ToDate(parsers.date));
    ConvertColumn(c, DistrictCol, ToText(parsers.show))
  }

  /** Cell by cell, the converted state table holds each coordinate as a number, `Date`
      as a timestamp or NaT, `District` as its text, and every other field unchanged. */
  lemma StateTableCells(t: Table, parsers: Parsers, i: nat, d: string)
    requires Lat in t.columns && Lon in t.columns && "Date" in t.columns && DistrictCol in t.columns
    requires i < |t.rows|
    ensures var r := StateTable(t, parsers);
            var x := Get(t.columns, t.rows[i], d);
            Get(r.columns, r.rows[i], d)
              == if d == Lat || d == Lon then ToNumeric(x, parsers.number)
                 else if d == "Date" then Convert(ToDate(parsers.date), x)
                 else if d == DistrictCol then Some(Text(AsText(x, parsers.show)))
                 else x
  {
    var a := ConvertColumn(t, Lat, ToNumber(parsers.number));
    var b := ConvertColumn(a, Lon, ToNumber(parsers.number));
    var c := ConvertColumn(b, "Date", ToDate(parsers.date));
    var r := ConvertColumn(c, DistrictCol, ToText(parsers.show));
    assert Get(a.columns, a.rows[i], d) == if d == Lat then ToNumeric(Get(t.columns, t.rows[i], d), parsers.number) else Get(t.columns, t.rows[i], d);
    assert Get(b.columns, b.rows[i], d) == if d == Lon then ToNumeric(Get(a.columns, a.rows[i], d), parsers.number) else Get(a.columns, a.rows[i], d);
    assert Get(c.columns, c.rows[i], d) == if d == "Date" then Convert(ToDate(parsers.date), Get(b.columns, b.rows[i], d)) else Get(b.columns, b.rows[i], d);
    assert Get(r.columns, r.rows[i], d) == if d == DistrictCol then Convert(ToText(parsers.show), Get(c.columns, c.rows[i], d)) else Get(c.columns, c.rows[i], d);
  }

  /** The district names as `astype(str)` writes them, row by row. */
  function DistrictNames(t: Table, show: Float -> string): (r: seq<string>)
    ensures |r| == |t.rows|
    ensures forall i :: 0 <= i < |t.rows| ==> r[i] == AsText(Get(t.columns, t.rows[i], DistrictCol), show)
  {
    seq(|t.rows|, i requires 0 <= i < |t.rows| => AsText(Get(t.columns, t.rows[i], DistrictCol), show))
  }

  /** `sorted(df_full['District'].unique())` */
  function AvailableDistricts(t: Table, show: Float -> string): (r: seq<string>)
    ensures Sorted(r) && NoDuplicates(r)
    ensures forall d :: d in r <==> d in DistrictNames(t, show)
  {
    var names := Distinct(DistrictNames(t, show));
    PermutationNoDuplicates(names, Sort(names));
    assert forall d :: d in Sort(names) <==> d in multiset(names);
    Sort(names)
  }

  /** The district filter: everything when it is empty, otherwise exactly the rows whose
      `District` text equals it, in their original order. */
  function DistrictFilter(df: Table, selected: string): (r: Table)
    ensures r.columns == df.columns
    ensures selected == "" ==> r == df
    ensures selected != "" ==> r.rows == Filter(df.columns, df.rows, Key([DistrictCol], [Some(Text(selected))]))
    ensures selected != "" ==> forall i :: 0 <= i < |r.rows| ==> Get(r.columns, r.rows[i], DistrictCol) == Some(Text(selected))
  {
    if selected == "" then df
    else
      var key := Key([DistrictCol], [Some(Text(selected))]);
      var rows := Filter(df.columns, df.rows, key);
      FilterMembers(df.columns, df.rows, key);
      assert forall i :: 0 <= i < |rows| ==> Get(df.columns, rows[i], DistrictCol) == Some(Text(selected)) by {
        forall i | 0 <= i < |rows| ensures Get(df.columns, rows[i], DistrictCol) == Some(Text(selected)) {
          assert rows[i] in rows;
          assert KeyOf(df.columns, rows[i], [DistrictCol])[0] == Some(Text(selected));
        }
      }
      Table(df.columns, rows)
  }

  /** What the state page shows: `Http404`, an uncaught exception, or the page. */
  datatype StateView = NoState | StateFailed | StateShown(districts: seq<string>, selected: string, table: Table)

  /** The columns the state page reads: the four it converts, the two charts it always
      draws, and `Road_Type` for the chart of a selected district. */
  predicate HasStateColumns(cols: seq<string>, selected: string) {
    && Lat in cols && Lon in cols && "Date" in cols && DistrictCol in cols
    && "Accident_Severity" in cols && "Weather_Conditions" in cols
    && (selected != "" ==> "Road_Type" in cols)
  }

  /** The state page for one state file and one `district_filter` value. */
  function StatePageView(file: Loaded, selected: string, parsers: Parsers): (v: StateView)
    ensures file.NotFound? ==> v == NoState
    ensures file.Unreadable? ==> v == StateFailed
    ensures file.Read? ==> v.StateShown? || v == StateFailed
    ensures v.StateShown? <==> file.Read? && HasStateColumns(file.table.columns, selected)
    ensures v.StateShown? ==> file.Read? && v.selected == selected
    ensures v.StateShown? ==>
              && v.table == DistrictFilter(StateTable(file.table, parsers), selected)
              && v.districts == AvailableDistricts(file.table, parsers.show)
    ensures v.StateShown? ==>
              var t := file.table;
              && (forall d :: d in v.districts <==> d in DistrictNames(t, parsers.show))
              && Sorted(v.districts) && NoDuplicates(v.districts)
              && (selected == "" ==> |v.table.rows| == |t.rows|)
              && (selected != "" ==> |v.table.rows| == Count(t.columns, t.rows, Shown(DistrictCol, selected, parsers.show)))
              && (selected != "" ==> forall i :: 0 <= i < |v.table.rows| ==>
                    Get(v.table.columns, v.table.rows[i], DistrictCol) == Some(Text(selected)))
  {
    match file
    case NotFound => NoState
    case Unreadable => StateFailed
    case Read(t) =>
      if Lat !in t.columns || Lon !in t.columns || "Date" !in t.columns || DistrictCol !in t.columns then StateFailed
      else
        var df := StateTable(t, parsers);
        var shown := DistrictFilter(df, selected);
        if "Accident_Severity" !in t.columns || "Weather_Conditions" !in t.columns
           || (selected != "" && "Road_Type" !in t.columns)
        then StateFailed
        else
          FilterCountsShown(t, selected, parsers);
          StateShown(AvailableDistricts(t, parsers.show), selected, shown)
  }

  /** Filtering the converted table by the district text counts the rows of the file
      whose district reads as that text. */
  lemma FilterCountsShown(t: Table, selected: string, parsers: Parsers)
    requires Lat in t.columns && Lon in t.columns && "Date" in t.columns && DistrictCol in t.columns
    ensures var df := StateTable(t, parsers);
            Count(df.columns, df.rows, Key([DistrictCol], [Some(Text(selected))]))
            == Count(t.columns, t.rows, Shown(DistrictCol, selected, parsers.show))
  {
    var df := StateTable(t, parsers);
    var key := Key([DistrictCol], [Some(Text(selected))]);
    forall i | 0 <= i < |t.rows|
      ensures Holds(df.columns, key, df.rows[i]) <==> Holds(t.columns, Shown(DistrictCol, selected, parsers.show), t.rows[i])
    {
      var k := KeyOf(df.columns, df.rows[i], [DistrictCol]);
      assert k == [k[0]];
    }
    CountAligned(df.columns, df.rows, key, t.columns, t.rows, Shown(DistrictCol, selected, parsers.show));
  }

  /** `state_page(request, state_name)`: the conversions are made on `df_full` in
      place. */
  method StatePage(stateName: string, query: map<string, string>, files: Files, parsers: Parsers)
    returns (v: StateView)
    ensures v == StatePageView(LoadData(files, StateCsv(stateName)),
                               if "district_filter" in query then query["district_filter"] else "", parsers)
  {
    var file := LoadData(files, StateCsv(stateName));
    if file.NotFound? {
      return NoState;
    }
    if file.Unreadable? {
      return StateFailed;
    }
    var t := file.table;
    if Lat !in t.columns || Lon !in t.columns || "Date" !in t.columns || DistrictCol !in t.columns {
      return StateFailed;
    }
    var dfFull := new Frame(t);
    dfFull.Convert(Lat, ToNumber(parsers.number));
    dfFull.Convert(Lon, ToNumber(parsers.number));
    dfFull.Convert("Date", ToDate(parsers.date));
    dfFull.Convert(DistrictCol, ToText(parsers.show));
    assert dfFull.View() == StateTable(t, parsers);
    var available := AvailableDistricts(t, parsers.show);
    var selected := if "district_filter" in query then query["district_filter"] else "";
    var df := DistrictFilter(dfFull.View(), selected);
    if "Accident_Severity" !in t.columns || "Weather_Conditions" !in t.columns || (selected != "" && "Road_Type" !in t.columns) {
      return StateFailed;
    }
    return StateShown(available, selected, df);
  }
}
