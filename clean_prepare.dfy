/** analyzer/ml/clean_and_prepare.py: drop the empty columns and rows of the merged
    accident table, keep eleven columns, parse the dates day first and drop the rows
    whose date does not parse, and decode four categorical code columns. */
module CleanPrepare {
  import opened Tables
  import opened Frames

  /** The columns kept, in this order. */
  const Selected: seq<string> := ["Accident_Index", "Date", "Time", "latitude", "longitude",
    "Accident_Severity", "Number_of_Vehicles", "Number_of_Casualties",
    "Road_Type", "Weather_Conditions", "Light_Conditions"]

  const SeverityCodes: map<int, string> := map[1 := "Fatal", 2 := "Serious injury", 3 := "Minor injury"]

  const RoadTypeCodes: map<int, string> := map[
    1 := "Roundabout", 2 := "One way street", 3 := "Dual carriageway", 6 := "Single carriageway",
    7 := "Slip road", 9 := "Unknown", 12 := "One way street", -1 := "Data missing"]

  const WeatherCodes: map<int, string> := map[
    1 := "Fine no high winds", 2 := "Raining no high winds", 3 := "Snowing no high winds",
    4 := "Fine + high winds", 5 := "Raining + high winds", 6 := "Snowing + high winds",
    7 := "Fog or mist", 8 := "Other", 9 := "Unknown"]

  const LightCodes: map<int, string> := map[
    1 := "Daylight", 4 := "Darkness - lights lit", 5 := "Darkness - lights unlit",
    6 := "Darkness - no lighting", 7 := "Darkness - lighting unknown"]

  /** `Series.map(codes)` on one cell: the label of a whole-number code in the table,
      missing for anything else. */
  lemma {:induction false} DecodeRange(codes: map<int, string>, c: Cell)
    ensures var r := Convert(Lookup(codes), c);
            r.None? || (r.value.Text? && r.value.s in codes.Values)
    ensures WholeNumber(c).Some? && WholeNumber(c).value in codes ==>
              Convert(Lookup(codes), c) == Some(Text(codes[WholeNumber(c).value]))
    ensures (WholeNumber(c).None? || WholeNumber(c).value !in codes) ==> Convert(Lookup(codes), c) == None
  {
    var n := WholeNumber(c);
    if n.Some? && n.value in codes {
      assert codes[n.value] in codes.Values;
    }
  }

  /** A code stored as a number; `2.0` is the code 2. */
  function Code(n: int): Cell {
    Some(Num(Finite(n as real)))
  }

  lemma WholeNumberOfCode(n: int)
    ensures WholeNumber(Code(n)) == Some(n)
  {
    assert (n as real).Floor == n;
  }

  /** Severity 1, 2, 3 are fatal, serious and minor; every other value is missing. */
  lemma SeverityDecoding(c: Cell)
    ensures Convert(Lookup(SeverityCodes), Code(1)) == Some(Text("Fatal"))
    ensures Convert(Lookup(SeverityCodes), Code(2)) == Some(Text("Serious injury"))
    ensures Convert(Lookup(SeverityCodes), Code(3)) == Some(Text("Minor injury"))
    ensures (WholeNumber(c).None? || WholeNumber(c).value !in {1, 2, 3}) ==> Convert(Lookup(SeverityCodes), c) == None
  {
    WholeNumberOfCode(1);
    WholeNumberOfCode(2);
    WholeNumberOfCode(3);
    DecodeRange(SeverityCodes, c);
  }

  /** Road types 2 and 12 both decode to "One way street", so the decoding loses
      information; -1 is "Data missing"; codes outside the table are missing. */
  lemma RoadTypeNotInjective(c: Cell)
    ensures Convert(Lookup(RoadTypeCodes), Code(2)) == Convert(Lookup(RoadTypeCodes), Code(12)) == Some(Text("One way street"))
    ensures Convert(Lookup(RoadTypeCodes), Code(-1)) == Some(Text("Data missing"))
    ensures (WholeNumber(c).None? || WholeNumber(c).value !in {1, 2, 3, 6, 7, 9, 12, -1}) ==>
              Convert(Lookup(RoadTypeCodes), c) == None
  {
    WholeNumberOfCode(2);
    WholeNumberOfCode(12);
    WholeNumberOfCode(-1);
    DecodeRange(RoadTypeCodes, c);
  }

  /** Light codes outside {1, 4, 5, 6, 7} are missing. */
  lemma LightDecoding(c: Cell)
    ensures (WholeNumber(c).None? || WholeNumber(c).value !in {1, 4, 5, 6, 7}) ==> Convert(Lookup(LightCodes), c) == None
    ensures Convert(Lookup(LightCodes), Code(1)) == Some(Text("Daylight"))
  {
    WholeNumberOfCode(1);
    DecodeRange(LightCodes, c);
  }

  /** Weather codes 1 to 9 decode to nine different labels, so weather decoding loses
      nothing. */
  lemma WeatherInjective(a: Cell, b: Cell)
    requires WholeNumber(a).Some? && WholeNumber(b).Some? && WholeNumber(a) != WholeNumber(b)
    requires Convert(Lookup(WeatherCodes), a).Some?
    ensures WeatherCodes.Keys == {1, 2, 3, 4, 5, 6, 7, 8, 9}
    ensures Convert(Lookup(WeatherCodes), a) != Convert(Lookup(WeatherCodes), b)
  {
    DecodeRange(WeatherCodes, a);
    DecodeRange(WeatherCodes, b);
  }

  /** Dropping the empty columns keeps every value of every row: a column goes only
      when no row has a value in it. */
  lemma DropEmptyColumnsKeepsValues(t: Table, i: nat, k: nat)
    requires i < |t.rows| && k < |t.columns| && !IsNA(At(t.rows[i], k))
    ensures var ks := DataPositions(t, 0);
            exists j :: 0 <= j < |ks| && ks[j] == k && DropEmptyColumns(t).rows[i][j] == t.rows[i][k]
  {
    var ks := DataPositions(t, 0);
    assert k in ks;
    var j :| 0 <= j < |ks| && ks[j] == k;
    assert DropEmptyColumns(t).rows[i][j] == At(t.rows[i], k);
  }

  /** After the empty columns go, a row has a value exactly when it had one before. */
  lemma AnyValueAfterColumns(t: Table, i: nat)
    requires i < |t.rows|
    ensures var a := DropEmptyColumns(t);
            Holds(a.columns, AnyValue, a.rows[i]) <==> Holds(t.columns, AnyValue, t.rows[i])
  {
    var a := DropEmptyColumns(t);
    var ks := DataPositions(t, 0);
    if Holds(t.columns, AnyValue, t.rows[i]) {
      var k :| 0 <= k < |t.columns| && !IsNA(At(t.rows[i], k));
      DropEmptyColumnsKeepsValues(t, i, k);
      var j :| 0 <= j < |ks| && ks[j] == k && a.rows[i][j] == t.rows[i][k];
      assert !IsNA(At(a.rows[i], j));
    }
    if Holds(a.columns, AnyValue, a.rows[i]) {
      var j :| 0 <= j < |a.columns| && !IsNA(At(a.rows[i], j));
      assert At(a.rows[i], j) == At(t.rows[i], ks[j]);
    }
  }

  /** So the two drops together keep as many rows as the input has rows with some value. */
  lemma BlankRowsAfterColumns(t: Table)
    ensures var a := DropEmptyColumns(t);
            Count(a.columns, a.rows, AnyValue) == Count(t.columns, t.rows, AnyValue)
  {
    var a := DropEmptyColumns(t);
    forall i | 0 <= i < |t.rows|
      ensures Holds(a.columns, AnyValue, a.rows[i]) <==> Holds(t.columns, AnyValue, t.rows[i])
    {
      AnyValueAfterColumns(t, i);
    }
    CountAligned(a.columns, a.rows, AnyValue, t.columns, t.rows, AnyValue);
  }

  /** `x` is the line `y` cut down to the fields at positions `ks`. */
  predicate CutTo(x: Line, y: Line, ks: seq<nat>) {
    |x| == |ks| && forall j :: 0 <= j < |ks| ==> x[j] == At(y, ks[j])
  }

  /** The columns the decodings and the date parse work on. */
  predicate HasCodeColumns(cols: seq<string>) {
    "Accident_Severity" in cols && "Road_Type" in cols && "Weather_Conditions" in cols && "Light_Conditions" in cols
  }

  lemma SelectedColumns()
    ensures HasCodeColumns(Selected) && "Date" in Selected
  {
    assert Selected[1] == "Date" && Selected[5] == "Accident_Severity" && Selected[8] == "Road_Type";
    assert Selected[9] == "Weather_Conditions" && Selected[10] == "Light_Conditions";
  }

  /** The two `dropna(how='all')` steps: the rows with some value survive, and there
      are as many of them as the input has. */
  function NonBlank(t: Table): (r: Table)
    ensures r.columns == DropEmptyColumns(t).columns
    ensures |r.rows| == Count(t.columns, t.rows, AnyValue)
  {
    BlankRowsAfterColumns(t);
    Where(DropEmptyColumns(t), AnyValue)
  }

  /** Row i of the result is the i-th input row that has a value, in input order, cut
      down to the columns that hold a value somewhere and otherwise unchanged. */
  lemma NonBlankRows(t: Table)
    ensures var r := NonBlank(t);
            var nb := Filter(t.columns, t.rows, AnyValue);
            && |r.rows| == |nb|
            && forall i :: 0 <= i < |nb| ==> nb[i] in t.rows && CutTo(r.rows[i], nb[i], DataPositions(t, 0))
  {
    var a := DropEmptyColumns(t);
    var ks := DataPositions(t, 0);
    var nb := Filter(t.columns, t.rows, AnyValue);
    forall i | 0 <= i < |t.rows|
      ensures Holds(a.columns, AnyValue, a.rows[i]) <==> Holds(t.columns, AnyValue, t.rows[i])
    {
      AnyValueAfterColumns(t, i);
    }
    FilterAligned(a.columns, a.rows, AnyValue, t.columns, t.rows, AnyValue, (x, y) => CutTo(x, y, ks));
    FilterMembers(t.columns, t.rows, AnyValue);
    forall i | 0 <= i < |nb| ensures nb[i] in t.rows {
      assert nb[i] in nb;
    }
  }

  /** In a header without repeated names, a cut row read by the name of a kept column
      gives what the whole row held under that name. */
  lemma CutGet(t: Table, x: Line, y: Line, c: string)
    requires NoDuplicates(t.columns) && c in DropEmptyColumns(t).columns
    requires CutTo(x, y, DataPositions(t, 0))
    ensures Get(DropEmptyColumns(t).columns, x, c) == Get(t.columns, y, c)
  {
    var ks := DataPositions(t, 0);
    var m := Find(DropEmptyColumns(t).columns, c).value;
    assert t.columns[ks[m]] == c;
    FindDistinct(t.columns, ks[m]);
  }

  /** The same, read by column name. */
  lemma NonBlankGet(t: Table)
    requires NoDuplicates(t.columns)
    ensures var r := NonBlank(t);
            var nb := Filter(t.columns, t.rows, AnyValue);
            && |r.rows| == |nb|
            && forall i, c :: 0 <= i < |nb| && c in r.columns ==> Get(r.columns, r.rows[i], c) == Get(t.columns, nb[i], c)
  {
    var r := NonBlank(t);
    var nb := Filter(t.columns, t.rows, AnyValue);
    NonBlankRows(t);
    forall i, c | 0 <= i < |nb| && c in r.columns
      ensures Get(r.columns, r.rows[i], c) == Get(t.columns, nb[i], c)
    {
      CutGet(t, r.rows[i], nb[i], c);
    }
  }

  /** Parsing the dates and dropping the NaT rows is dropping the rows whose date does
      not parse and then parsing the rest. */
  lemma DatedFilter(t: Table, dayFirstDate: Value -> Option<int>)
    requires "Date" in t.columns
    ensures var conv := ToDate(dayFirstDate);
            Filter(t.columns, ConvertColumn(t, "Date", conv).rows, Present(["Date"]))
              == ConvertRows(t.columns, Filter(t.columns, t.rows, Converts("Date", conv)), Find(t.columns, "Date").value, conv)
  {
    var conv := ToDate(dayFirstDate);
    var k := Find(t.columns, "Date").value;
    assert ConvertColumn(t, "Date", conv).rows == ConvertRows(t.columns, t.rows, k, conv);
    forall l
      ensures Holds(t.columns, Present(["Date"]), ConvertRow(t.columns, l, k, conv)) <==> Holds(t.columns, Converts("Date", conv), l)
    {
      GetConverted(t.columns, l, "Date", "Date", conv);
      assert "Date" in ["Date"];
    }
    FilterConverted(t.columns, t.rows, k, conv, Converts("Date", conv), Present(["Date"]));
  }

  /** `to_datetime(dayfirst=True, errors='coerce')` on `Date` and the drop of the rows
      whose date did not parse: as many rows survive as have a date that parses, and
      every surviving row holds a timestamp there. */
  function Dated(t: Table, dayFirstDate: Value -> Option<int>): (r: Table)
    requires "Date" in t.columns
    ensures r.columns == t.columns
    ensures |r.rows| == Count(t.columns, t.rows, Converts("Date", ToDate(dayFirstDate)))
    ensures forall i :: 0 <= i < |r.rows| ==> var d := Get(r.columns, r.rows[i], "Date"); d.Some? && d.value.Stamp?
  {
    DatedStamps(t, dayFirstDate);
    Where(ConvertColumn(t, "Date", ToDate(dayFirstDate)), Present(["Date"]))
  }

  lemma DatedStamps(t: Table, dayFirstDate: Value -> Option<int>)
    requires "Date" in t.columns
    ensures var r := Where(ConvertColumn(t, "Date", ToDate(dayFirstDate)), Present(["Date"]));
            && |r.rows| == Count(t.columns, t.rows, Converts("Date", ToDate(dayFirstDate)))
            && forall i :: 0 <= i < |r.rows| ==> var d := Get(r.columns, r.rows[i], "Date"); d.Some? && d.value.Stamp?
  {
    var conv := ToDate(dayFirstDate);
    var s := Filter(t.columns, t.rows, Converts("Date", conv));
    var r := Where(ConvertColumn(t, "Date", conv), Present(["Date"]));
    DatedFilter(t, dayFirstDate);
    forall i | 0 <= i < |r.rows| ensures var d := Get(r.columns, r.rows[i], "Date"); d.Some? && d.value.Stamp? {
      FilterPasses(t.columns, t.rows, Converts("Date", conv), i);
      GetConverted(t.columns, s[i], "Date", "Date", conv);
    }
  }

  /** Row i of the result is the i-th input row whose date parses, with the date parsed
      and every other field as it was. */
  lemma DatedRows(t: Table, dayFirstDate: Value -> Option<int>)
    requires "Date" in t.columns
    ensures var r := Dated(t, dayFirstDate);
            var s := Filter(t.columns, t.rows, Converts("Date", ToDate(dayFirstDate)));
            && |r.rows| == |s|
            && forall i, c :: 0 <= i < |s| ==>
                 Get(r.columns, r.rows[i], c)
                   == if c == "Date" then Convert(ToDate(dayFirstDate), Get(t.columns, s[i], "Date")) else Get(t.columns, s[i], c)
  {
    var s := Filter(t.columns, t.rows, Converts("Date", ToDate(dayFirstDate)));
    DatedFilter(t, dayFirstDate);
    forall i, c | 0 <= i < |s|
      ensures Get(t.columns, Dated(t, dayFirstDate).rows[i], c)
                == if c == "Date" then Convert(ToDate(dayFirstDate), Get(t.columns, s[i], "Date")) else Get(t.columns, s[i], c)
    {
      GetConverted(t.columns, s[i], "Date", c, ToDate(dayFirstDate));
    }
  }

  /** What the four `map` calls leave in the cell `d` of column `c`. */
  function Decode(c: string, d: Cell): Cell {
    if c == "Accident_Severity" then Convert(Lookup(SeverityCodes), d)
    else if c == "Road_Type" then Convert(Lookup(RoadTypeCodes), d)
    else if c == "Weather_Conditions" then Convert(Lookup(WeatherCodes), d)
    else if c == "Light_Conditions" then Convert(Lookup(LightCodes), d)
    else d
  }

  /** The four decodings, in the order the script applies them: each decoded column
      holds the decoding of what it held, and every other column is unchanged. */
  function Decoded(t: Table): (r: Table)
    requires HasCodeColumns(t.columns)
    ensures r.columns == t.columns && |r.rows| == |t.rows|
    ensures forall i, c :: 0 <= i < |t.rows| ==>
              Get(r.columns, r.rows[i], c) == Decode(c, Get(t.columns, t.rows[i], c))
  {
    var a := ConvertColumn(t, "Accident_Severity", Lookup(SeverityCodes));
    var b := ConvertColumn(a, "Road_Type", Lookup(RoadTypeCodes));
    var c := ConvertColumn(b, "Weather_Conditions", Lookup(WeatherCodes));
    var r := ConvertColumn(c, "Light_Conditions", Lookup(LightCodes));
    forall i, d | 0 <= i < |t.rows|
      ensures Get(r.columns, r.rows[i], d) == Decode(d, Get(t.columns, t.rows[i], d))
    {
      DecodedCell(t, i, d);
    }
    r
  }

  lemma DecodedCell(t: Table, i: nat, d: string)
    requires HasCodeColumns(t.columns) && i < |t.rows|
    ensures var a := ConvertColumn(t, "Accident_Severity", Lookup(SeverityCodes));
            var b := ConvertColumn(a, "Road_Type", Lookup(RoadTypeCodes));
            var c := ConvertColumn(b, "Weather_Conditions", Lookup(WeatherCodes));
            var r := ConvertColumn(c, "Light_Conditions", Lookup(LightCodes));
            Get(r.columns, r.rows[i], d) == Decode(d, Get(t.columns, t.rows[i], d))
  {
    var a := ConvertColumn(t, "Accident_Severity", Lookup(SeverityCodes));
    var b := ConvertColumn(a, "Road_Type", Lookup(RoadTypeCodes));
    var c := ConvertColumn(b, "Weather_Conditions", Lookup(WeatherCodes));
    var x := Get(t.columns, t.rows[i], d);
    assert Get(a.columns, a.rows[i], d) == if d == "Accident_Severity" then Convert(Lookup(SeverityCodes), x) else x;
    assert Get(b.columns, b.rows[i], d) == if d == "Road_Type" then Convert(Lookup(RoadTypeCodes), x) else Get(a.columns, a.rows[i], d);
    assert Get(c.columns, c.rows[i], d) == if d == "Weather_Conditions" then Convert(Lookup(WeatherCodes), x) else Get(b.columns, b.rows[i], d);
  }

  /** The table the script saves, or None when the column selection raises `KeyError`
      because a listed column is absent or was dropped for being empty. */
  function Prepared(t: Table, dayFirstDate: Value -> Option<int>): (r: Option<Table>)
    ensures r.Some? <==> forall c :: c in Selected ==> c in DropEmptyColumns(t).columns
    ensures r.Some? ==> r.value.columns == Selected && |r.value.rows| <= Count(t.columns, t.rows, AnyValue)
  {
    SelectedColumns();
    match Select(NonBlank(t), Selected)
    case None => None
    case Some(b) => Some(Decoded(Dated(b, dayFirstDate)))
  }

  /** The selected table read by name is the non-blank input read by name. */
  lemma SelectedRows(t: Table)
    requires NoDuplicates(t.columns) && Select(NonBlank(t), Selected).Some?
    ensures var b := Select(NonBlank(t), Selected).value;
            var nb := Filter(t.columns, t.rows, AnyValue);
            && |b.rows| == |nb|
            && forall j, c :: 0 <= j < |nb| && c in Selected ==> Get(b.columns, b.rows[j], c) == Get(t.columns, nb[j], c)
  {
    var n := NonBlank(t);
    NonBlankGet(t);
    forall j, c | 0 <= j < |n.rows| && c in Selected
      ensures Get(Selected, Select(n, Selected).value.rows[j], c) == Get(n.columns, n.rows[j], c)
    {
      SelectGet(n, Selected, j, c);
    }
  }

  /** The rows of the selected table whose date parses are, read by name, the input
      rows that have a value and whose date parses. */
  lemma SelectedParsedRows(t: Table, dayFirstDate: Value -> Option<int>)
    requires NoDuplicates(t.columns) && Select(NonBlank(t), Selected).Some?
    ensures var b := Select(NonBlank(t), Selected).value;
            var test := Converts("Date", ToDate(dayFirstDate));
            var s := Filter(b.columns, b.rows, test);
            var p := Filter(t.columns, t.rows, Both(AnyValue, test));
            && |s| == |p|
            && forall i :: 0 <= i < |p| ==> SameAt(Selected, s[i], t.columns, p[i])
  {
    SelectedColumns();
    var test := Converts("Date", ToDate(dayFirstDate));
    var nb := Filter(t.columns, t.rows, AnyValue);
    var b := Select(NonBlank(t), Selected).value;
    SelectedRows(t);
    forall j | 0 <= j < |b.rows|
      ensures Holds(b.columns, test, b.rows[j]) <==> Holds(t.columns, test, nb[j])
      ensures SameAt(Selected, b.rows[j], t.columns, nb[j])
    {
      assert Get(b.columns, b.rows[j], "Date") == Get(t.columns, nb[j], "Date");
      ConvertsSame(b.columns, b.rows[j], t.columns, nb[j], "Date", ToDate(dayFirstDate));
    }
    var rel := (x, y) => SameAt(Selected, x, t.columns, y);
    assert forall j :: 0 <= j < |b.rows| ==> rel(b.rows[j], nb[j]);
    FilterAligned(b.columns, b.rows, test, t.columns, nb, test, rel);
    FilterBoth(t.columns, t.rows, AnyValue, test);
    var s := Filter(b.columns, b.rows, test);
    var p := Filter(t.columns, t.rows, Both(AnyValue, test));
    assert p == Filter(t.columns, nb, test);
    forall i | 0 <= i < |p| ensures SameAt(Selected, s[i], t.columns, p[i]) {
      assert rel(s[i], p[i]);
    }
  }

  /** Two rows read the same at the names `cols` gives. */
  predicate SameAt(cols: seq<string>, x: Line, cols2: seq<string>, y: Line) {
    forall c :: c in cols ==> Get(cols, x, c) == Get(cols2, y, c)
  }

  /** Row i of the saved table is the i-th input row that has a value and whose date
      parses, read at the eleven columns, with its date parsed and its four codes
      decoded. The header is taken to have no repeated name, as pandas renames repeats
      when it reads a CSV. */
  lemma PreparedRows(t: Table, dayFirstDate: Value -> Option<int>)
    requires NoDuplicates(t.columns) && Prepared(t, dayFirstDate).Some?
    ensures var r := Prepared(t, dayFirstDate).value;
            var p := Filter(t.columns, t.rows, Both(AnyValue, Converts("Date", ToDate(dayFirstDate))));
            && |r.rows| == |p|
            && forall i, c :: 0 <= i < |p| && c in Selected ==>
                 Get(r.columns, r.rows[i], c)
                   == Decode(c, if c == "Date" then Convert(ToDate(dayFirstDate), Get(t.columns, p[i], c)) else Get(t.columns, p[i], c))
  {
    PreparedSteps(t, dayFirstDate);
    var b := Select(NonBlank(t), Selected).value;
    var s := Filter(b.columns, b.rows, Converts("Date", ToDate(dayFirstDate)));
    var p := Filter(t.columns, t.rows, Both(AnyValue, Converts("Date", ToDate(dayFirstDate))));
    var d := Dated(b, dayFirstDate);
    SelectedParsedRows(t, dayFirstDate);
    DatedRows(b, dayFirstDate);
    forall i, c | 0 <= i < |p| && c in Selected
      ensures Get(Selected, Decoded(d).rows[i], c)
                == Decode(c, if c == "Date" then Convert(ToDate(dayFirstDate), Get(t.columns, p[i], c)) else Get(t.columns, p[i], c))
    {
      assert Get(Selected, d.rows[i], c)
          == if c == "Date" then Convert(ToDate(dayFirstDate), Get(Selected, s[i], "Date")) else Get(Selected, s[i], c);
    }
  }

  /** The steps the saved table goes through once the selection succeeds. */
  lemma PreparedSteps(t: Table, dayFirstDate: Value -> Option<int>)
    requires Prepared(t, dayFirstDate).Some?
    ensures Select(NonBlank(t), Selected).Some? && "Date" in Selected && HasCodeColumns(Selected)
    ensures Prepared(t, dayFirstDate).value == Decoded(Dated(Select(NonBlank(t), Selected).value, dayFirstDate))
  {
    SelectedColumns();
  }

  /** A decoded cell: a label of the code table, or nothing. */
  predicate Labelled(cell: Cell, codes: map<int, string>) {
    cell.None? || (cell.value.Text? && cell.value.s in codes.Values)
  }

  /** Every saved row has a parsed date. */
  lemma PreparedDates(t: Table, dayFirstDate: Value -> Option<int>, i: nat)
    requires Prepared(t, dayFirstDate).Some? && i < |Prepared(t, dayFirstDate).value.rows|
    ensures var r := Prepared(t, dayFirstDate).value;
            var date := Get(r.columns, r.rows[i], "Date");
            date.Some? && date.value.Stamp?
  {
    PreparedSteps(t, dayFirstDate);
    var c := Dated(Select(NonBlank(t), Selected).value, dayFirstDate);
  }

  /** The decoded columns of every saved row hold labels of their code tables or
      nothing. */
  lemma PreparedLabels(t: Table, dayFirstDate: Value -> Option<int>, i: nat)
    requires Prepared(t, dayFirstDate).Some? && i < |Prepared(t, dayFirstDate).value.rows|
    ensures var r := Prepared(t, dayFirstDate).value;
            && Labelled(Get(r.columns, r.rows[i], "Accident_Severity"), SeverityCodes)
            && Labelled(Get(r.columns, r.rows[i], "Road_Type"), RoadTypeCodes)
            && Labelled(Get(r.columns, r.rows[i], "Weather_Conditions"), WeatherCodes)
            && Labelled(Get(r.columns, r.rows[i], "Light_Conditions"), LightCodes)
  {
    PreparedSteps(t, dayFirstDate);
    var c := Dated(Select(NonBlank(t), Selected).value, dayFirstDate);
    DecodeRange(SeverityCodes, Get(c.columns, c.rows[i], "Accident_Severity"));
    DecodeRange(RoadTypeCodes, Get(c.columns, c.rows[i], "Road_Type"));
    DecodeRange(WeatherCodes, Get(c.columns, c.rows[i], "Weather_Conditions"));
    DecodeRange(LightCodes, Get(c.columns, c.rows[i], "Light_Conditions"));
  }

  /** With no rows at all every column is empty, so the selection fails. */
  lemma NoRowsNoColumns(cols: seq<string>, dayFirstDate: Value -> Option<int>)
    ensures Prepared(Table(cols, []), dayFirstDate).None?
  {
    SelectedColumns();
    NoRowsNoData(cols, 0);
    assert |DropEmptyColumns(Table(cols, [])).columns| == 0;
  }

  lemma {:induction false} NoRowsNoData(cols: seq<string>, from: nat)
    requires from <= |cols|
    ensures DataPositions(Table(cols, []), from) == []
    decreases |cols| - from
  {
    if from < |cols| {
      NoRowsNoData(cols, from + 1);
    }
  }

  /** The script, each step on the one frame in place. */
  method CleanAndPrepare(t: Table, dayFirstDate: Value -> Option<int>) returns (r: Option<Table>)
    ensures r == Prepared(t, dayFirstDate)
  {
    var df := new Frame(t);
    df.DropEmptyColumns();
    df.DropBlankRows();
    assert df.View() == NonBlank(t);
    var selected := Select(df.View(), Selected);
    if selected.None? {
      return None;
    }
    df := new Frame(selected.value);
    df.Convert("Date", ToDate(dayFirstDate));
    df.DropMissing(["Date"]);
    SelectedColumns();
    assert df.View() == Dated(selected.value, dayFirstDate);
    df.Convert("Accident_Severity", Lookup(SeverityCodes));
    df.Convert("Road_Type", Lookup(RoadTypeCodes));
    df.Convert("Weather_Conditions", Lookup(WeatherCodes));
    df.Convert("Light_Conditions", Lookup(LightCodes));
    return Some(df.View());
  }
}
