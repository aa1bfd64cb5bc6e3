/** The report-submission view (`submit_page` in analyzer/views.py) on a POST: check
    the twelve form fields, number the report after the last row of `all_india.csv`,
    build one record in the master column order, append it to the district, state and
    all-India files, and refit the clustering model on the reloaded master file. */
module Submission {
  import opened Tables
  import opened Storage
  import opened Clustering

  /** The form fields, in the order the view reads them. */
  datatype Field =
    | State | District | Latitude | Longitude | Date | Time | Severity
    | RoadType | Weather | NumVehicles | NumCasualties | Light

  /** The name each field is posted under. */
  function Name(f: Field): string {
    match f
    case State => "state"
    case District => "district"
    case Latitude => "latitude"
    case Longitude => "longitude"
    case Date => "date"
    case Time => "time"
    case Severity => "severity"
    case RoadType => "road_type"
    case Weather => "weather"
    case NumVehicles => "num_vehicles"
    case NumCasualties => "num_casualties"
    case Light => "light_conditions"
  }

  /** The fields that go through `float(...)`. */
  predicate IsNumber(f: Field) {
    f == Latitude || f == Longitude || f == NumVehicles || f == NumCasualties
  }

  /** The master column order of every data file. */
  const MasterColumns: seq<string> := ["Accident_Index", "Date", "Time", "latitude", "longitude",
    "Accident_Severity", "Number_of_Vehicles", "Number_of_Casualties",
    "Road_Type", "Weather_Conditions", "Light_Conditions", "State", "District"]

  /** The form field each master column after `Accident_Index` is filled from. */
  const MasterSource: seq<Field> := [Date, Time, Latitude, Longitude, Severity, NumVehicles,
    NumCasualties, RoadType, Weather, Light, State, District]

  /** The columns of `all_india.csv` the form's dropdown lists are built from. */
  const ListedColumns: seq<string> := ["Road_Type", "Weather_Conditions", "Light_Conditions"]

  /** `request.POST`, field by field: a field that was not sent has no entry. */
  type Form = map<Field, string>

  /** `all([...])` over the twelve `request.POST.get(...)` values: every field sent and
      not empty. */
  predicate Complete(form: Form) {
    forall f: Field :: f in form && form[f] != ""
  }

  /** Building the dropdown lists fails before the form is looked at: `all_india.csv`
      exists but cannot be read, or lacks one of the listed columns (`KeyError`). */
  predicate ListsFail(files: Files) {
    match LoadData(files, AllIndia)
    case NotFound => false
    case Unreadable => true
    case Read(t) => exists c :: c in ListedColumns && c !in t.columns
  }

  /** Python's `int(x)` on a finite float: truncation toward zero. */
  function Truncate(x: real): (n: int)
    ensures x >= 0.0 ==> 0 <= n && n as real <= x < n as real + 1.0
    ensures x < 0.0 ==> n <= 0 && n as real - 1.0 < x <= n as real
  {
    if x >= 0.0 then x.Floor else -((-x).Floor)
  }

  /** `float(v)` of a value `read_csv` produced; None when it raises `ValueError` or
      `TypeError`. An empty field is read as NaN. */
  function FloatOf(c: Cell, number: string -> Option<Float>): (r: Option<Float>)
    ensures c.None? ==> r == Some(NaN)
    ensures c.Some? && c.value.Num? ==> r == Some(c.value.f)
  {
    match c
    case None => Some(NaN)
    case Some(Num(f)) => Some(f)
    case Some(Text(s)) => number(s)
    case Some(Stamp(_)) => None
  }

  /** `pd.read_csv(all_india, usecols=['Accident_Index']).iloc[-1]['Accident_Index']`;
      None when that raises what the view catches: the file is missing
      (`FileNotFoundError`), blank or without the column (`ValueError`), or has no rows
      (`IndexError`). */
  function LastIndexCell(files: Files): (r: Option<Cell>)
    ensures r.Some? <==> AllIndia in files && "Accident_Index" in files[AllIndia].columns && files[AllIndia].rows != []
    ensures r.Some? ==> var t := files[AllIndia]; r.value == Get(t.columns, t.rows[|t.rows| - 1], "Accident_Index")
  {
    if AllIndia !in files then None
    else
      var t := files[AllIndia];
      if "Accident_Index" !in t.columns || t.rows == [] then None
      else Some(Get(t.columns, t.rows[|t.rows| - 1], "Accident_Index"))
  }

  /** The new index, or the `OverflowError` that `int(float('inf'))` raises and the
      view does not catch. */
  datatype IndexRead = Next(n: int) | Overflow

  /** `int(float(last)) + 1`, and 1 when any caught error is raised on the way
      (`int(nan)` raises `ValueError`). */
  function NextIndex(files: Files, number: string -> Option<Float>): (r: IndexRead)
    ensures r.Overflow? <==>
              LastIndexCell(files).Some? && var f := FloatOf(LastIndexCell(files).value, number); f.Some? && f.value.Infinite?
    ensures LastIndexCell(files).None? ==> r == Next(1)
    ensures LastIndexCell(files).Some? && FloatOf(LastIndexCell(files).value, number) == Some(NaN) ==> r == Next(1)
    ensures LastIndexCell(files).Some? && FloatOf(LastIndexCell(files).value, number).None? ==> r == Next(1)
    ensures forall x :: LastIndexCell(files).Some? && FloatOf(LastIndexCell(files).value, number) == Some(Finite(x)) ==>
              r == Next(Truncate(x) + 1)
  {
    match LastIndexCell(files)
    case None => Next(1)
    case Some(c) =>
      match FloatOf(c, number)
      case None => Next(1)
      case Some(NaN) => Next(1)
      case Some(Infinite(_)) => Overflow
      case Some(Finite(x)) => Next(Truncate(x) + 1)
  }

  /** The record the view builds, in master column order; None when one of the four
      `float(...)` calls raises `ValueError`, which the view does not catch. */
  function BuildRecord(form: Form, index: int, number: string -> Option<Float>): (r: Option<Line>)
    requires Complete(form)
    ensures r.Some? <==> forall f: Field :: IsNumber(f) ==> number(form[f]).Some?
    ensures r.Some? ==> |r.value| == |MasterColumns|
    ensures r.Some? ==> r.value[0] == Some(Num(Finite(index as real)))
    ensures r.Some? ==> forall k :: 1 <= k < |MasterColumns| ==>
              var f := MasterSource[k - 1];
              r.value[k] == if IsNumber(f) then Some(Num(number(form[f]).value)) else Some(Text(form[f]))
  {
    if forall f: Field :: IsNumber(f) ==> number(form[f]).Some? then
      Some([Some(Num(Finite(index as real)))]
           + seq(|MasterSource|, j requires 0 <= j < |MasterSource| => FieldCell(form, MasterSource[j], number)))
    else None
  }

  /** One field of the record: `float(value)` for the four numeric fields, the posted
      text for the others. */
  function FieldCell(form: Form, f: Field, number: string -> Option<Float>): Cell
    requires Complete(form) && (IsNumber(f) ==> number(form[f]).Some?)
  {
    if IsNumber(f) then Some(Num(number(form[f]).value)) else Some(Text(form[f]))
  }

  /** The master header names its columns once each, so a record in master order reads
      back by name. */
  lemma {:induction false} MasterRecordReads(rec: Line, k: nat)
    requires k < |MasterColumns|
    ensures Get(MasterColumns, rec, MasterColumns[k]) == At(rec, k)
  {
    assert NoDuplicates(MasterColumns) by {
      forall i, j | 0 <= i < j < |MasterColumns| ensures MasterColumns[i] != MasterColumns[j] {
        assert |MasterColumns[i]| != |MasterColumns[j]| || MasterColumns[i][0] != MasterColumns[j][0]
            || MasterColumns[i][1] != MasterColumns[j][1] || MasterColumns[i][7] != MasterColumns[j][7];
      }
    }
    FindDistinct(MasterColumns, k);
  }

  /** The three appends, in the order the view makes them. */
  function Stored(files: Files, form: Form, rec: Line, show: Float -> string): (r: Files)
    requires Complete(form)
    ensures var touched := {DistrictCsv(form[State], form[District]), StateCsv(form[State]), AllIndia};
            && r.Keys == files.Keys + touched
            && (forall q :: q in files && q !in touched ==> r[q] == files[q])
            && (forall p :: p in touched && p in files && !Blank(files[p]) ==>
                  r[p] == Table(files[p].columns, files[p].rows + [rec]))
            && (forall p :: p in touched && (p !in files || Blank(files[p])) ==>
                  r[p] == Table(HeaderFrom(rec, show), []))
  {
    var district := DistrictCsv(form[State], form[District]);
    var state := StateCsv(form[State]);
    AppendThree(files, district, state, AllIndia, rec, show);
    var f1 := Append(files, district, rec, show);
    var f2 := Append(f1, state, rec, show);
    Append(f2, AllIndia, rec, show)
  }

  /** Three appends to three different files: each touched file gets the record once. */
  lemma AppendThree(files: Files, a: Path, b: Path, c: Path, rec: Line, show: Float -> string)
    requires a != b && b != c && a != c
    ensures var r := Append(Append(Append(files, a, rec, show), b, rec, show), c, rec, show);
            && r.Keys == files.Keys + {a, b, c}
            && (forall q :: q in files && q !in {a, b, c} ==> r[q] == files[q])
            && (forall p :: p in {a, b, c} && p in files && !Blank(files[p]) ==>
                  r[p] == Table(files[p].columns, files[p].rows + [rec]))
            && (forall p :: p in {a, b, c} && (p !in files || Blank(files[p])) ==>
                  r[p] == Table(HeaderFrom(rec, show), []))
  {
    var f1 := Append(files, a, rec, show);
    var f2 := Append(f1, b, rec, show);
    var r := Append(f2, c, rec, show);
    forall p | p in {a, b, c}
      ensures p in files && !Blank(files[p]) ==> r[p] == Table(files[p].columns, files[p].rows + [rec])
      ensures p !in files || Blank(files[p]) ==> r[p] == Table(HeaderFrom(rec, show), [])
    {
      if p == a {
        assert r[p] == f2[p] == f1[p];
      } else if p == b {
        assert r[p] == f2[p];
        assert p in files <==> p in f1;
        assert p in files ==> f1[p] == files[p];
      } else {
        assert p in files <==> p in f2;
        assert p in files ==> f2[p] == f1[p] == files[p];
      }
    }
  }

  /** Whether the master table has a row with both coordinates, as
      `full_df[['latitude', 'longitude']].dropna()` sees it. */
  predicate HasCoordinates(master: Table) {
    Count(master.columns, master.rows, Present(["latitude", "longitude"])) > 0
  }

  /** The points the model is refitted on. */
  function Coordinates(master: Table): seq<Point> {
    Points(Where(master, Present(["latitude", "longitude"])))
  }

  /** What the view answers: the redirect back to the form, the redirect to the
      dashboard, or an uncaught exception. */
  datatype Outcome = BackToForm | ToDashboard | ServerError

  /** The data directory and the saved model. */
  datatype Store = Store(files: Files, model: Option<ClusterModel>)

  datatype Response = Response(outcome: Outcome, store: Store)

  /** The form passes every check that comes before the first append. */
  predicate Accepted(s: Store, form: Form, number: string -> Option<Float>) {
    && !ListsFail(s.files)
    && Complete(form)
    && NextIndex(s.files, number).Next?
    && BuildRecord(form, NextIndex(s.files, number).n, number).Some?
  }

  function Record(s: Store, form: Form, number: string -> Option<Float>): Line
    requires Accepted(s, form, number)
  {
    BuildRecord(form, NextIndex(s.files, number).n, number).value
  }

  /** One POST to the submission view. */
  function Respond(s: Store, form: Form, parsers: Parsers, dbscan: Clusterer): (r: Response)
    // the dropdown lists are built first; when that raises, nothing else happens
    ensures ListsFail(s.files) ==> r.outcome == ServerError && r.store == s
    // a form with a missing or empty field goes back to the form and changes nothing
    ensures r.outcome == BackToForm <==> !ListsFail(s.files) && !Complete(form)
    ensures !Complete(form) ==> r.store == s
    // a non-numeric coordinate or count is caught by `float(...)` before any append
    ensures Complete(form) && (exists f: Field :: IsNumber(f) && parsers.number(form[f]).None?) ==> r.store == s
    ensures !Accepted(s, form, parsers.number) ==> r.store == s && r.outcome != ToDashboard
    // an accepted report is appended to the district, state and all-India files
    ensures Accepted(s, form, parsers.number) ==>
              r.outcome != BackToForm && r.store.files == Stored(s.files, form, Record(s, form, parsers.number), parsers.show)
    // the model is refitted, with the online parameters, exactly when the reloaded master
    // file has a complete coordinate pair
    ensures r.store.model != s.model ==> r.outcome == ToDashboard
    // after the appends the refit needs both coordinate columns, and the scaler raises
    // on an infinite coordinate when there is a pair to fit
    ensures Accepted(s, form, parsers.number) ==>
              var m := Stored(s.files, form, Record(s, form, parsers.number), parsers.show)[AllIndia];
              (r.outcome == ToDashboard <==> && "latitude" in m.columns && "longitude" in m.columns
                                             && !HasInfinite(Coordinates(m)))
    ensures r.outcome == ToDashboard ==>
              var master := r.store.files[AllIndia];
              && AllIndia in r.store.files
              && (HasCoordinates(master) ==> r.store.model == Some(Train(dbscan, Online, Coordinates(master))))
              && (!HasCoordinates(master) ==> r.store.model == s.model)
  {
    if ListsFail(s.files) then Response(ServerError, s)
    else if !Complete(form) then Response(BackToForm, s)
    else match NextIndex(s.files, parsers.number)
      case Overflow => Response(ServerError, s)
      case Next(n) =>
        match BuildRecord(form, n, parsers.number)
        case None => Response(ServerError, s)
        case Some(rec) =>
          var files := Stored(s.files, form, rec, parsers.show);
          var master := files[AllIndia];
          if "latitude" !in master.columns || "longitude" !in master.columns then
            Response(ServerError, Store(files, s.model))
          else
            var pts := Coordinates(master);
            assert |pts| == Count(master.columns, master.rows, Present(["latitude", "longitude"]));
            if HasInfinite(pts) then Response(ServerError, Store(files, s.model))
            else Response(ToDashboard, Store(files, if |pts| > 0 then Some(Train(dbscan, Online, pts)) else s.model))
  }

  /** Reports are numbered one after the other: after an accepted report, the next one
      gets the following index, provided the master file has `Accident_Index` as its
      first column. */
  lemma IndexesFollowOneAnother(s: Store, form: Form, parsers: Parsers, dbscan: Clusterer)
    requires Accepted(s, form, parsers.number)
    requires AllIndia in s.files && Find(s.files[AllIndia].columns, "Accident_Index") == Some(0)
    ensures NextIndex(Respond(s, form, parsers, dbscan).store.files, parsers.number)
         == Next(NextIndex(s.files, parsers.number).n + 1)
  {
    var n := NextIndex(s.files, parsers.number).n;
    var rec := Record(s, form, parsers.number);
    var files := Respond(s, form, parsers, dbscan).store.files;
    var t := files[AllIndia];
    assert t == Table(s.files[AllIndia].columns, s.files[AllIndia].rows + [rec]);
    assert Get(t.columns, t.rows[|t.rows| - 1], "Accident_Index") == Some(Num(Finite(n as real)));
    assert Truncate(n as real) == n;
  }

  /** The index comes from the last row, not the largest one: with indexes 7 and then
      3, the next report is numbered 4, a number already in use. */
  lemma LastRowNotLargest(number: string -> Option<Float>)
    ensures NextIndex(map[AllIndia := Table(["Accident_Index"], [[Some(Num(Finite(7.0)))], [Some(Num(Finite(3.0)))]])], number)
         == Next(4)
  {
    var t := Table(["Accident_Index"], [[Some(Num(Finite(7.0)))], [Some(Num(Finite(3.0)))]]);
    assert Get(t.columns, t.rows[1], "Accident_Index") == Some(Num(Finite(3.0)));
  }

  /** `int(...)` truncates toward zero: after the index -2.5 comes -1. */
  lemma IndexTruncatesTowardZero(number: string -> Option<Float>)
    ensures NextIndex(map[AllIndia := Table(["Accident_Index"], [[Some(Num(Finite(-2.5)))]])], number) == Next(-1)
  {
    var t := Table(["Accident_Index"], [[Some(Num(Finite(-2.5)))]]);
    assert Get(t.columns, t.rows[0], "Accident_Index") == Some(Num(Finite(-2.5)));
    assert Truncate(-2.5) == -2;
  }

  /** When `all_india.csv` does not exist yet, the first report is written without a
      header, so the file reads back with the report as its header and no rows. */
  lemma FirstReportBecomesHeader(s: Store, form: Form, parsers: Parsers, dbscan: Clusterer)
    requires AllIndia !in s.files && Accepted(s, form, parsers.number)
    ensures var files := Respond(s, form, parsers, dbscan).store.files;
            AllIndia in files && files[AllIndia].rows == []
            && files[AllIndia].columns == HeaderFrom(Record(s, form, parsers.number), parsers.show)
  {
  }

  /** The view as it works on the data directory and the saved model. */
  class Dashboard {
    var files: Files
    var model: Option<ClusterModel>

    constructor (files: Files, model: Option<ClusterModel>)
      ensures this.files == files && this.model == model
    {
      this.files := files;
      this.model := model;
    }

    function Contents(): Store
      reads this
    {
      Store(files, model)
    }

    /** `submit_page` on a POST. */
    method Submit(form: Form, parsers: Parsers, dbscan: Clusterer) returns (outcome: Outcome)
      modifies this
      ensures Response(outcome, Contents()) == Respond(old(Contents()), form, parsers, dbscan)
    {
      if ListsFail(files) {
        return ServerError;
      }
      if !Complete(form) {
        return BackToForm;
      }
      var index := NextIndex(files, parsers.number);
      if index.Overflow? {
        return ServerError;
      }
      var record := BuildRecord(form, index.n, parsers.number);
      if record.None? {
        return ServerError;
      }
      var rec := record.value;
      files := Append(files, DistrictCsv(form[State], form[District]), rec, parsers.show);
      files := Append(files, StateCsv(form[State]), rec, parsers.show);
      files := Append(files, AllIndia, rec, parsers.show);
      var master := files[AllIndia];
      if "latitude" !in master.columns || "longitude" !in master.columns {
        return ServerError;
      }
      var coords := Coordinates(master);
      if HasInfinite(coords) {
        return ServerError;
      }
      if |coords| > 0 {
        model := Some(Train(dbscan, Online, coords));
      }
      return ToDashboard;
    }
  }
}
