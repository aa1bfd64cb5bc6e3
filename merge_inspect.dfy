/** analyzer/ml/merge_and_inspect.py: count the vehicles and casualties of each
    accident with `groupby(...).agg(...)`, attach them to the accidents with two left
    merges on `Accident_Index`, and fill the accidents without any with 0. */
module MergeInspect {
  import opened Tables

  const Index: string := "Accident_Index"
  const NumVehicles: string := "Num_Vehicles"
  const NumCasualties: string := "Num_Casualties"

  /** The rows of the accident whose index is `key`; a missing key matches nothing,
      since `NaN == NaN` is false and `groupby` drops missing keys. */
  function Group(cols: seq<string>, rows: seq<Line>, key: Cell): (g: seq<Line>)
    ensures |g| <= |rows|
    ensures forall l :: l in g <==> l in rows && !IsNA(key) && Get(cols, l, Index) == key
  {
    if rows == [] then []
    else
      var rest := Group(cols, rows[1..], key);
      assert forall l :: l in rows <==> l == rows[0] || l in rows[1..];
      (if !IsNA(key) && Get(cols, rows[0], Index) == key then [rows[0]] else []) + rest
  }

  /** pandas' `count` aggregation: the number of rows with a value in column `c`. */
  function NonMissing(cols: seq<string>, rows: seq<Line>, c: string): (n: nat)
    ensures n <= |rows|
    ensures n == 0 <== forall l :: l in rows ==> IsNA(Get(cols, l, c))
  {
    if rows == [] then 0
    else
      assert forall l :: l in rows[1..] ==> l in rows;
      (if IsNA(Get(cols, rows[0], c)) then 0 else 1) + NonMissing(cols, rows[1..], c)
  }

  /** How many rows of `t` belong to accident `key` and have a value in `c`. */
  function Tally(t: Table, key: Cell, c: string): (n: nat)
    ensures n <= |Group(t.columns, t.rows, key)| <= |t.rows|
    ensures IsNA(key) ==> n == 0
  {
    NonMissing(t.columns, Group(t.columns, t.rows, key), c)
  }

  /** An accident that no row mentions, or a missing index, counts 0. */
  lemma TallyAbsent(t: Table, key: Cell, c: string)
    requires IsNA(key) || forall l :: l in t.rows ==> Get(t.columns, l, Index) != key
    ensures Tally(t, key, c) == 0
  {
  }

  /** The non-missing entries of the index column, in row order. */
  function Indices(cols: seq<string>, rows: seq<Line>): (r: seq<Cell>)
    ensures forall k :: k in r <==> !IsNA(k) && exists l :: l in rows && Get(cols, l, Index) == k
  {
    if rows == [] then []
    else
      var rest := Indices(cols, rows[1..]);
      assert forall l :: l in rows <==> l == rows[0] || l in rows[1..];
      var k := Get(cols, rows[0], Index);
      (if IsNA(k) then [] else [k]) + rest
  }

  /** The groups of `groupby('Accident_Index')`, each once (in order of first
      appearance: the merges below do not depend on the order). */
  function GroupKeys(t: Table): seq<Cell> {
    Distinct(Indices(t.columns, t.rows))
  }

  function CountCell(n: nat): Cell {
    Some(Num(Finite(n as real)))
  }

  function Sources(means: seq<(string, string)>): seq<string> {
    seq(|means|, j requires 0 <= j < |means| => means[j].0)
  }

  function Targets(means: seq<(string, string)>): seq<string> {
    seq(|means|, j requires 0 <= j < |means| => means[j].1)
  }

  /** The aggregate row of one accident: its index, the count, and the `mean` of each
      averaged column over the accident's rows. */
  function AggRow(t: Table, key: Cell, counted: string, means: seq<(string, string)>, mean: seq<Cell> -> Cell): Line {
    var g := Table(t.columns, Group(t.columns, t.rows, key));
    [key, CountCell(Tally(t, key, counted))] + seq(|means|, j requires 0 <= j < |means| => mean(Column(g, means[j].0)))
  }

  /** `t.groupby('Accident_Index').agg({counted: 'count', source: 'mean', ...})`, renamed
      and `reset_index()`; None is the `KeyError` for a column that does not exist. */
  function Aggregate(t: Table, counted: string, countName: string, means: seq<(string, string)>,
                     mean: seq<Cell> -> Cell): (r: Option<Table>)
    ensures r.Some? <==> Index in t.columns && counted in t.columns && forall c :: c in Sources(means) ==> c in t.columns
    ensures r.Some? ==>
              && r.value.columns == [Index, countName] + Targets(means)
              && |r.value.rows| == |GroupKeys(t)|
              && forall i :: 0 <= i < |r.value.rows| ==>
                   |r.value.rows[i]| == |r.value.columns|
                   && r.value.rows[i][0] == GroupKeys(t)[i]
                   && r.value.rows[i][1] == CountCell(Tally(t, GroupKeys(t)[i], counted))
  {
    if Index in t.columns && counted in t.columns && forall c :: c in Sources(means) ==> c in t.columns then
      var keys := GroupKeys(t);
      Some(Table([Index, countName] + Targets(means),
                 seq(|keys|, i requires 0 <= i < |keys| => AggRow(t, keys[i], counted, means, mean))))
    else None
  }

  /** The first field of every row, where an aggregate keeps its key. */
  function KeyFields(rows: seq<Line>): (r: seq<Cell>)
    ensures |r| == |rows| && forall i :: 0 <= i < |rows| ==> r[i] == At(rows[i], 0)
  {
    seq(|rows|, i requires 0 <= i < |rows| => At(rows[i], 0))
  }

  /** Each accident that has rows appears exactly once among the aggregate's keys, and
      nothing else does. */
  lemma OneRowPerAccident(t: Table, counted: string, countName: string, means: seq<(string, string)>,
                          mean: seq<Cell> -> Cell)
    requires Aggregate(t, counted, countName, means, mean).Some?
    ensures var agg := Aggregate(t, counted, countName, means, mean).value;
            && NoDuplicates(KeyFields(agg.rows))
            && forall k :: k in KeyFields(agg.rows) <==> !IsNA(k) && exists l :: l in t.rows && Get(t.columns, l, Index) == k
  {
    var agg := Aggregate(t, counted, countName, means, mean).value;
    assert KeyFields(agg.rows) == GroupKeys(t);
  }

  /** The rows of `right` whose key is `key`. */
  function Matches(right: seq<Line>, key: Cell): seq<Line> {
    if right == [] then []
    else (if At(right[0], 0) == key then [right[0]] else []) + Matches(right[1..], key)
  }

  /** The first row of `right` whose key is `key`. */
  function Lookup(right: seq<Line>, key: Cell): (r: Option<Line>)
    ensures r.Some? ==> r.value in right && At(r.value, 0) == key
    ensures r.None? <==> forall l :: l in right ==> At(l, 0) != key
  {
    if right == [] then None
    else if At(right[0], 0) == key then Some(right[0])
    else
      assert forall l :: l in right <==> l == right[0] || l in right[1..];
      Lookup(right[1..], key)
  }

  function Blanks(w: nat): (r: Line)
    ensures |r| == w && forall j :: 0 <= j < w ==> r[j].None?
  {
    seq(w, j => None)
  }

  /** The fields of a right-hand row after its key. */
  function Rest(r: Line, w: nat): (f: Line)
    ensures |f| == w
  {
    Fit(r, w + 1)[1..]
  }

  /** The rows a left merge makes of one left row: one per matching right row, or the
      row padded with missing values when none matches. */
  function MergeRow(cols: seq<string>, l: Line, right: Table): seq<Line>
    requires right.columns != []
  {
    var w := |right.columns| - 1;
    var ms := Matches(right.rows, Get(cols, l, Index));
    if ms == [] then [Fit(l, |cols|) + Blanks(w)]
    else seq(|ms|, j requires 0 <= j < |ms| => Fit(l, |cols|) + Rest(ms[j], w))
  }

  function MergeRows(cols: seq<string>, rows: seq<Line>, right: Table): seq<Line>
    requires right.columns != []
  {
    if rows == [] then [] else MergeRow(cols, rows[0], right) + MergeRows(cols, rows[1..], right)
  }

  /** `left.merge(right, on='Accident_Index', how='left')` for a right table whose key
      is its first column: the left columns, then the right ones after the key, and the
      left rows in order. */
  function LeftMerge(left: Table, right: Table): (r: Table)
    requires right.columns != []
    ensures r.columns == left.columns + right.columns[1..]
  {
    Table(left.columns + right.columns[1..], MergeRows(left.columns, left.rows, right))
  }

  /** The one row a left row becomes when keys are unique. */
  function Joined(cols: seq<string>, l: Line, right: Table): (r: Line)
    requires right.columns != []
    ensures |r| == |cols| + |right.columns| - 1
  {
    var w := |right.columns| - 1;
    match Lookup(right.rows, Get(cols, l, Index))
    case None => Fit(l, |cols|) + Blanks(w)
    case Some(m) => Fit(l, |cols|) + Rest(m, w)
  }

  lemma {:induction false} MatchesNone(right: seq<Line>, key: Cell)
    requires key !in KeyFields(right)
    ensures Matches(right, key) == []
  {
    if right != [] {
      assert KeyFields(right)[0] == At(right[0], 0);
      assert KeyFields(right[1..]) == KeyFields(right)[1..];
      MatchesNone(right[1..], key);
    }
  }

  /** With unique keys at most one right row matches, and it is the one `Lookup` finds. */
  lemma {:induction false} MatchesUnique(right: seq<Line>, key: Cell)
    requires NoDuplicates(KeyFields(right))
    ensures Matches(right, key) == match Lookup(right, key) case None => [] case Some(m) => [m]
  {
    if right != [] {
      var ks := KeyFields(right);
      assert KeyFields(right[1..]) == ks[1..];
      if At(right[0], 0) == key {
        assert key !in ks[1..] by {
          forall j | 0 <= j < |ks[1..]| ensures ks[1..][j] != key {
            assert ks[0] != ks[j + 1];
          }
        }
        MatchesNone(right[1..], key);
      } else {
        MatchesUnique(right[1..], key);
      }
    }
  }

  /** Because the aggregate keys are unique, a left merge keeps every left row exactly
      once and in order: row `i` of the result is row `i` of the left table, extended. */
  lemma {:induction false} UniqueKeysKeepRows(cols: seq<string>, rows: seq<Line>, right: Table)
    requires right.columns != [] && NoDuplicates(KeyFields(right.rows))
    ensures var m := MergeRows(cols, rows, right);
            |m| == |rows| && forall i :: 0 <= i < |rows| ==> m[i] == Joined(cols, rows[i], right)
  {
    if rows != [] {
      UniqueKeysKeepRows(cols, rows[1..], right);
      MatchesUnique(right.rows, Get(cols, rows[0], Index));
      var m := MergeRows(cols, rows, right);
      var tail := MergeRows(cols, rows[1..], right);
      assert MergeRow(cols, rows[0], right) == [Joined(cols, rows[0], right)];
      assert m == [Joined(cols, rows[0], right)] + tail;
      forall i | 0 <= i < |rows| ensures m[i] == Joined(cols, rows[i], right) {
        if i > 0 { assert m[i] == tail[i - 1] && rows[1..][i - 1] == rows[i]; }
      }
    }
  }

  lemma {:induction false} FindConcat(a: seq<string>, b: seq<string>, c: string)
    ensures Find(a + b, c) == if c in a then Find(a, c) else match Find(b, c) case None => None case Some(k) => Some(|a| + k)
  {
    if a != [] {
      assert (a + b)[0] == a[0] && (a + b)[1..] == a[1..] + b;
      if a[0] != c {
        FindConcat(a[1..], b, c);
        assert c in a <==> c in a[1..];
        match Find(a[1..] + b, c)
        case None =>
        case Some(j) =>
          assert Find(a + b, c) == Some(j + 1);
      }
    } else {
      assert a + b == b;
    }
  }

  /** Reading a merged row: a left column reads as in the left row, any other column as
      in the appended fields. */
  lemma GetJoined(cols: seq<string>, extra: seq<string>, l: Line, tail: Line, c: string)
    requires |tail| == |extra|
    ensures c in cols ==> Get(cols + extra, Fit(l, |cols|) + tail, c) == Get(cols, l, c)
    ensures c !in cols ==> Get(cols + extra, Fit(l, |cols|) + tail, c) == Get(extra, tail, c)
  {
    FindConcat(cols, extra, c);
  }

  /** `merged[c].fillna(0).astype(int)`: the merged counts are whole numbers already,
      so only the missing ones change. */
  function FillZero(t: Table, c: string): (r: Table)
    ensures |r.rows| == |t.rows|
    ensures c in t.columns ==> r.columns == t.columns
    ensures forall i :: 0 <= i < |r.rows| ==>
              Get(r.columns, r.rows[i], c) == if IsNA(Get(t.columns, t.rows[i], c)) then CountCell(0) else Get(t.columns, t.rows[i], c)
    ensures forall i, d :: 0 <= i < |r.rows| && d != c ==> Get(r.columns, r.rows[i], d) == Get(t.columns, t.rows[i], d)
  {
    SetColumn(t, c, seq(|t.rows|, i requires 0 <= i < |t.rows| =>
      var v := Get(t.columns, t.rows[i], c);
      if IsNA(v) then CountCell(0) else v))
  }

  const VehicleMeans: seq<(string, string)> := [("Age_of_Vehicle", "Avg_Vehicle_Age"), ("Engine_Capacity_(CC)", "Avg_Engine_CC")]

  /** The vehicle aggregation: vehicles per accident, with two averages. */
  function VehiclesAgg(vehicles: Table, mean: seq<Cell> -> Cell): Option<Table> {
    Aggregate(vehicles, "Vehicle_Type", NumVehicles, VehicleMeans, mean)
  }

  /** The casualty aggregation: casualties per accident. */
  function CasualtiesAgg(casualties: Table, mean: seq<Cell> -> Cell): Option<Table> {
    Aggregate(casualties, "Casualty_Severity", NumCasualties, [], mean)
  }

  lemma AggColumns(vehicles: Table, casualties: Table, mean: seq<Cell> -> Cell)
    ensures VehiclesAgg(vehicles, mean).Some? ==>
              VehiclesAgg(vehicles, mean).value.columns == [Index, NumVehicles, "Avg_Vehicle_Age", "Avg_Engine_CC"]
    ensures CasualtiesAgg(casualties, mean).Some? ==> CasualtiesAgg(casualties, mean).value.columns == [Index, NumCasualties]
  {
    assert Targets(VehicleMeans) == ["Avg_Vehicle_Age", "Avg_Engine_CC"];
    assert Targets([]) == [];
  }

  /** What the script can run on: every column it names exists, and the accidents do
      not already have a count column (the merge would rename both copies with a
      suffix and reading the count column raises `KeyError`). */
  predicate Mergeable(accidents: Table, vehicles: Table, casualties: Table, mean: seq<Cell> -> Cell) {
    && VehiclesAgg(vehicles, mean).Some? && CasualtiesAgg(casualties, mean).Some?
    && Index in accidents.columns
    && NumVehicles !in accidents.columns && NumCasualties !in accidents.columns
  }

  /** The merged table the script saves; `mean` is pandas' `mean` of a group's column. */
  function MergeAndInspect(accidents: Table, vehicles: Table, casualties: Table, mean: seq<Cell> -> Cell): (r: Option<Table>)
    ensures r.Some? <==> Mergeable(accidents, vehicles, casualties, mean)
    ensures r.Some? ==> r.value.columns == accidents.columns + [NumVehicles, "Avg_Vehicle_Age", "Avg_Engine_CC", NumCasualties]
    ensures r.Some? ==> |r.value.rows| == |accidents.rows|
  {
    if Mergeable(accidents, vehicles, casualties, mean) then
      var vagg := VehiclesAgg(vehicles, mean).value;
      var cagg := CasualtiesAgg(casualties, mean).value;
      AggColumns(vehicles, casualties, mean);
      MergedRows(accidents, vehicles, casualties, mean);
      var merged := LeftMerge(LeftMerge(accidents, vagg), cagg);
      assert merged.columns == accidents.columns + [NumVehicles, "Avg_Vehicle_Age", "Avg_Engine_CC", NumCasualties];
      assert NumCasualties in merged.columns && NumVehicles in merged.columns;
      Some(FillZero(FillZero(merged, NumCasualties), NumVehicles))
    else None
  }

  /** The key and count of the aggregate row an accident is merged with: the count is
      what `Tally` says, zero when the accident has no rows there. */
  lemma JoinedCount(cols: seq<string>, l: Line, t: Table, counted: string, countName: string,
                    means: seq<(string, string)>, mean: seq<Cell> -> Cell)
    requires Aggregate(t, counted, countName, means, mean).Some?
    requires countName != Index && countName !in Targets(means)
    ensures var agg := Aggregate(t, counted, countName, means, mean).value;
            var tail := Joined(cols, l, agg)[|cols|..];
            var c := Get(agg.columns[1..], tail, countName);
            (if IsNA(c) then CountCell(0) else c) == CountCell(Tally(t, Get(cols, l, Index), counted))
  {
    var agg := Aggregate(t, counted, countName, means, mean).value;
    JoinedTail(cols, l, t, counted, countName, means, mean);
    GetFirst(agg.columns[1..], Joined(cols, l, agg)[|cols|..], countName);
  }

  lemma GetFirst(cols: seq<string>, line: Line, c: string)
    requires cols != [] && cols[0] == c
    ensures Get(cols, line, c) == At(line, 0)
  {
  }

  /** The first merged field is the count, or missing when the accident has no rows. */
  lemma JoinedTail(cols: seq<string>, l: Line, t: Table, counted: string, countName: string,
                   means: seq<(string, string)>, mean: seq<Cell> -> Cell)
    requires Aggregate(t, counted, countName, means, mean).Some?
    ensures var agg := Aggregate(t, counted, countName, means, mean).value;
            var tail := Joined(cols, l, agg)[|cols|..];
            var key := Get(cols, l, Index);
            |tail| == |agg.columns| - 1 >= 1
            && (tail[0].None? ==> Tally(t, key, counted) == 0)
            && (tail[0].Some? ==> tail[0] == CountCell(Tally(t, key, counted)))
  {
    var agg := Aggregate(t, counted, countName, means, mean).value;
    var key := Get(cols, l, Index);
    var w := |agg.columns| - 1;
    var tail := Joined(cols, l, agg)[|cols|..];
    match Lookup(agg.rows, key)
    case None =>
      assert tail == Blanks(w);
      LookupNoneTally(t, counted, countName, means, mean, key);
    case Some(m) =>
      assert tail == Rest(m, w);
      LookupSomeTally(t, counted, countName, means, mean, key, m);
  }

  lemma LookupNoneTally(t: Table, counted: string, countName: string, means: seq<(string, string)>,
                        mean: seq<Cell> -> Cell, key: Cell)
    requires Aggregate(t, counted, countName, means, mean).Some?
    requires Lookup(Aggregate(t, counted, countName, means, mean).value.rows, key).None?
    ensures Tally(t, key, counted) == 0
  {
    var agg := Aggregate(t, counted, countName, means, mean).value;
    OneRowPerAccident(t, counted, countName, means, mean);
    assert key !in KeyFields(agg.rows) by {
      forall i | 0 <= i < |agg.rows| ensures KeyFields(agg.rows)[i] != key {
        assert agg.rows[i] in agg.rows;
      }
    }
    TallyAbsent(t, key, counted);
  }

  lemma LookupSomeTally(t: Table, counted: string, countName: string, means: seq<(string, string)>,
                        mean: seq<Cell> -> Cell, key: Cell, m: Line)
    requires Aggregate(t, counted, countName, means, mean).Some?
    requires Lookup(Aggregate(t, counted, countName, means, mean).value.rows, key) == Some(m)
    ensures |m| >= 2 && m[1] == CountCell(Tally(t, key, counted))
  {
    var agg := Aggregate(t, counted, countName, means, mean).value;
    var i :| 0 <= i < |agg.rows| && agg.rows[i] == m;
    assert At(m, 0) == m[0] == GroupKeys(t)[i];
  }

  /** Both merges keep every accident once, in order, with its own fields unchanged. */
  lemma MergeKeepsAccidents(accidents: Table, vehicles: Table, casualties: Table, mean: seq<Cell> -> Cell)
    requires Mergeable(accidents, vehicles, casualties, mean)
    ensures var out := MergeAndInspect(accidents, vehicles, casualties, mean).value;
            && |out.rows| == |accidents.rows|
            && forall i, c :: 0 <= i < |accidents.rows| && c in accidents.columns ==>
                 Get(out.columns, out.rows[i], c) == Get(accidents.columns, accidents.rows[i], c)
  {
    var m1 := LeftMerge(accidents, VehiclesAgg(vehicles, mean).value);
    var m2 := LeftMerge(m1, CasualtiesAgg(casualties, mean).value);
    MergedIs(accidents, vehicles, casualties, mean);
    MergedRows(accidents, vehicles, casualties, mean);
    forall i, c | 0 <= i < |accidents.rows| && c in accidents.columns
      ensures Get(m2.columns, m2.rows[i], c) == Get(accidents.columns, accidents.rows[i], c)
    {
      FirstMergeKeeps(accidents, vehicles, casualties, mean, i, c);
      SecondMergeKeeps(accidents, vehicles, casualties, mean, i, c);
    }
  }

  /** The vehicle merge leaves an accident's own fields unchanged. */
  lemma FirstMergeKeeps(accidents: Table, vehicles: Table, casualties: Table, mean: seq<Cell> -> Cell, i: nat, c: string)
    requires Mergeable(accidents, vehicles, casualties, mean)
    requires i < |accidents.rows| && c in accidents.columns
    ensures var m1 := LeftMerge(accidents, VehiclesAgg(vehicles, mean).value);
            |m1.rows| == |accidents.rows| && Get(m1.columns, m1.rows[i], c) == Get(accidents.columns, accidents.rows[i], c)
  {
    var vagg := VehiclesAgg(vehicles, mean).value;
    var m1 := LeftMerge(accidents, vagg);
    MergedRows(accidents, vehicles, casualties, mean);
    GetJoined(accidents.columns, vagg.columns[1..], accidents.rows[i], m1.rows[i][|accidents.columns|..], c);
    assert m1.rows[i] == Fit(accidents.rows[i], |accidents.columns|) + m1.rows[i][|accidents.columns|..];
  }

  /** The casualty merge leaves the fields of the vehicle merge unchanged. */
  lemma SecondMergeKeeps(accidents: Table, vehicles: Table, casualties: Table, mean: seq<Cell> -> Cell, i: nat, c: string)
    requires Mergeable(accidents, vehicles, casualties, mean)
    requires i < |accidents.rows|
    requires c in LeftMerge(accidents, VehiclesAgg(vehicles, mean).value).columns
    ensures var m1 := LeftMerge(accidents, VehiclesAgg(vehicles, mean).value);
            var m2 := LeftMerge(m1, CasualtiesAgg(casualties, mean).value);
            |m1.rows| == |m2.rows| == |accidents.rows| && Get(m2.columns, m2.rows[i], c) == Get(m1.columns, m1.rows[i], c)
  {
    var cagg := CasualtiesAgg(casualties, mean).value;
    var m1 := LeftMerge(accidents, VehiclesAgg(vehicles, mean).value);
    var m2 := LeftMerge(m1, cagg);
    MergedRows(accidents, vehicles, casualties, mean);
    GetJoined(m1.columns, cagg.columns[1..], m1.rows[i], m2.rows[i][|m1.columns|..], c);
    assert m2.rows[i] == Fit(m1.rows[i], |m1.columns|) + m2.rows[i][|m1.columns|..];
  }

  /** The two merges row by row. */
  lemma MergedRows(accidents: Table, vehicles: Table, casualties: Table, mean: seq<Cell> -> Cell)
    requires Mergeable(accidents, vehicles, casualties, mean)
    ensures var vagg := VehiclesAgg(vehicles, mean).value;
            var cagg := CasualtiesAgg(casualties, mean).value;
            var m1 := LeftMerge(accidents, vagg);
            var m2 := LeftMerge(m1, cagg);
            && |m1.rows| == |m2.rows| == |accidents.rows|
            && (forall i :: 0 <= i < |accidents.rows| ==> m1.rows[i] == Joined(accidents.columns, accidents.rows[i], vagg))
            && (forall i :: 0 <= i < |accidents.rows| ==> m2.rows[i] == Joined(m1.columns, m1.rows[i], cagg))
  {
    var vagg := VehiclesAgg(vehicles, mean).value;
    var cagg := CasualtiesAgg(casualties, mean).value;
    OneRowPerAccident(vehicles, "Vehicle_Type", NumVehicles, VehicleMeans, mean);
    OneRowPerAccident(casualties, "Casualty_Severity", NumCasualties, [], mean);
    var m1 := LeftMerge(accidents, vagg);
    UniqueKeysKeepRows(accidents.columns, accidents.rows, vagg);
    UniqueKeysKeepRows(m1.columns, m1.rows, cagg);
  }

  /** One merge, read back: the left fields are unchanged, and the count column, with
      a missing value read as 0, is the accident's `Tally`. */
  lemma MergedCount(cols: seq<string>, l: Line, t: Table, counted: string, countName: string,
                    means: seq<(string, string)>, mean: seq<Cell> -> Cell)
    requires Aggregate(t, counted, countName, means, mean).Some?
    requires countName != Index && countName !in Targets(means) && countName !in cols
    ensures var agg := Aggregate(t, counted, countName, means, mean).value;
            var j := Joined(cols, l, agg);
            var c := Get(cols + agg.columns[1..], j, countName);
            && (if IsNA(c) then CountCell(0) else c) == CountCell(Tally(t, Get(cols, l, Index), counted))
            && forall d :: d in cols ==> Get(cols + agg.columns[1..], j, d) == Get(cols, l, d)
  {
    var agg := Aggregate(t, counted, countName, means, mean).value;
    var j := Joined(cols, l, agg);
    var tail := j[|cols|..];
    assert j == Fit(l, |cols|) + tail;
    JoinedCount(cols, l, t, counted, countName, means, mean);
    GetJoined(cols, agg.columns[1..], l, tail, countName);
    forall d | d in cols ensures Get(cols + agg.columns[1..], j, d) == Get(cols, l, d) {
      GetJoined(cols, agg.columns[1..], l, tail, d);
    }
  }

  /** A count cell as `fillna(0)` leaves it. */
  function Filled(c: Cell): Cell {
    if IsNA(c) then CountCell(0) else c
  }

  /** `Num_Vehicles` is the number of vehicle rows of the accident with a
      `Vehicle_Type`, and `Num_Casualties` the number of casualty rows with a
      `Casualty_Severity`; both are 0 for an accident that has none. */
  lemma CountsPerAccident(accidents: Table, vehicles: Table, casualties: Table, mean: seq<Cell> -> Cell, i: nat)
    requires Mergeable(accidents, vehicles, casualties, mean)
    requires i < |accidents.rows|
    ensures var out := MergeAndInspect(accidents, vehicles, casualties, mean).value;
            var key := Get(accidents.columns, accidents.rows[i], Index);
            && Get(out.columns, out.rows[i], NumVehicles) == CountCell(Tally(vehicles, key, "Vehicle_Type"))
            && Get(out.columns, out.rows[i], NumCasualties) == CountCell(Tally(casualties, key, "Casualty_Severity"))
  {
    var m2 := LeftMerge(LeftMerge(accidents, VehiclesAgg(vehicles, mean).value), CasualtiesAgg(casualties, mean).value);
    MergedIs(accidents, vehicles, casualties, mean);
    VehicleCount(accidents, vehicles, casualties, mean, i);
    CasualtyCount(accidents, vehicles, casualties, mean, i);
    var f1 := FillZero(m2, NumCasualties);
    var out := FillZero(f1, NumVehicles);
    assert Get(f1.columns, f1.rows[i], NumVehicles) == Get(m2.columns, m2.rows[i], NumVehicles);
    assert Get(out.columns, out.rows[i], NumCasualties) == Get(f1.columns, f1.rows[i], NumCasualties);
  }

  /** The saved table is the two merges with both count columns filled. */
  lemma MergedIs(accidents: Table, vehicles: Table, casualties: Table, mean: seq<Cell> -> Cell)
    requires Mergeable(accidents, vehicles, casualties, mean)
    ensures var m2 := LeftMerge(LeftMerge(accidents, VehiclesAgg(vehicles, mean).value), CasualtiesAgg(casualties, mean).value);
            MergeAndInspect(accidents, vehicles, casualties, mean).value == FillZero(FillZero(m2, NumCasualties), NumVehicles)
  {
  }

  lemma VehicleCount(accidents: Table, vehicles: Table, casualties: Table, mean: seq<Cell> -> Cell, i: nat)
    requires Mergeable(accidents, vehicles, casualties, mean)
    requires i < |accidents.rows|
    ensures var m1 := LeftMerge(accidents, VehiclesAgg(vehicles, mean).value);
            var m2 := LeftMerge(m1, CasualtiesAgg(casualties, mean).value);
            && |m2.rows| == |accidents.rows|
            && Filled(Get(m2.columns, m2.rows[i], NumVehicles))
               == CountCell(Tally(vehicles, Get(accidents.columns, accidents.rows[i], Index), "Vehicle_Type"))
  {
    FirstVehicleCount(accidents, vehicles, mean, i);
    SecondMergeKeeps(accidents, vehicles, casualties, mean, i, NumVehicles);
  }

  /** The vehicle count as the first merge leaves it. */
  lemma FirstVehicleCount(accidents: Table, vehicles: Table, mean: seq<Cell> -> Cell, i: nat)
    requires VehiclesAgg(vehicles, mean).Some?
    requires NumVehicles !in accidents.columns
    requires i < |accidents.rows|
    ensures var m1 := LeftMerge(accidents, VehiclesAgg(vehicles, mean).value);
            && NumVehicles in m1.columns && |m1.rows| == |accidents.rows|
            && Filled(Get(m1.columns, m1.rows[i], NumVehicles))
               == CountCell(Tally(vehicles, Get(accidents.columns, accidents.rows[i], Index), "Vehicle_Type"))
  {
    var vagg := VehiclesAgg(vehicles, mean).value;
    assert Targets(VehicleMeans) == ["Avg_Vehicle_Age", "Avg_Engine_CC"];
    assert vagg.columns == [Index, NumVehicles, "Avg_Vehicle_Age", "Avg_Engine_CC"];
    OneRowPerAccident(vehicles, "Vehicle_Type", NumVehicles, VehicleMeans, mean);
    UniqueKeysKeepRows(accidents.columns, accidents.rows, vagg);
    MergedCount(accidents.columns, accidents.rows[i], vehicles, "Vehicle_Type", NumVehicles, VehicleMeans, mean);
  }

  lemma CasualtyCount(accidents: Table, vehicles: Table, casualties: Table, mean: seq<Cell> -> Cell, i: nat)
    requires Mergeable(accidents, vehicles, casualties, mean)
    requires i < |accidents.rows|
    ensures var m1 := LeftMerge(accidents, VehiclesAgg(vehicles, mean).value);
            var m2 := LeftMerge(m1, CasualtiesAgg(casualties, mean).value);
            && |m2.rows| == |accidents.rows|
            && Filled(Get(m2.columns, m2.rows[i], NumCasualties))
               == CountCell(Tally(casualties, Get(accidents.columns, accidents.rows[i], Index), "Casualty_Severity"))
  {
    var vagg := VehiclesAgg(vehicles, mean).value;
    var m1 := LeftMerge(accidents, vagg);
    AggColumns(vehicles, casualties, mean);
    MergedRows(accidents, vehicles, casualties, mean);
    assert m1.columns == accidents.columns + [NumVehicles, "Avg_Vehicle_Age", "Avg_Engine_CC"];
    assert Targets([]) == [];
    MergedCount(m1.columns, m1.rows[i], casualties, "Casualty_Severity", NumCasualties, [], mean);
    FirstMergeKeeps(accidents, vehicles, casualties, mean, i, Index);
  }

  /** Both count columns hold non-negative whole numbers in every row. */
  lemma CountsAreNaturals(accidents: Table, vehicles: Table, casualties: Table, mean: seq<Cell> -> Cell, i: nat)
    requires Mergeable(accidents, vehicles, casualties, mean)
    requires i < |accidents.rows|
    ensures var out := MergeAndInspect(accidents, vehicles, casualties, mean).value;
            var v := WholeNumber(Get(out.columns, out.rows[i], NumVehicles));
            var c := WholeNumber(Get(out.columns, out.rows[i], NumCasualties));
            v.Some? && v.value >= 0 && c.Some? && c.value >= 0
  {
    CountsPerAccident(accidents, vehicles, casualties, mean, i);
    var key := Get(accidents.columns, accidents.rows[i], Index);
    CountCellWhole(Tally(vehicles, key, "Vehicle_Type"));
    CountCellWhole(Tally(casualties, key, "Casualty_Severity"));
  }

  lemma CountCellWhole(n: nat)
    ensures WholeNumber(CountCell(n)) == Some(n)
  {
    assert (n as real).Floor == n;
  }
}
