/** analyzer/scripts/map_states_shapefile.py: clean the accident rows down to those
    with usable coordinates, join them with the state shapes, name the state column
    `state`, and drop the join's helper columns. */
module StateShapes {
  import opened Tables
  import opened Frames

  const Lat: string := "latitude"
  const Lon: string := "longitude"

  /** The four row conditions of the cleaning (blank rows, missing coordinates,
      non-numeric latitude, non-numeric longitude), in the order they are applied. */
  function Chain(number: string -> Option<Float>): Test {
    Both(Both(Both(AnyValue, Present([Lat, Lon])), Numeric(Lat, number)), Numeric(Lon, number))
  }

  /** The four cleaning filters one after the other are one filter by all four. */
  lemma ChainIsOneFilter(t: Table, number: string -> Option<Float>)
    ensures Where(Where(Where(Where(t, AnyValue), Present([Lat, Lon])), Numeric(Lat, number)), Numeric(Lon, number))
         == Where(t, Chain(number))
  {
    var cols := t.columns;
    var a, p, nl, no := AnyValue, Present([Lat, Lon]), Numeric(Lat, number), Numeric(Lon, number);
    FilterBoth(cols, t.rows, a, p);
    FilterBoth(cols, t.rows, Both(a, p), nl);
    FilterBoth(cols, t.rows, Both(Both(a, p), nl), no);
  }

  /** The cleaned table: the rows that pass the chain, with both coordinates made
      floats (`astype(float)`, which accepts what `to_numeric` accepted); None is the
      `KeyError` of `dropna(subset=...)` when a coordinate column does not exist. */
  function CleanSpec(t: Table, number: string -> Option<Float>): (r: Option<Table>)
    ensures r.Some? <==> Lat in t.columns && Lon in t.columns
    ensures r.Some? ==> r.value.columns == t.columns && |r.value.rows| <= |t.rows|
  {
    if Lat in t.columns && Lon in t.columns then
      Some(ConvertColumn(ConvertColumn(Where(t, Chain(number)), Lat, ToNumber(number)), Lon, ToNumber(number)))
    else None
  }

  /** Reading and cleaning the accidents, on a frame. */
  method CleanAccidents(t: Table, number: string -> Option<Float>) returns (r: Option<Table>)
    ensures r == CleanSpec(t, number)
  {
    if Lat !in t.columns || Lon !in t.columns {
      return None;
    }
    var df := new Frame(t);
    df.DropBlankRows();
    var v := Where(df.View(), Present([Lat, Lon]));
    v := Where(v, Numeric(Lat, number));
    v := Where(v, Numeric(Lon, number));
    ChainIsOneFilter(t, number);
    df := new Frame(v);
    df.Convert(Lat, ToNumber(number));
    df.Convert(Lon, ToNumber(number));
    return Some(df.View());
  }

  /** After cleaning, row `i` comes from the `i`-th row of the input that passes the
      chain: its coordinates are that row's converted to numbers, and every other
      field is as it was. */
  lemma CleanedRows(t: Table, number: string -> Option<Float>)
    requires Lat in t.columns && Lon in t.columns
    ensures var r := CleanSpec(t, number).value;
            var s := Filter(t.columns, t.rows, Chain(number));
            && r.columns == t.columns
            && |r.rows| == |s|
            && (forall i :: 0 <= i < |s| ==>
                  && Get(r.columns, r.rows[i], Lat) == ToNumeric(Get(t.columns, s[i], Lat), number)
                  && Get(r.columns, r.rows[i], Lon) == ToNumeric(Get(t.columns, s[i], Lon), number))
            && (forall i, c :: 0 <= i < |s| && c != Lat && c != Lon ==>
                  Get(r.columns, r.rows[i], c) == Get(t.columns, s[i], c))
  {
    var s := Filter(t.columns, t.rows, Chain(number));
    var w := Where(t, Chain(number));
    var c1 := ConvertColumn(w, Lat, ToNumber(number));
    var r := ConvertColumn(c1, Lon, ToNumber(number));
    assert w.rows == s;
    forall i | 0 <= i < |s|
      ensures Get(r.columns, r.rows[i], Lat) == ToNumeric(Get(t.columns, s[i], Lat), number)
      ensures Get(r.columns, r.rows[i], Lon) == ToNumeric(Get(t.columns, s[i], Lon), number)
    {
      assert Get(r.columns, r.rows[i], Lat) == Get(c1.columns, c1.rows[i], Lat);
      assert Get(c1.columns, c1.rows[i], Lon) == Get(t.columns, s[i], Lon);
    }
  }

  /** Every cleaned row had a value somewhere, and both of its coordinates are now
      numbers (not NaN). */
  lemma CleanedCoordinates(t: Table, number: string -> Option<Float>, i: nat)
    requires Lat in t.columns && Lon in t.columns
    requires i < |CleanSpec(t, number).value.rows|
    ensures var r := CleanSpec(t, number).value;
            var s := Filter(t.columns, t.rows, Chain(number));
            && s[i] in t.rows
            && (exists k :: 0 <= k < |t.columns| && !IsNA(At(s[i], k)))
            && Get(r.columns, r.rows[i], Lat).Some? && Get(r.columns, r.rows[i], Lat).value.Num?
            && Get(r.columns, r.rows[i], Lon).Some? && Get(r.columns, r.rows[i], Lon).value.Num?
            && !IsNA(Get(r.columns, r.rows[i], Lat)) && !IsNA(Get(r.columns, r.rows[i], Lon))
  {
    var s := Filter(t.columns, t.rows, Chain(number));
    CleanedRows(t, number);
    FilterMembers(t.columns, t.rows, Chain(number));
    assert s[i] in s;
    ChainParts(t.columns, s[i], number);
  }

  /** A row passes the chain exactly when it passes each of the four conditions. */
  lemma ChainParts(cols: seq<string>, l: Line, number: string -> Option<Float>)
    ensures Holds(cols, Chain(number), l) <==>
              && (exists k :: 0 <= k < |cols| && !IsNA(At(l, k)))
              && !IsNA(Get(cols, l, Lat)) && !IsNA(Get(cols, l, Lon))
              && IsNumeric(Get(cols, l, Lat), number) && IsNumeric(Get(cols, l, Lon), number)
  {
    var a, p := AnyValue, Present([Lat, Lon]);
    var nl := Numeric(Lat, number);
    assert Holds(cols, Both(a, p), l) <==> Holds(cols, a, l) && Holds(cols, p, l);
    assert Holds(cols, Both(Both(a, p), nl), l) <==> Holds(cols, Both(a, p), l) && Holds(cols, nl, l);
    assert Lat in [Lat, Lon] && Lon in [Lat, Lon];
  }

  /** Cleaning keeps the input order: a table cleaned in two pieces gives the two
      cleaned pieces one after the other. */
  lemma CleanKeepsOrder(t: Table, more: seq<Line>, number: string -> Option<Float>)
    ensures Filter(t.columns, t.rows + more, Chain(number))
         == Filter(t.columns, t.rows, Chain(number)) + Filter(t.columns, more, Chain(number))
  {
    FilterAppend(t.columns, t.rows, more, Chain(number));
  }

  const Candidates: seq<string> := ["st_name", "STATE_NAME", "NAME_1", "NAME_2", "admin"]

  /** The first of `names` that is a column. */
  function FirstPresent(cols: seq<string>, names: seq<string>): (r: Option<nat>)
    ensures r.None? <==> forall n :: n in names ==> n !in cols
    ensures r.Some? ==> r.value < |names| && names[r.value] in cols
                        && forall j :: 0 <= j < r.value ==> names[j] !in cols
  {
    if names == [] then None
    else if names[0] in cols then Some(0)
    else match FirstPresent(cols, names[1..])
      case None => None
      case Some(j) => Some(j + 1)
  }

  /** The state-column rename: the first candidate that exists is renamed to `state`,
      and only it. */
  function StateRenamed(t: Table): (r: Table)
    ensures r.rows == t.rows && |r.columns| == |t.columns|
    ensures FirstPresent(t.columns, Candidates).Some? ==> "state" in r.columns
  {
    match FirstPresent(t.columns, Candidates)
    case None => t
    case Some(j) => Rename(t, Candidates[j], "state")
  }

  /** At most one name changes: every column keeps its name except those named like
      the first candidate present, which become `state`; with no candidate present,
      nothing changes. */
  lemma RenamesFirstCandidateOnly(t: Table)
    ensures var r := StateRenamed(t);
            var f := FirstPresent(t.columns, Candidates);
            && r.rows == t.rows && |r.columns| == |t.columns|
            && (f.None? ==> r == t)
            && (f.Some? ==> forall k :: 0 <= k < |t.columns| ==>
                  r.columns[k] == if t.columns[k] == Candidates[f.value] then "state" else t.columns[k])
            && (f.Some? ==> forall k :: 0 <= k < |t.columns| && t.columns[k] != Candidates[f.value] ==>
                  t.columns[k] !in Candidates[..f.value])
  {
  }

  /** The candidate loop, renaming in place and stopping at the first match. */
  method RenameState(df: Frame)
    modifies df
    ensures df.View() == StateRenamed(old(df.View()))
  {
    var i := 0;
    while i < |Candidates|
      invariant 0 <= i <= |Candidates|
      invariant forall j :: 0 <= j < i ==> Candidates[j] !in df.columns
      invariant df.View() == old(df.View())
    {
      if Candidates[i] in df.columns {
        FirstPresentIs(df.columns, Candidates, i);
        df.RenameColumn(Candidates[i], "state");
        return;
      }
      i := i + 1;
    }
  }

  lemma FirstPresentIs(cols: seq<string>, names: seq<string>, i: nat)
    requires i < |names| && names[i] in cols && forall j :: 0 <= j < i ==> names[j] !in cols
    ensures FirstPresent(cols, names) == Some(i)
  {
    var f := FirstPresent(cols, names);
    assert f.Some?;
  }

  /** The positions, from `from` on, of the columns whose name is not in `names`. */
  function KeepPositions(cols: seq<string>, names: seq<string>, from: nat): (ks: seq<nat>)
    requires from <= |cols|
    decreases |cols| - from
    ensures forall j :: 0 <= j < |ks| ==> from <= ks[j] < |cols| && cols[ks[j]] !in names
  {
    if from == |cols| then []
    else if cols[from] in names then KeepPositions(cols, names, from + 1)
    else [from] + KeepPositions(cols, names, from + 1)
  }

  /** Every position past `from` whose name is kept is there, in increasing order. */
  lemma KeepPositionsComplete(cols: seq<string>, names: seq<string>, from: nat)
    requires from <= |cols|
    ensures var ks := KeepPositions(cols, names, from);
            && (forall k :: from <= k < |cols| && cols[k] !in names ==> k in ks)
            && (forall i, j :: 0 <= i < j < |ks| ==> ks[i] < ks[j])
  {
    KeepPositionsAll(cols, names, from);
    KeepPositionsIncreasing(cols, names, from);
  }

  lemma {:induction false} KeepPositionsAll(cols: seq<string>, names: seq<string>, from: nat)
    requires from <= |cols|
    decreases |cols| - from
    ensures forall k :: from <= k < |cols| && cols[k] !in names ==> k in KeepPositions(cols, names, from)
  {
    if from < |cols| {
      KeepPositionsAll(cols, names, from + 1);
      var rest := KeepPositions(cols, names, from + 1);
      var ks := KeepPositions(cols, names, from);
      if cols[from] !in names {
        assert ks == [from] + rest;
        forall k | from <= k < |cols| && cols[k] !in names ensures k in ks {
          if k > from { assert k in rest; }
        }
      } else {
        assert ks == rest;
      }
    }
  }

  lemma {:induction false} KeepPositionsIncreasing(cols: seq<string>, names: seq<string>, from: nat)
    requires from <= |cols|
    decreases |cols| - from
    ensures Ascending(KeepPositions(cols, names, from))
  {
    if from < |cols| {
      KeepPositionsIncreasing(cols, names, from + 1);
      var rest := KeepPositions(cols, names, from + 1);
      var ks := KeepPositions(cols, names, from);
      if cols[from] !in names {
        assert ks == [from] + rest;
        forall i, j | 0 <= i < j < |ks| ensures ks[i] < ks[j] {
          assert ks[j] == rest[j - 1];
          if i > 0 {
            assert ks[i] == rest[i - 1] < rest[j - 1];
          }
        }
      }
    }
  }

  predicate Ascending(ks: seq<nat>) {
    forall i, j :: 0 <= i < j < |ks| ==> ks[i] < ks[j]
  }

  /** `drop(columns=names, errors="ignore")`: the other columns, in order, with their
      cells. */
  function DropIgnoring(t: Table, names: seq<string>): (r: Table)
    ensures forall c :: c in r.columns <==> c in t.columns && c !in names
    ensures |r.rows| == |t.rows|
  {
    var ks := KeepPositions(t.columns, names, 0);
    KeepPositionsComplete(t.columns, names, 0);
    var r := Project(t, ks);
    assert forall c :: c in r.columns ==> c in t.columns && c !in names by {
      forall c | c in r.columns ensures c in t.columns && c !in names {
        var j :| 0 <= j < |r.columns| && r.columns[j] == c;
        assert c == t.columns[ks[j]];
      }
    }
    assert forall c :: c in t.columns && c !in names ==> c in r.columns by {
      forall c | c in t.columns && c !in names ensures c in r.columns {
        var k :| 0 <= k < |t.columns| && t.columns[k] == c;
        var j :| 0 <= j < |ks| && ks[j] == k;
        assert r.columns[j] == c;
      }
    }
    r
  }

  /** The header with the names of `names` taken out, left to right. */
  function Without(cols: seq<string>, names: seq<string>): seq<string> {
    if cols == [] then []
    else (if cols[0] in names then [] else [cols[0]]) + Without(cols[1..], names)
  }

  /** Dropping keeps the remaining columns in their original order. */
  lemma DropKeepsColumnOrder(t: Table, names: seq<string>)
    ensures DropIgnoring(t, names).columns == Without(t.columns, names)
  {
    KeepNames(t.columns, names, 0);
    var ks := KeepPositions(t.columns, names, 0);
    assert t.columns[0..] == t.columns;
    assert DropIgnoring(t, names).columns == Project(t, ks).columns;
  }

  lemma {:induction false} KeepNames(cols: seq<string>, names: seq<string>, from: nat)
    requires from <= |cols|
    decreases |cols| - from
    ensures var ks := KeepPositions(cols, names, from);
            |ks| == |Without(cols[from..], names)|
            && forall j :: 0 <= j < |ks| ==> cols[ks[j]] == Without(cols[from..], names)[j]
  {
    if from < |cols| {
      KeepNames(cols, names, from + 1);
      var rest := KeepPositions(cols, names, from + 1);
      var ks := KeepPositions(cols, names, from);
      var w := Without(cols[from + 1..], names);
      assert cols[from..][1..] == cols[from + 1..];
      if cols[from] !in names {
        assert ks == [from] + rest;
        assert Without(cols[from..], names) == [cols[from]] + w;
        forall j | 0 <= j < |ks| ensures cols[ks[j]] == Without(cols[from..], names)[j] {
          if j > 0 { assert ks[j] == rest[j - 1]; }
        }
      } else {
        assert Without(cols[from..], names) == w;
      }
    } else {
      assert cols[from..] == [];
    }
  }

  /** Names that are not columns are ignored: dropping only absent names keeps every
      column and every cell. */
  lemma DropAbsentKeepsAll(t: Table, names: seq<string>)
    requires forall n :: n in names ==> n !in t.columns
    ensures var r := DropIgnoring(t, names);
            r.columns == t.columns
            && forall i, c :: 0 <= i < |t.rows| ==> Get(r.columns, r.rows[i], c) == Get(t.columns, t.rows[i], c)
  {
    var ks := KeepPositions(t.columns, names, 0);
    KeepAllPositions(t.columns, names, 0);
    var r := DropIgnoring(t, names);
    assert r.columns == t.columns;
  }

  lemma {:induction false} KeepAllPositions(cols: seq<string>, names: seq<string>, from: nat)
    requires from <= |cols|
    requires forall n :: n in names ==> n !in cols
    decreases |cols| - from
    ensures var ks := KeepPositions(cols, names, from);
            |ks| == |cols| - from && forall j :: 0 <= j < |ks| ==> ks[j] == from + j
  {
    if from < |cols| {
      KeepAllPositions(cols, names, from + 1);
      var rest := KeepPositions(cols, names, from + 1);
      assert cols[from] in cols;
      var ks := KeepPositions(cols, names, from);
      assert ks == [from] + rest;
      forall j | 0 <= j < |ks| ensures ks[j] == from + j {
        if j > 0 { assert ks[j] == rest[j - 1]; }
      }
    }
  }

  /** The script after the cleaning; `join` is the coordinate-to-state join with the
      shapes (GeoDataFrame, `to_crs`, `sjoin`). */
  method MapStatesShapefile(t: Table, number: string -> Option<Float>, join: Table -> Table) returns (r: Option<Table>)
    ensures CleanSpec(t, number).None? ==> r.None?
    ensures CleanSpec(t, number).Some? ==>
              r == Some(DropIgnoring(StateRenamed(join(CleanSpec(t, number).value)), ["geometry", "index_right"]))
  {
    var cleaned := CleanAccidents(t, number);
    if cleaned.None? {
      return None;
    }
    var joined := new Frame(join(cleaned.value));
    RenameState(joined);
    return Some(DropIgnoring(joined.View(), ["geometry", "index_right"]));
  }
}
