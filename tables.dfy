/** The data model shared by the dashboard and its preparation scripts: a table as
    pandas holds one after `read_csv`, cell access by column name, and row filters.

    A table keeps its header and its rows positionally, as a CSV file does; a row that
    is shorter than the header reads as missing in the columns it lacks. */
module Tables {

  datatype Option<T> = None | Some(value: T)

  /** A float as pandas and Python hold it: finite, an infinity, or NaN. */
  datatype Float = Finite(r: real) | Infinite(negative: bool) | NaN

  /** The value of one non-empty cell: text, a number, or a parsed timestamp
      (pandas keeps timestamps as a count of nanoseconds). */
  datatype Value = Text(s: string) | Num(f: Float) | Stamp(ticks: int)

  /** `None` is an empty CSV field. */
  type Cell = Option<Value>
  type Line = seq<Cell>
  datatype Table = Table(columns: seq<string>, rows: seq<Line>)

  /** The coercions the code relies on but which belong to Python and pandas:
      `number` is `float(...)`/`pd.to_numeric` on a piece of text (None when it raises
      or coerces to a failure), `date` and `dayFirstDate` are `pd.to_datetime(...)`
      without and with `dayfirst=True` on one value (None when it coerces to NaT),
      `show` is `str(...)` of a float. */
  datatype Parsers = Parsers(
    number: string -> Option<Float>,
    date: Value -> Option<int>,
    dayFirstDate: Value -> Option<int>,
    show: Float -> string)

  /** pandas' `isna`: an empty field, or a float NaN. */
  predicate IsNA(c: Cell) {
    c.None? || c == Some(Num(NaN))
  }

  /** Position of the first column named `c`. */
  function Find(cols: seq<string>, c: string): (k: Option<nat>)
    ensures k.None? <==> c !in cols
    ensures k.Some? ==> k.value < |cols| && cols[k.value] == c && c !in cols[..k.value]
  {
    if cols == [] then None
    else if cols[0] == c then Some(0)
    else match Find(cols[1..], c)
      case None => None
      case Some(j) =>
        assert cols[1..][..j] == cols[1..j + 1];
        assert cols[..j + 1] == [cols[0]] + cols[1..j + 1];
        Some(j + 1)
  }

  function At(line: Line, k: nat): Cell {
    if k < |line| then line[k] else None
  }

  /** `df[c]` for one row; a column that does not exist reads as missing. */
  function Get(cols: seq<string>, line: Line, c: string): Cell {
    match Find(cols, c)
    case None => None
    case Some(k) => At(line, k)
  }

  /** A line cut or padded to `n` fields, as pandas aligns a CSV line to its header. */
  function Fit(line: Line, n: nat): (r: Line)
    ensures |r| == n
    ensures forall k :: 0 <= k < n ==> r[k] == At(line, k)
  {
    seq(n, k requires 0 <= k < n => At(line, k))
  }

  /** A cell is read under the first column with that name, and is missing when no
      column has the name or the line is too short. */
  lemma GetReads(cols: seq<string>, line: Line, c: string)
    ensures c !in cols ==> Get(cols, line, c) == None
    ensures forall k :: 0 <= k < |cols| && cols[k] == c && c !in cols[..k] ==>
              Get(cols, line, c) == if k < |line| then line[k] else None
  {
    forall k | 0 <= k < |cols| && cols[k] == c && c !in cols[..k]
      ensures Get(cols, line, c) == if k < |line| then line[k] else None
    {
      FirstIndex(cols, c, k);
    }
  }

  /** Two first positions of the same name are one position. */
  lemma FirstIndex(cols: seq<string>, c: string, k: nat)
    requires k < |cols| && cols[k] == c && c !in cols[..k]
    ensures Find(cols, c) == Some(k)
  {
    var j := Find(cols, c).value;
    assert forall i :: 0 <= i < k ==> cols[..k][i] == cols[i];
    assert forall i :: 0 <= i < j ==> cols[..j][i] == cols[i];
  }

  lemma FitKeepsCells(cols: seq<string>, line: Line, c: string)
    ensures Get(cols, Fit(line, |cols|), c) == Get(cols, line, c)
  {
  }

  /** pandas' `to_numeric(..., errors='coerce')` on one cell. */
  function ToNumeric(c: Cell, number: string -> Option<Float>): (r: Cell)
    ensures c.None? <==> r.None?
    ensures r.Some? ==> r.value.Num?
  {
    match c
    case None => None
    case Some(Text(s)) => (match number(s) case Some(f) => Some(Num(f)) case None => Some(Num(NaN)))
    case Some(Num(_)) => c
    case Some(Stamp(t)) => Some(Num(Finite(t as real)))
  }

  /** Whether `to_numeric(..., errors='coerce')` leaves a usable number in the cell. */
  predicate IsNumeric(c: Cell, number: string -> Option<Float>) {
    !IsNA(ToNumeric(c, number))
  }

  /** The values of the key columns `keyCols` in one row. */
  function KeyOf(cols: seq<string>, line: Line, keyCols: seq<string>): (r: seq<Cell>)
    ensures |r| == |keyCols|
    ensures forall j :: 0 <= j < |keyCols| ==> r[j] == Get(cols, line, keyCols[j])
  {
    seq(|keyCols|, j requires 0 <= j < |keyCols| => Get(cols, line, keyCols[j]))
  }

  /** The row conditions the code filters on (`isna`, `dropna`, `==`, ...). */
  datatype Test =
    | Missing(col: string)                                   // df[col].isna()
    | Present(subset: seq<string>)                           // kept by dropna(subset=...)
    | AnyValue                                               // kept by dropna(how='all')
    | Numeric(col: string, number: string -> Option<Float>)  // to_numeric(df[col], errors='coerce').notnull()
    | Key(keyCols: seq<string>, key: seq<Cell>)              // df[keyCols[j]] == key[j] for every j
    | Shown(col: string, s: string, show: Float -> string)   // df[col].astype(str) == s
    | Either(a: Test, b: Test)                               // |
    | Both(a: Test, b: Test)                                 // &
    | Converts(col: string, conv: Conversion)                // conversion of df[col] is notnull()

  /** `str(...)` of a cell as pandas' `astype(str)` gives it; missing cells become "nan".
      A parsed timestamp never reaches `astype(str)` in this code (only District, State
      and header cells are turned into text, and only Date is parsed), so the text of a
      timestamp is not modelled and is taken to be that of NaN. */
  function AsText(c: Cell, show: Float -> string): (r: string)
    ensures c.None? ==> r == "nan"
    ensures c.Some? && c.value.Text? ==> r == c.value.s
    ensures c.Some? && c.value.Num? ==> r == show(c.value.f)
  {
    match c
    case None => "nan"
    case Some(Text(s)) => s
    case Some(Num(f)) => show(f)
    case Some(Stamp(_)) => show(NaN)
  }

  /** A key that `==` can match: pandas' `NaN == NaN` is false. */
  predicate NoNA(key: seq<Cell>) {
    forall j :: 0 <= j < |key| ==> !IsNA(key[j])
  }

  predicate Holds(cols: seq<string>, test: Test, line: Line) {
    match test
    case Missing(c) => IsNA(Get(cols, line, c))
    case Present(cs) => forall c :: c in cs ==> !IsNA(Get(cols, line, c))
    case AnyValue => exists k :: 0 <= k < |cols| && !IsNA(At(line, k))
    case Numeric(c, number) => IsNumeric(Get(cols, line, c), number)
    case Key(kc, key) => NoNA(key) && KeyOf(cols, line, kc) == key
    case Shown(c, s, show) => AsText(Get(cols, line, c), show) == s
    case Either(a, b) => Holds(cols, a, line) || Holds(cols, b, line)
    case Both(a, b) => Holds(cols, a, line) && Holds(cols, b, line)
    case Converts(c, conv) => !IsNA(Convert(conv, Get(cols, line, c)))
  }

  /** The rows that pass `test`, in their original order (pandas' boolean indexing). */
  function Filter(cols: seq<string>, rows: seq<Line>, test: Test): (r: seq<Line>)
    ensures |r| <= |rows|
  {
    if rows == [] then []
    else (if Holds(cols, test, rows[0]) then [rows[0]] else []) + Filter(cols, rows[1..], test)
  }

  /** The filtered rows are exactly the rows that pass. */
  lemma {:induction false} FilterMembers(cols: seq<string>, rows: seq<Line>, test: Test)
    ensures forall l :: l in Filter(cols, rows, test) <==> l in rows && Holds(cols, test, l)
  {
    if rows != [] {
      FilterMembers(cols, rows[1..], test);
      FilterCons(cols, rows, test);
      assert forall l :: l in rows <==> l == rows[0] || l in rows[1..];
    }
  }

  /** Each filtered row is a row that passes. */
  lemma FilterPasses(cols: seq<string>, rows: seq<Line>, test: Test, i: nat)
    requires i < |Filter(cols, rows, test)|
    ensures Filter(cols, rows, test)[i] in rows && Holds(cols, test, Filter(cols, rows, test)[i])
  {
    FilterMembers(cols, rows, test);
    assert Filter(cols, rows, test)[i] in Filter(cols, rows, test);
  }

  /** Whether a conversion leaves a value depends only on the cell converted. */
  lemma ConvertsSame(cols: seq<string>, x: Line, cols2: seq<string>, y: Line, c: string, conv: Conversion)
    requires Get(cols, x, c) == Get(cols2, y, c)
    ensures Holds(cols, Converts(c, conv), x) <==> Holds(cols2, Converts(c, conv), y)
  {
  }

  function Where(t: Table, test: Test): (r: Table)
    ensures r.columns == t.columns
  {
    Table(t.columns, Filter(t.columns, t.rows, test))
  }

  /** `df[test].shape[0]` */
  function Count(cols: seq<string>, rows: seq<Line>, test: Test): nat {
    |Filter(cols, rows, test)|
  }

  /** Filtering commutes with concatenation: this, with the one-row case, says that a
      filter keeps the passing rows in their original order and nothing else. */
  lemma {:induction false} FilterAppend(cols: seq<string>, a: seq<Line>, b: seq<Line>, test: Test)
    ensures Filter(cols, a + b, test) == Filter(cols, a, test) + Filter(cols, b, test)
  {
    if a == [] {
      assert a + b == b;
    } else {
      var ab := a + b;
      assert ab[0] == a[0] && ab[1..] == a[1..] + b;
      FilterAppend(cols, a[1..], b, test);
      FilterCons(cols, ab, test);
      FilterCons(cols, a, test);
      var h := if Holds(cols, test, a[0]) then [a[0]] else [];
      AppendAssoc(h, Filter(cols, a[1..], test), Filter(cols, b, test));
    }
  }

  lemma AppendAssoc(x: seq<Line>, y: seq<Line>, z: seq<Line>)
    ensures x + (y + z) == (x + y) + z
  {
  }

  /** One step of `Filter`. */
  lemma FilterCons(cols: seq<string>, rows: seq<Line>, test: Test)
    requires rows != []
    ensures Filter(cols, rows, test) == (if Holds(cols, test, rows[0]) then [rows[0]] else []) + Filter(cols, rows[1..], test)
  {
  }

  lemma FilterOne(cols: seq<string>, l: Line, test: Test)
    ensures Filter(cols, [l], test) == if Holds(cols, test, l) then [l] else []
  {
  }

  lemma {:induction false} FilterAll(cols: seq<string>, rows: seq<Line>, test: Test)
    requires forall l :: l in rows ==> Holds(cols, test, l)
    ensures Filter(cols, rows, test) == rows
  {
    if rows != [] {
      FilterAll(cols, rows[1..], test);
    }
  }

  /** Filtering twice with the same test changes nothing the second time. */
  lemma FilterIdempotent(cols: seq<string>, rows: seq<Line>, test: Test)
    ensures Filter(cols, Filter(cols, rows, test), test) == Filter(cols, rows, test)
  {
    FilterMembers(cols, rows, test);
    FilterAll(cols, Filter(cols, rows, test), test);
  }

  /** Filtering by `Both(a, b)` is filtering by `a` and then by `b`. */
  lemma {:induction false} FilterBoth(cols: seq<string>, rows: seq<Line>, a: Test, b: Test)
    ensures Filter(cols, rows, Both(a, b)) == Filter(cols, Filter(cols, rows, a), b)
  {
    if rows != [] {
      FilterBoth(cols, rows[1..], a, b);
      var h := if Holds(cols, a, rows[0]) then [rows[0]] else [];
      FilterAppend(cols, h, Filter(cols, rows[1..], a), b);
    }
  }

  /** Inclusion–exclusion for row counts. */
  lemma {:induction false} CountEitherBoth(cols: seq<string>, rows: seq<Line>, a: Test, b: Test)
    ensures Count(cols, rows, Either(a, b)) + Count(cols, rows, Both(a, b))
         == Count(cols, rows, a) + Count(cols, rows, b)
  {
    if rows != [] {
      var tail := rows[1..];
      CountEitherBoth(cols, tail, a, b);
      CountCons(cols, rows, a);
      CountCons(cols, rows, b);
      CountCons(cols, rows, Either(a, b));
      CountCons(cols, rows, Both(a, b));
      HeadEitherBoth(cols, rows[0], a, b);
    }
  }

  /** The first row's share of inclusion–exclusion. */
  lemma HeadEitherBoth(cols: seq<string>, l: Line, a: Test, b: Test)
    ensures (if Holds(cols, Either(a, b), l) then 1 else 0) + (if Holds(cols, Both(a, b), l) then 1 else 0)
         == (if Holds(cols, a, l) then 1 else 0) + (if Holds(cols, b, l) then 1 else 0)
  {
  }

  lemma CountCons(cols: seq<string>, rows: seq<Line>, test: Test)
    requires rows != []
    ensures Count(cols, rows, test) == (if Holds(cols, test, rows[0]) then 1 else 0) + Count(cols, rows[1..], test)
  {
  }

  lemma {:induction false} CountBothAtMost(cols: seq<string>, rows: seq<Line>, a: Test, b: Test)
    ensures Count(cols, rows, Both(a, b)) <= Count(cols, rows, a)
    ensures Count(cols, rows, Both(a, b)) <= Count(cols, rows, b)
  {
    if rows != [] {
      CountBothAtMost(cols, rows[1..], a, b);
      FilterCons(cols, rows, a);
      FilterCons(cols, rows, b);
      FilterCons(cols, rows, Both(a, b));
    }
  }

  /** The values of one column, row by row. */
  function Column(t: Table, c: string): (r: seq<Cell>)
    ensures |r| == |t.rows|
    ensures forall i :: 0 <= i < |r| ==> r[i] == Get(t.columns, t.rows[i], c)
  {
    seq(|t.rows|, i requires 0 <= i < |t.rows| => Get(t.columns, t.rows[i], c))
  }

  /** `df[c] = cells`: overwrite the first column named `c`, or add it at the end. */
  function SetColumn(t: Table, c: string, cells: seq<Cell>): (r: Table)
    requires |cells| == |t.rows|
    ensures |r.rows| == |t.rows|
    ensures c in t.columns ==> r.columns == t.columns
    ensures c !in t.columns ==> r.columns == t.columns + [c]
    ensures forall i :: 0 <= i < |r.rows| ==> Get(r.columns, r.rows[i], c) == cells[i]
    ensures forall i, d :: 0 <= i < |r.rows| && d != c ==>
              Get(r.columns, r.rows[i], d) == Get(t.columns, t.rows[i], d)
  {
    var n := |t.columns|;
    match Find(t.columns, c)
    case Some(k) =>
      var r := Table(t.columns, seq(|t.rows|, i requires 0 <= i < |t.rows| => Fit(t.rows[i], n)[k := cells[i]]));
      assert forall i, d :: 0 <= i < |r.rows| && d != c ==>
        Get(r.columns, r.rows[i], d) == Get(t.columns, t.rows[i], d) by {
        forall i, d | 0 <= i < |r.rows| && d != c
          ensures Get(r.columns, r.rows[i], d) == Get(t.columns, t.rows[i], d)
        {
          if Find(t.columns, d).Some? {
            assert Find(t.columns, d).value != k;
          }
        }
      }
      r
    case None =>
      var cols := t.columns + [c];
      var r := Table(cols, seq(|t.rows|, i requires 0 <= i < |t.rows| => Fit(t.rows[i], n) + [cells[i]]));
      assert forall i, d :: 0 <= i < |r.rows| && d != c ==>
        Get(r.columns, r.rows[i], d) == Get(t.columns, t.rows[i], d) by {
        forall i, d | 0 <= i < |r.rows| && d != c
          ensures Get(r.columns, r.rows[i], d) == Get(t.columns, t.rows[i], d)
        {
          FindAppend(t.columns, c, d);
        }
      }
      assert forall i :: 0 <= i < |r.rows| ==> Get(r.columns, r.rows[i], c) == cells[i] by {
        FindLast(t.columns, c);
      }
      r
  }

  lemma FindAppend(cols: seq<string>, c: string, d: string)
    requires d != c
    ensures Find(cols + [c], d) == Find(cols, d)
  {
    if cols != [] {
      assert (cols + [c])[1..] == cols[1..] + [c];
      FindAppend(cols[1..], c, d);
    }
  }

  lemma FindLast(cols: seq<string>, c: string)
    requires c !in cols
    ensures Find(cols + [c], c) == Some(|cols|)
  {
    assert c in cols + [c];
    assert (cols + [c])[..|cols|] == cols;
  }

  /** `df.rename(columns={from: to})`: every column named `from` is relabelled, the
      cells stay where they are. */
  function Rename(t: Table, from: string, to: string): (r: Table)
    ensures r.rows == t.rows && |r.columns| == |t.columns|
    ensures forall k :: 0 <= k < |t.columns| ==>
              r.columns[k] == if t.columns[k] == from then to else t.columns[k]
  {
    Table(seq(|t.columns|, k requires 0 <= k < |t.columns| => if t.columns[k] == from then to else t.columns[k]), t.rows)
  }

  /** Keep the fields at positions `ks` (in that order), in the header and in every row. */
  function Project(t: Table, ks: seq<nat>): (r: Table)
    requires forall j :: 0 <= j < |ks| ==> ks[j] < |t.columns|
    ensures |r.columns| == |ks| && |r.rows| == |t.rows|
    ensures forall j :: 0 <= j < |ks| ==> r.columns[j] == t.columns[ks[j]]
    ensures forall i, j :: 0 <= i < |t.rows| && 0 <= j < |ks| ==> |r.rows[i]| == |ks| && r.rows[i][j] == At(t.rows[i], ks[j])
  {
    Table(seq(|ks|, j requires 0 <= j < |ks| => t.columns[ks[j]]),
          seq(|t.rows|, i requires 0 <= i < |t.rows| => seq(|ks|, j requires 0 <= j < |ks| => At(t.rows[i], ks[j]))))
  }

  /** `df[names]`: a new table with exactly these columns, in this order; pandas raises
      KeyError (here None) when one of them does not exist. */
  function Select(t: Table, names: seq<string>): (r: Option<Table>)
    ensures r.Some? <==> forall c :: c in names ==> c in t.columns
    ensures r.Some? ==> r.value.columns == names && |r.value.rows| == |t.rows|
    ensures r.Some? ==> forall i, j :: 0 <= i < |t.rows| && 0 <= j < |names| ==>
              |r.value.rows[i]| == |names| && r.value.rows[i][j] == Get(t.columns, t.rows[i], names[j])
  {
    if forall c :: c in names ==> c in t.columns then
      Some(Table(names, seq(|t.rows|, i requires 0 <= i < |t.rows| =>
        seq(|names|, j requires 0 <= j < |names| => Get(t.columns, t.rows[i], names[j])))))
    else None
  }

  /** Reading a selected table by one of the selected names gives what the table it was
      selected from held under that name. */
  lemma SelectGet(t: Table, names: seq<string>, i: nat, c: string)
    requires Select(t, names).Some? && i < |t.rows| && c in names
    ensures Get(names, Select(t, names).value.rows[i], c) == Get(t.columns, t.rows[i], c)
  {
    var m := Find(names, c).value;
    assert Select(t, names).value.rows[i][m] == Get(t.columns, t.rows[i], names[m]);
  }

  ghost predicate NoDuplicates<T>(s: seq<T>) {
    forall i, j :: 0 <= i < j < |s| ==> s[i] != s[j]
  }

  /** In a header without repeats, a name is found where it stands. */
  lemma FindDistinct(cols: seq<string>, k: nat)
    requires k < |cols| && NoDuplicates(cols)
    ensures Find(cols, cols[k]) == Some(k)
  {
    var j := Find(cols, cols[k]).value;
    assert cols[j] == cols[k];
  }

  function Elements<T>(s: seq<T>): set<T> {
    set x | x in s
  }

  /** pandas' `unique()`: every value once, in order of first appearance. */
  function Distinct<T(==,!new)>(s: seq<T>): (r: seq<T>)
    ensures NoDuplicates(r)
    ensures forall x :: x in r <==> x in s
    ensures |r| <= |s|
  {
    if s == [] then []
    else
      var r := Distinct(s[..|s| - 1]);
      assert forall x :: x in s <==> x in s[..|s| - 1] || x == s[|s| - 1] by {
        assert s == s[..|s| - 1] + [s[|s| - 1]];
      }
      if s[|s| - 1] in r then r else r + [s[|s| - 1]]
  }

  lemma {:induction false} DistinctCardinality<T(!new)>(s: seq<T>)
    requires NoDuplicates(s)
    ensures |Elements(s)| == |s|
  {
    if s != [] {
      var init := s[..|s| - 1];
      var last := s[|s| - 1];
      DistinctCardinality(init);
      assert s == init + [last];
      assert last !in init by {
        forall i | 0 <= i < |init| ensures init[i] != last {
          assert s[i] != s[|s| - 1];
        }
      }
      assert Elements(s) == Elements(init) + {last};
    }
  }

  /** What `unique()` returns has as many entries as there are different values. */
  lemma DistinctCountsValues<T(!new)>(s: seq<T>)
    ensures |Distinct(s)| == |Elements(s)|
  {
    DistinctCardinality(Distinct(s));
    assert Elements(Distinct(s)) == Elements(s);
  }

  /** The per-cell conversions the code applies to whole columns. */
  datatype Conversion =
    | ToNumber(number: string -> Option<Float>)  // pd.to_numeric(..., errors='coerce'), astype(float)
    | ToDate(date: Value -> Option<int>)         // pd.to_datetime(..., errors='coerce')
    | ToText(show: Float -> string)              // astype(str)
    | Lookup(codes: map<int, string>)            // Series.map(dict)

  /** The integer a cell holds, if it holds a whole number (`1.0` is the key `1`). */
  function WholeNumber(c: Cell): (r: Option<int>)
    ensures r.Some? ==> c == Some(Num(Finite(r.value as real)))
    ensures forall n: int :: c == Some(Num(Finite(n as real))) ==> r == Some(n)
  {
    if c.Some? && c.value.Num? && c.value.f.Finite? && c.value.f.r == c.value.f.r.Floor as real
    then Some(c.value.f.r.Floor) else None
  }

  function Convert(conv: Conversion, c: Cell): (r: Cell)
    ensures conv.ToNumber? ==> (r.None? <==> c.None?) && (r.Some? ==> r.value.Num?)
    ensures conv.ToDate? ==> (IsNA(c) ==> r.None?) && (r.Some? ==> r.value.Stamp?)
    ensures conv.ToText? ==> r.Some? && r.value.Text?
    ensures conv.Lookup? ==> r.None? || (r.value.Text? && r.value.s in conv.codes.Values)
  {
    match conv
    case ToNumber(number) => ToNumeric(c, number)
    case ToDate(date) =>
      if IsNA(c) then None
      else (match date(c.value) case Some(t) => Some(Stamp(t)) case None => None)
    case ToText(show) => Some(Text(AsText(c, show)))
    case Lookup(codes) =>
      var n := WholeNumber(c);
      if n.Some? && n.value in codes then Some(Text(codes[n.value])) else None
  }

  /** A row with the field at position `k` converted. */
  function ConvertRow(cols: seq<string>, line: Line, k: nat, conv: Conversion): (r: Line)
    requires k < |cols|
    ensures |r| == |cols|
  {
    Fit(line, |cols|)[k := Convert(conv, At(line, k))]
  }

  /** Reading a converted row: the converted column holds the converted cell, every
      other column is as before. */
  lemma GetConverted(cols: seq<string>, line: Line, c: string, d: string, conv: Conversion)
    requires c in cols
    ensures Get(cols, ConvertRow(cols, line, Find(cols, c).value, conv), d)
         == if d == c then Convert(conv, Get(cols, line, c)) else Get(cols, line, d)
  {
    if d != c && Find(cols, d).Some? {
      assert Find(cols, d).value != Find(cols, c).value;
    }
  }

  function ConvertRows(cols: seq<string>, rows: seq<Line>, k: nat, conv: Conversion): (r: seq<Line>)
    requires k < |cols|
    ensures |r| == |rows|
    ensures forall i :: 0 <= i < |rows| ==> r[i] == ConvertRow(cols, rows[i], k, conv)
  {
    if rows == [] then []
    else [ConvertRow(cols, rows[0], k, conv)] + ConvertRows(cols, rows[1..], k, conv)
  }

  /** `df[c] = <conversion of df[c]>` on an existing column. */
  function ConvertColumn(t: Table, c: string, conv: Conversion): (r: Table)
    requires c in t.columns
    ensures r.columns == t.columns && |r.rows| == |t.rows|
    ensures forall i, d :: 0 <= i < |t.rows| ==>
              Get(r.columns, r.rows[i], d) == if d == c then Convert(conv, Get(t.columns, t.rows[i], c)) else Get(t.columns, t.rows[i], d)
  {
    var r := Table(t.columns, ConvertRows(t.columns, t.rows, Find(t.columns, c).value, conv));
    assert forall i, d :: 0 <= i < |t.rows| ==>
              Get(r.columns, r.rows[i], d) == if d == c then Convert(conv, Get(t.columns, t.rows[i], c)) else Get(t.columns, t.rows[i], d) by {
      forall i, d | 0 <= i < |t.rows| {
        GetConverted(t.columns, t.rows[i], c, d, conv);
      }
    }
    r
  }

  /** Converting and then filtering is filtering and then converting, when the test
      after the conversion says on each row what `before` says on the original row. */
  lemma {:induction false} FilterConverted(cols: seq<string>, rows: seq<Line>, k: nat, conv: Conversion,
                                           before: Test, after: Test)
    requires k < |cols|
    requires forall l {:trigger ConvertRow(cols, l, k, conv)} ::
               Holds(cols, after, ConvertRow(cols, l, k, conv)) <==> Holds(cols, before, l)
    ensures Filter(cols, ConvertRows(cols, rows, k, conv), after) == ConvertRows(cols, Filter(cols, rows, before), k, conv)
  {
    if rows != [] {
      FilterConverted(cols, rows[1..], k, conv, before, after);
      var c := ConvertRows(cols, rows, k, conv);
      var tail := Filter(cols, rows[1..], before);
      assert c == [ConvertRow(cols, rows[0], k, conv)] + ConvertRows(cols, rows[1..], k, conv);
      FilterCons(cols, c, after);
      FilterCons(cols, rows, before);
      assert c[1..] == ConvertRows(cols, rows[1..], k, conv);
      var fc := Filter(cols, c[1..], after);
      assert fc == ConvertRows(cols, tail, k, conv);
      assert Holds(cols, after, c[0]) <==> Holds(cols, before, rows[0]);
      if Holds(cols, before, rows[0]) {
        assert Filter(cols, c, after) == [c[0]] + fc;
        assert Filter(cols, rows, before) == [rows[0]] + tail;
        ConvertRowsCons(cols, rows[0], tail, k, conv);
      } else {
        assert Filter(cols, c, after) == fc;
        assert Filter(cols, rows, before) == tail;
      }
    }
  }

  lemma ConvertRowsCons(cols: seq<string>, l: Line, rows: seq<Line>, k: nat, conv: Conversion)
    requires k < |cols|
    ensures ConvertRows(cols, [l] + rows, k, conv) == [ConvertRow(cols, l, k, conv)] + ConvertRows(cols, rows, k, conv)
  {
    assert ([l] + rows)[1..] == rows;
  }

  /** Two row sequences that pass their tests row for row have the same count. */
  lemma {:induction false} CountAligned(cols: seq<string>, a: seq<Line>, ta: Test,
                                        cols2: seq<string>, b: seq<Line>, tb: Test)
    requires |a| == |b|
    requires forall i :: 0 <= i < |a| ==> (Holds(cols, ta, a[i]) <==> Holds(cols2, tb, b[i]))
    ensures Count(cols, a, ta) == Count(cols2, b, tb)
  {
    if a != [] {
      CountAligned(cols, a[1..], ta, cols2, b[1..], tb);
      CountCons(cols, a, ta);
      CountCons(cols2, b, tb);
    }
  }

  /** Two row sequences that pass their tests row for row keep the rows at the same
      positions: whatever relates the rows pair by pair relates the kept rows pair by pair. */
  lemma {:induction false} FilterAligned(cols: seq<string>, a: seq<Line>, ta: Test,
                                         cols2: seq<string>, b: seq<Line>, tb: Test,
                                         rel: (Line, Line) -> bool)
    requires |a| == |b|
    requires forall i :: 0 <= i < |a| ==> (Holds(cols, ta, a[i]) <==> Holds(cols2, tb, b[i]))
    requires forall i :: 0 <= i < |a| ==> rel(a[i], b[i])
    ensures |Filter(cols, a, ta)| == |Filter(cols2, b, tb)|
    ensures forall i :: 0 <= i < |Filter(cols, a, ta)| ==> rel(Filter(cols, a, ta)[i], Filter(cols2, b, tb)[i])
  {
    if a != [] {
      FilterAligned(cols, a[1..], ta, cols2, b[1..], tb, rel);
      FilterCons(cols, a, ta);
      FilterCons(cols2, b, tb);
      if Holds(cols, ta, a[0]) {
        PairedCons(a[0], b[0], Filter(cols, a[1..], ta), Filter(cols2, b[1..], tb), rel);
      }
    }
  }

  /** A related pair in front of two pairwise related sequences keeps them pairwise related. */
  lemma PairedCons(x: Line, y: Line, xs: seq<Line>, ys: seq<Line>, rel: (Line, Line) -> bool)
    requires |xs| == |ys| && rel(x, y)
    requires forall i :: 0 <= i < |xs| ==> rel(xs[i], ys[i])
    ensures forall i :: 0 <= i < |xs| + 1 ==> rel(([x] + xs)[i], ([y] + ys)[i])
  {
    forall i | 0 <= i < |xs| + 1
      ensures rel(([x] + xs)[i], ([y] + ys)[i])
    {
      if i > 0 {
        assert ([x] + xs)[i] == xs[i - 1] && ([y] + ys)[i] == ys[i - 1];
      }
    }
  }

  /** When two tests reject exactly the rows the other one keeps, their counts add up to
      the number of rows. */
  lemma {:induction false} CountComplement(cols: seq<string>, rows: seq<Line>, a: Test, b: Test)
    requires forall l :: Holds(cols, a, l) <==> !Holds(cols, b, l)
    ensures Count(cols, rows, a) + Count(cols, rows, b) == |rows|
  {
    if rows != [] {
      CountComplement(cols, rows[1..], a, b);
    }
  }

  /** The key of every row, in row order. */
  function Keys(cols: seq<string>, rows: seq<Line>, keyCols: seq<string>): (r: seq<seq<Cell>>)
    ensures |r| == |rows|
    ensures forall i :: 0 <= i < |rows| ==> r[i] == KeyOf(cols, rows[i], keyCols)
  {
    seq(|rows|, i requires 0 <= i < |rows| => KeyOf(cols, rows[i], keyCols))
  }

  /** The sizes of the groups with the keys `keys`, added up. */
  function SumCounts(cols: seq<string>, rows: seq<Line>, keyCols: seq<string>, keys: seq<seq<Cell>>): nat {
    if keys == [] then 0
    else Count(cols, rows, Key(keyCols, keys[0])) + SumCounts(cols, rows, keyCols, keys[1..])
  }

  /** How many entries of `keys` equal `key`. */
  function Occurrences(keys: seq<seq<Cell>>, key: seq<Cell>): nat {
    if keys == [] then 0 else (if keys[0] == key then 1 else 0) + Occurrences(keys[1..], key)
  }

  lemma {:induction false} OccursOnce(keys: seq<seq<Cell>>, key: seq<Cell>)
    requires NoDuplicates(keys) && key in keys
    ensures Occurrences(keys, key) == 1
  {
    if keys[0] == key {
      OccursNot(keys[1..], key);
    } else {
      OccursOnce(keys[1..], key);
    }
  }

  lemma {:induction false} OccursNot(keys: seq<seq<Cell>>, key: seq<Cell>)
    requires key !in keys
    ensures Occurrences(keys, key) == 0
  {
    if keys != [] {
      OccursNot(keys[1..], key);
    }
  }

  /** Adding one row to the front adds one to the size of each group whose key it has. */
  lemma {:induction false} SumCountsCons(cols: seq<string>, l: Line, rows: seq<Line>, keyCols: seq<string>, keys: seq<seq<Cell>>)
    requires Holds(cols, Present(keyCols), l)
    ensures SumCounts(cols, [l] + rows, keyCols, keys)
         == Occurrences(keys, KeyOf(cols, l, keyCols)) + SumCounts(cols, rows, keyCols, keys)
  {
    if keys != [] {
      SumCountsCons(cols, l, rows, keyCols, keys[1..]);
      assert ([l] + rows)[1..] == rows;
      var key := KeyOf(cols, l, keyCols);
      if keys[0] == key {
        assert NoNA(key) by {
          forall j | 0 <= j < |key| ensures !IsNA(key[j]) {
            assert keyCols[j] in keyCols;
          }
        }
      }
    }
  }

  /** Grouping partitions the rows: when every row has a complete key and the keys are
      listed once each, the group sizes add up to the number of rows. */
  lemma {:induction false} Partition(cols: seq<string>, rows: seq<Line>, keyCols: seq<string>, keys: seq<seq<Cell>>)
    requires NoDuplicates(keys)
    requires forall l :: l in rows ==> Holds(cols, Present(keyCols), l) && KeyOf(cols, l, keyCols) in keys
    ensures SumCounts(cols, rows, keyCols, keys) == |rows|
  {
    if rows == [] {
      SumCountsEmpty(cols, keyCols, keys);
    } else {
      assert rows == [rows[0]] + rows[1..];
      Partition(cols, rows[1..], keyCols, keys);
      SumCountsCons(cols, rows[0], rows[1..], keyCols, keys);
      OccursOnce(keys, KeyOf(cols, rows[0], keyCols));
    }
  }

  lemma {:induction false} SumCountsEmpty(cols: seq<string>, keyCols: seq<string>, keys: seq<seq<Cell>>)
    ensures SumCounts(cols, [], keyCols, keys) == 0
  {
    if keys != [] {
      SumCountsEmpty(cols, keyCols, keys[1..]);
    }
  }

  /** The positions of the columns that hold at least one value. */
  function DataPositions(t: Table, from: nat): (ks: seq<nat>)
    requires from <= |t.columns|
    decreases |t.columns| - from
    ensures forall j :: 0 <= j < |ks| ==> from <= ks[j] < |t.columns|
    ensures forall k :: k in ks <==> from <= k < |t.columns| && exists i :: 0 <= i < |t.rows| && !IsNA(At(t.rows[i], k))
    ensures forall i, j :: 0 <= i < j < |ks| ==> ks[i] < ks[j]
  {
    if from == |t.columns| then []
    else
      var rest := DataPositions(t, from + 1);
      if exists i :: 0 <= i < |t.rows| && !IsNA(At(t.rows[i], from)) then [from] + rest else rest
  }

  /** `df.dropna(axis=1, how='all')`: the columns without a single value go, the others
      keep their order. */
  function DropEmptyColumns(t: Table): (r: Table)
    ensures |r.rows| == |t.rows|
  {
    Project(t, DataPositions(t, 0))
  }

  /** A sequence without repeats holds each value at most once. */
  lemma {:induction false} NoDuplicatesAtMostOnce<T>(s: seq<T>, x: T)
    requires NoDuplicates(s)
    ensures multiset(s)[x] <= 1
  {
    if s != [] {
      assert s == [s[0]] + s[1..];
      assert NoDuplicates(s[1..]);
      NoDuplicatesAtMostOnce(s[1..], x);
      if s[0] == x {
        assert x !in s[1..] by {
          forall k | 0 <= k < |s[1..]| ensures s[1..][k] != x {
            assert s[k + 1] != s[0];
          }
        }
      }
    }
  }

  /** Rearranging a sequence without repeats gives one without repeats. */
  lemma PermutationNoDuplicates<T>(a: seq<T>, b: seq<T>)
    requires NoDuplicates(a) && multiset(a) == multiset(b)
    ensures NoDuplicates(b)
  {
    forall i, j | 0 <= i < j < |b| ensures b[i] != b[j] {
      if b[i] == b[j] {
        assert b == b[..i] + [b[i]] + b[i + 1..j] + [b[j]] + b[j + 1..];
        assert multiset(b)[b[i]] >= 2;
        NoDuplicatesAtMostOnce(a, b[i]);
      }
    }
  }
}
