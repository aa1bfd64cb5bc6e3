/** The dashboard's data directory: `all_india.csv`, one file per state under
    `states/` and one per district under `districts/<state>/`, each held as what
    `pd.read_csv` makes of it, and the two operations the views perform on them:
    `load_data` (analyzer/views.py) and appending a line with `to_csv(mode='a',
    header=False)`. */
module Storage {
  import opened Tables

  datatype Path = AllIndia | StateCsv(state: string) | DistrictCsv(state: string, district: string)

  /** A file that does not exist has no entry; a file with no content at all (not even a
      header line) is `Table([], [])`. */
  type Files = map<Path, Table>

  /** A file without a single byte: `read_csv` raises `EmptyDataError`. */
  predicate Blank(t: Table) {
    t == Table([], [])
  }

  /** `load_data`: `FileNotFoundError` becomes `None`; any other error of `read_csv`
      (here a blank file) is not caught. */
  datatype Loaded = NotFound | Unreadable | Read(table: Table)

  function LoadData(files: Files, p: Path): (r: Loaded)
    ensures r.NotFound? <==> p !in files
    ensures r.Unreadable? <==> p in files && Blank(files[p])
    ensures r.Read? ==> p in files && r.table == files[p] && !Blank(r.table)
  {
    if p !in files then NotFound
    else if Blank(files[p]) then Unreadable
    else Read(files[p])
  }

  /** The decimal digits of `n`, as `str(n)`. */
  function Decimal(n: nat): (s: string)
    ensures |s| >= 1
    ensures forall i :: 0 <= i < |s| ==> '0' <= s[i] <= '9'
  {
    var d := ['0', '1', '2', '3', '4', '5', '6', '7', '8', '9'][n % 10];
    if n < 10 then [d] else Decimal(n / 10) + [d]
  }

  /** The header `read_csv` takes from a file whose only line is `line`: `to_csv` writes
      a missing value as an empty field, which `read_csv` names `Unnamed: k` after its
      position; every other field is its text. */
  function HeaderFrom(line: Line, show: Float -> string): (h: seq<string>)
    ensures |h| == |line|
    ensures forall k :: 0 <= k < |line| && IsNA(line[k]) ==> h[k] == "Unnamed: " + Decimal(k)
    ensures forall k :: 0 <= k < |line| && !IsNA(line[k]) ==> h[k] == AsText(line[k], show)
  {
    seq(|line|, k requires 0 <= k < |line| => if IsNA(line[k]) then "Unnamed: " + Decimal(k) else AsText(line[k], show))
  }

  /** `to_csv(p, mode='a', header=False)` of a one-row frame, as the next `read_csv`
      sees the file when the line is no wider than the file's header: a file with a
      header gets one more row; a missing or blank file gets the line alone, which is
      then read as the header. A wider line is kept whole here, and its fields past the
      header read as missing. */
  function Append(files: Files, p: Path, line: Line, show: Float -> string): (r: Files)
    ensures r.Keys == files.Keys + {p}
    ensures forall q :: q in files && q != p ==> r[q] == files[q]
    ensures p in files && !Blank(files[p]) ==> r[p] == Table(files[p].columns, files[p].rows + [line])
    ensures p !in files || Blank(files[p]) ==> r[p] == Table(HeaderFrom(line, show), [])
  {
    if p in files && !Blank(files[p]) then files[p := Table(files[p].columns, files[p].rows + [line])]
    else files[p := Table(HeaderFrom(line, show), [])]
  }

  /** Appending reads back as the appended cells under the file's own header, matched
      by position. */
  lemma AppendedRowReads(files: Files, p: Path, line: Line, show: Float -> string, c: string)
    requires p in files && !Blank(files[p])
    ensures var t := Append(files, p, line, show)[p];
            |t.rows| == |files[p].rows| + 1 && Get(t.columns, t.rows[|t.rows| - 1], c) == Get(files[p].columns, line, c)
  {
  }
}
