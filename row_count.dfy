/** analyzer/scripts/row_count.py: how many rows lack a State, a District, both or
    either, and the table without those rows. */
module RowCount {
  import opened Tables

  const StateCol: string := "State"
  const DistrictCol: string := "District"

  /** The numbers the script prints, and the table it saves. */
  datatype Summary = Summary(missingState: nat, missingDistrict: nat, missingBoth: nat, missingEither: nat,
                             total: nat, clean: Table, dropped: int)

  const NoState := Missing(StateCol)
  const NoDistrict := Missing(DistrictCol)
  const Located := Present([StateCol, DistrictCol])

  /** A row is kept by `dropna(subset=['State', 'District'])` exactly when it misses
      neither. */
  lemma KeptIffNotMissing(cols: seq<string>, l: Line)
    ensures Holds(cols, Located, l) <==> !Holds(cols, Either(NoState, NoDistrict), l)
  {
    assert StateCol in [StateCol, DistrictCol] && DistrictCol in [StateCol, DistrictCol];
  }

  /** The script on the table it reads; None is the `KeyError` for a missing State or
      District column. */
  function RowCount(t: Table): (r: Option<Summary>)
    ensures r.Some? <==> StateCol in t.columns && DistrictCol in t.columns
    ensures r.Some? ==>
              var s := r.value;
              // inclusion-exclusion
              && s.missingEither == s.missingState + s.missingDistrict - s.missingBoth
              && s.missingBoth <= s.missingState && s.missingBoth <= s.missingDistrict
              // every count is bounded by the number of rows
              && s.missingState <= s.total && s.missingDistrict <= s.total
              && s.missingEither <= s.total && s.total == |t.rows|
              // the four printed counts are the rows of `t` missing each name
              && s.missingState == Count(t.columns, t.rows, NoState)
              && s.missingDistrict == Count(t.columns, t.rows, NoDistrict)
              && s.missingBoth == Count(t.columns, t.rows, Both(NoState, NoDistrict))
              && s.missingEither == Count(t.columns, t.rows, Either(NoState, NoDistrict))
              // the clean table: the rows with both names, in their order, and the
              // reported number of dropped rows is the number missing either
              && s.clean.columns == t.columns
              && s.clean.rows == Filter(t.columns, t.rows, Located)
              && (forall l :: l in s.clean.rows <==> l in t.rows && !IsNA(Get(t.columns, l, StateCol)) && !IsNA(Get(t.columns, l, DistrictCol)))
              && s.dropped == |t.rows| - |s.clean.rows|
              && s.dropped == s.missingEither
  {
    if StateCol in t.columns && DistrictCol in t.columns then
      var cols := t.columns;
      var missingState := Count(cols, t.rows, NoState);
      var missingDistrict := Count(cols, t.rows, NoDistrict);
      var missingBoth := Count(cols, t.rows, Both(NoState, NoDistrict));
      var missingEither := Count(cols, t.rows, Either(NoState, NoDistrict));
      var clean := Where(t, Located);
      FilterMembers(cols, t.rows, Located);
      CountEitherBoth(cols, t.rows, NoState, NoDistrict);
      CountBothAtMost(cols, t.rows, NoState, NoDistrict);
      forall l ensures Holds(cols, Located, l) <==> !Holds(cols, Either(NoState, NoDistrict), l) {
        KeptIffNotMissing(cols, l);
      }
      CountComplement(cols, t.rows, Located, Either(NoState, NoDistrict));
      Some(Summary(missingState, missingDistrict, missingBoth, missingEither, |t.rows|, clean, |t.rows| - |clean.rows|))
    else None
  }

  /** The clean table is a filter: its rows are those of the input that pass, in the
      same order, so cleaning a slice and a remainder separately gives the same rows. */
  lemma CleanKeepsOrder(a: Table, b: seq<Line>)
    requires StateCol in a.columns && DistrictCol in a.columns
    ensures RowCount(Table(a.columns, a.rows + b)).value.clean.rows
         == RowCount(a).value.clean.rows + RowCount(Table(a.columns, b)).value.clean.rows
  {
    FilterAppend(a.columns, a.rows, b, Located);
  }

  /** Cleaning a clean table drops nothing. */
  lemma CleanIsIdempotent(t: Table)
    requires StateCol in t.columns && DistrictCol in t.columns
    ensures RowCount(RowCount(t).value.clean).value.dropped == 0
  {
    FilterIdempotent(t.columns, t.rows, Located);
  }
}
