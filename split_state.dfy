/** analyzer/scripts/split_by_state.py: check the required columns, drop the rows
    that miss one of them, and write one file per State into the states directory. */
module SplitState {
  import opened Tables
  import opened Strings

  const Required: seq<string> := ["State", "District", "latitude", "longitude"]

  /** The states directory, file name to contents; files the script does not write
      keep their contents. */
  type Directory = map<string, Table>

  /** How the script ends: the `ValueError` for the first missing column (nothing is
      written), the `AttributeError` of `.replace` on a State that is not text (the
      files written before it stay), or success. */
  datatype Split =
    | MissingColumn(col: string)
    | Crashed(dir: Directory, state: Cell)
    | Done(dir: Directory)

  /** `state.replace(" ", "_").replace("/", "-")` */
  function SafeName(s: string): (r: string)
    ensures |r| == |s|
    ensures forall i :: 0 <= i < |r| ==> r[i] != ' ' && r[i] != '/'
  {
    ReplaceChar(s, ' ', '_');
    ReplaceChar(Replace(s, " ", "_"), '/', '-');
    Replace(Replace(s, " ", "_"), "/", "-")
  }

  /** Each ' ' becomes '_' and each '/' becomes '-'; nothing else changes. */
  lemma SafeNameChars(s: string)
    ensures |SafeName(s)| == |s|
    ensures forall i :: 0 <= i < |s| ==>
              SafeName(s)[i] == if s[i] == ' ' then '_' else if s[i] == '/' then '-' else s[i]
  {
    ReplaceChar(s, ' ', '_');
    ReplaceChar(Replace(s, " ", "_"), '/', '-');
  }

  /** So a sanitised name has neither a space nor a slash. */
  lemma SafeNameClean(s: string)
    ensures forall i :: 0 <= i < |SafeName(s)| ==> SafeName(s)[i] != ' ' && SafeName(s)[i] != '/'
  {
    SafeNameChars(s);
  }

  /** And sanitising it again changes nothing. */
  lemma SafeNameIdempotent(s: string)
    ensures SafeName(SafeName(s)) == SafeName(s)
  {
    var n := SafeName(s);
    SafeNameClean(s);
    NoCharNotContained(n, ' ');
    ReplaceAbsent(n, " ", "_");
    NoCharNotContained(n, '/');
    ReplaceAbsent(n, "/", "-");
  }

  function FileOf(state: string): string {
    SafeName(state) + ".csv"
  }

  predicate IsText(c: Cell) {
    c.Some? && c.value.Text?
  }

  /** The text of a State cell; only text cells reach it. */
  function TextOf(c: Cell): string {
    if IsText(c) then c.value.s else ""
  }

  /** `df[df['State'] == state]`, as the file for that state holds it. */
  function StateTable(df: Table, state: Cell): Table {
    Where(df, Key(["State"], [state]))
  }

  /** The directory after writing the files of `states`, one after the other (a later
      state whose name sanitises to the same file replaces the earlier one). */
  function Saved(dir: Directory, df: Table, states: seq<Cell>): Directory
    requires forall j :: 0 <= j < |states| ==> IsText(states[j])
  {
    if states == [] then dir
    else
      var last := states[|states| - 1];
      Saved(dir, df, states[..|states| - 1])[FileOf(TextOf(last)) := StateTable(df, last)]
  }

  /** How many of the first states are text. */
  function TextPrefix(s: seq<Cell>): (n: nat)
    ensures n <= |s|
    ensures forall j :: 0 <= j < n ==> IsText(s[j])
    ensures n < |s| ==> !IsText(s[n])
  {
    if s == [] || !IsText(s[0]) then 0 else 1 + TextPrefix(s[1..])
  }

  /** The first required column that does not exist. */
  function FirstMissing(cols: seq<string>, req: seq<string>): (r: Option<string>)
    ensures r.None? <==> forall c :: c in req ==> c in cols
    ensures r.Some? ==> r.value in req && r.value !in cols
  {
    if req == [] then None
    else if req[0] !in cols then Some(req[0])
    else FirstMissing(cols, req[1..])
  }

  /** The rows that the script keeps, and the states it loops over, in order of first
      appearance (`unique()`). */
  function Kept(t: Table): Table {
    Where(t, Present(Required))
  }

  function States(df: Table): seq<Cell> {
    Distinct(Column(df, "State"))
  }

  /** Writing the files of `states` in turn, up to the first that is not text. */
  function WriteSpec(dir: Directory, df: Table, states: seq<Cell>): Split {
    var n := TextPrefix(states);
    if n < |states| then Crashed(Saved(dir, df, states[..n]), states[n])
    else Done(Saved(dir, df, states))
  }

  /** What the script does to the directory. */
  function SplitSpec(t: Table, dir: Directory): Split {
    match FirstMissing(t.columns, Required)
    case Some(c) => MissingColumn(c)
    case None => WriteSpec(dir, Kept(t), States(Kept(t)))
  }

  /** The script: the column check, then the loop over the states. */
  method SplitByState(t: Table, dir: Directory) returns (r: Split)
    ensures r == SplitSpec(t, dir)
  {
    var missing := CheckColumns(t.columns);
    if missing.Some? {
      return MissingColumn(missing.value);
    }
    var df := Where(t, Present(Required));
    var states := Distinct(Column(df, "State"));
    r := WriteStates(dir, df, states);
  }

  /** The loop that raises for the first required column that is absent. */
  method CheckColumns(cols: seq<string>) returns (r: Option<string>)
    ensures r == FirstMissing(cols, Required)
  {
    var i := 0;
    while i < |Required|
      invariant 0 <= i <= |Required|
      invariant FirstMissing(cols, Required) == FirstMissing(cols, Required[i..])
    {
      if Required[i] !in cols {
        return Some(Required[i]);
      }
      assert Required[i..][1..] == Required[i + 1..];
      i := i + 1;
    }
    return None;
  }

  /** The loop over the states. */
  method WriteStates(dir: Directory, df: Table, states: seq<Cell>) returns (r: Split)
    ensures r == WriteSpec(dir, df, states)
  {
    var written := dir;
    var k := 0;
    while k < |states|
      invariant 0 <= k <= |states|
      invariant forall j :: 0 <= j < k ==> IsText(states[j])
      invariant written == Saved(dir, df, states[..k])
    {
      var state := states[k];
      if !IsText(state) {
        TextPrefixIs(states, k);
        return Crashed(written, state);
      }
      SavedSnoc(dir, df, states, k);
      written := written[FileOf(TextOf(state)) := StateTable(df, state)];
      k := k + 1;
    }
    TextPrefixIs(states, |states|);
    assert states[..|states|] == states;
    return Done(written);
  }

  /** Writing one more state's file. */
  lemma SavedSnoc(dir: Directory, df: Table, states: seq<Cell>, k: nat)
    requires k < |states| && forall j :: 0 <= j <= k ==> IsText(states[j])
    ensures Saved(dir, df, states[..k + 1]) == Saved(dir, df, states[..k])[FileOf(TextOf(states[k])) := StateTable(df, states[k])]
  {
    assert states[..k + 1][..k] == states[..k];
    assert states[..k + 1][k] == states[k];
  }

  /** The first non-text position is where the text prefix ends. */
  lemma TextPrefixIs(s: seq<Cell>, k: nat)
    requires k <= |s| && forall j :: 0 <= j < k ==> IsText(s[j])
    requires k < |s| ==> !IsText(s[k])
    ensures TextPrefix(s) == k
  {
  }

  /** The files of a finished run: the directory gains one file per state name, and a
      state whose file no later state overwrites holds exactly that state's rows, all
      with the four required fields. */
  lemma {:induction false} SavedFile(dir: Directory, df: Table, states: seq<Cell>, j: nat)
    requires forall i :: 0 <= i < |states| ==> IsText(states[i])
    requires j < |states|
    requires forall i :: j < i < |states| ==> FileOf(TextOf(states[i])) != FileOf(TextOf(states[j]))
    ensures FileOf(TextOf(states[j])) in Saved(dir, df, states)
    ensures Saved(dir, df, states)[FileOf(TextOf(states[j]))] == StateTable(df, states[j])
  {
    if j < |states| - 1 {
      var init := states[..|states| - 1];
      assert init[j] == states[j];
      SavedFile(dir, df, init, j);
    }
  }

  /** The file names a run writes. */
  function Names(states: seq<Cell>): set<string> {
    set i | 0 <= i < |states| :: FileOf(TextOf(states[i]))
  }

  lemma NamesSnoc(states: seq<Cell>)
    requires states != []
    ensures Names(states) == Names(states[..|states| - 1]) + {FileOf(TextOf(states[|states| - 1]))}
  {
    var init := states[..|states| - 1];
    forall x | x in Names(states) ensures x in Names(init) + {FileOf(TextOf(states[|states| - 1]))} {
      var i :| 0 <= i < |states| && FileOf(TextOf(states[i])) == x;
      if i < |init| { assert init[i] == states[i]; }
    }
    forall x | x in Names(init) ensures x in Names(states) {
      var i :| 0 <= i < |init| && FileOf(TextOf(init[i])) == x;
      assert init[i] == states[i];
    }
  }

  lemma {:induction false} SavedKeys(dir: Directory, df: Table, states: seq<Cell>)
    requires forall i :: 0 <= i < |states| ==> IsText(states[i])
    ensures Saved(dir, df, states).Keys == dir.Keys + Names(states)
  {
    if states != [] {
      SavedKeys(dir, df, states[..|states| - 1]);
      NamesSnoc(states);
    }
  }

  /** Every row of a state's file has that State and all four required fields. */
  lemma StateRows(t: Table, state: Cell)
    ensures var f := StateTable(Kept(t), state);
            f.columns == t.columns
            && forall l :: l in f.rows ==>
                 l in t.rows && Get(t.columns, l, "State") == state
                 && forall c :: c in Required ==> !IsNA(Get(t.columns, l, c))
  {
    var f := StateTable(Kept(t), state);
    FilterMembers(t.columns, t.rows, Present(Required));
    FilterMembers(t.columns, Kept(t).rows, Key(["State"], [state]));
    forall l | l in f.rows
      ensures l in t.rows && Get(t.columns, l, "State") == state
    {
      assert KeyOf(t.columns, l, ["State"])[0] == Get(t.columns, l, "State");
    }
  }

  /** Each state as a one-column group key. */
  function Singletons(s: seq<Cell>): (r: seq<seq<Cell>>)
    ensures |r| == |s| && forall j :: 0 <= j < |s| ==> r[j] == [s[j]]
  {
    seq(|s|, j requires 0 <= j < |s| => [s[j]])
  }

  /** The states partition the kept rows: each kept row has one State, so the state
      files' row counts add up to the number of kept rows. */
  lemma StatesPartition(t: Table)
    ensures var df := Kept(t);
            SumCounts(df.columns, df.rows, ["State"], Singletons(States(df))) == |df.rows|
  {
    var df := Kept(t);
    var states := States(df);
    var keys := Singletons(states);
    FilterMembers(t.columns, t.rows, Present(Required));
    assert NoDuplicates(keys) by {
      forall i, j | 0 <= i < j < |keys| ensures keys[i] != keys[j] {
        assert keys[i][0] == states[i] && keys[j][0] == states[j];
      }
    }
    forall l | l in df.rows
      ensures Holds(df.columns, Present(["State"]), l) && KeyOf(df.columns, l, ["State"]) in keys
    {
      assert "State" in Required;
      var i :| 0 <= i < |df.rows| && df.rows[i] == l;
      var s := Column(df, "State")[i];
      assert s in states;
      var j :| 0 <= j < |states| && states[j] == s;
      assert KeyOf(df.columns, l, ["State"]) == keys[j];
    }
    Partition(df.columns, df.rows, ["State"], keys);
  }
}
