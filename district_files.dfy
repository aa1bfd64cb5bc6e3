/** analyzer/scripts/save_district_csvs.py: drop the rows without a District or a
    State, and write one file per (State, District) pair into a folder per state,
    counting the files. */
module DistrictFiles {
  import opened Tables
  import opened Strings

  const PairCols: seq<string> := ["State", "District"]

  /** The districts directory: (state folder, file name) to contents. */
  type Directory = map<(string, string), Table>

  /** How the script ends: the `KeyError` of `dropna` on a column that does not exist
      (nothing is written), the `AttributeError` of `.strip()` on a name that is not
      text (the files written before it stay, the count is never printed), or success
      with the printed count. */
  datatype Saving =
    | NoColumn
    | Crashed(dir: Directory, key: seq<Cell>)
    | Done(dir: Directory, count: nat)

  /** `name.strip().replace(" ", "_").replace("/", "_")` */
  function CleanName(s: string): (r: string)
    ensures |r| == |Strip(s)| <= |s|
    ensures forall i :: 0 <= i < |r| ==> r[i] != ' ' && r[i] != '/'
  {
    ReplaceChar(Strip(s), ' ', '_');
    ReplaceChar(Replace(Strip(s), " ", "_"), '/', '_');
    Replace(Replace(Strip(s), " ", "_"), "/", "_")
  }

  /** Strip the ends, then ' ' and '/' become '_'; nothing else changes. */
  lemma CleanNameChars(s: string)
    ensures |CleanName(s)| == |Strip(s)|
    ensures forall i :: 0 <= i < |Strip(s)| ==>
              CleanName(s)[i] == if Strip(s)[i] == ' ' || Strip(s)[i] == '/' then '_' else Strip(s)[i]
  {
    ReplaceChar(Strip(s), ' ', '_');
    ReplaceChar(Replace(Strip(s), " ", "_"), '/', '_');
  }

  /** A cleaned name has no space, no '/', and no whitespace at either end. */
  lemma CleanNameIsClean(s: string)
    ensures var n := CleanName(s);
            (forall i :: 0 <= i < |n| ==> n[i] != ' ' && n[i] != '/')
            && (n != [] ==> !IsSpace(n[0]) && !IsSpace(n[|n| - 1]))
  {
    CleanNameChars(s);
    StripFacts(s);
  }

  /** Cleaning a cleaned name changes nothing. */
  lemma CleanNameIdempotent(s: string)
    ensures CleanName(CleanName(s)) == CleanName(s)
  {
    var n := CleanName(s);
    CleanNameIsClean(s);
    StripClean(n);
    NoCharNotContained(n, ' ');
    ReplaceAbsent(n, " ", "_");
    NoCharNotContained(n, '/');
    ReplaceAbsent(n, "/", "_");
  }

  predicate IsText(c: Cell) {
    c.Some? && c.value.Text?
  }

  function TextOf(c: Cell): string {
    if IsText(c) then c.value.s else ""
  }

  /** Both parts of a group key are text, so `.strip()` works on them. */
  predicate Writable(key: seq<Cell>) {
    |key| == 2 && IsText(key[0]) && IsText(key[1])
  }

  /** Where a group is written: the state's folder and the district's file. */
  function PathOf(key: seq<Cell>): (string, string)
    requires |key| == 2
  {
    (CleanName(TextOf(key[0])), CleanName(TextOf(key[1])) + ".csv")
  }

  /** The rows that the script keeps. */
  function Kept(t: Table): Table {
    Where(t, Present(["District", "State"]))
  }

  /** The groups of `groupby(["State", "District"])`, each once; the rows kept have both
      fields, so every key has two non-missing parts. */
  function Groups(df: Table): seq<seq<Cell>> {
    Distinct(Keys(df.columns, df.rows, PairCols))
  }

  function GroupTable(df: Table, key: seq<Cell>): Table {
    Where(df, Key(PairCols, key))
  }

  /** The directory after writing the files of `keys`, in order. */
  function Saved(dir: Directory, df: Table, keys: seq<seq<Cell>>): Directory
    requires forall j :: 0 <= j < |keys| ==> |keys[j]| == 2
  {
    if keys == [] then dir
    else
      var last := keys[|keys| - 1];
      Saved(dir, df, keys[..|keys| - 1])[PathOf(last) := GroupTable(df, last)]
  }

  /** How many of the first keys are writable. */
  function WritablePrefix(s: seq<seq<Cell>>): (n: nat)
    ensures n <= |s|
    ensures forall j :: 0 <= j < n ==> Writable(s[j])
    ensures n < |s| ==> !Writable(s[n])
  {
    if s == [] || !Writable(s[0]) then 0 else 1 + WritablePrefix(s[1..])
  }

  predicate PairsOfTwo(keys: seq<seq<Cell>>) {
    forall j :: 0 <= j < |keys| ==> |keys[j]| == 2
  }

  lemma GroupsArePairs(df: Table)
    ensures PairsOfTwo(Groups(df))
  {
    var keys := Keys(df.columns, df.rows, PairCols);
    forall j | 0 <= j < |Groups(df)| ensures |Groups(df)[j]| == 2 {
      assert Groups(df)[j] in keys;
    }
  }

  /** Writing the files of `groups` in turn, up to the first that cannot be named. */
  function WriteSpec(dir: Directory, df: Table, groups: seq<seq<Cell>>): Saving
    requires PairsOfTwo(groups)
  {
    var n := WritablePrefix(groups);
    if n < |groups| then Crashed(Saved(dir, df, groups[..n]), groups[n])
    else Done(Saved(dir, df, groups), |groups|)
  }

  /** What the script does to the directory. */
  function SaveSpec(t: Table, dir: Directory): Saving {
    if "District" !in t.columns || "State" !in t.columns then NoColumn
    else
      GroupsArePairs(Kept(t));
      WriteSpec(dir, Kept(t), Groups(Kept(t)))
  }

  /** The script. */
  method SaveDistrictCsvs(t: Table, dir: Directory) returns (r: Saving)
    ensures r == SaveSpec(t, dir)
  {
    if "District" !in t.columns || "State" !in t.columns {
      return NoColumn;
    }
    var df := Where(t, Present(["District", "State"]));
    var groups := Distinct(Keys(df.columns, df.rows, PairCols));
    GroupsArePairs(df);
    r := WriteGroups(dir, df, groups);
  }

  /** The loop over the groups with its running count. */
  method WriteGroups(dir: Directory, df: Table, groups: seq<seq<Cell>>) returns (r: Saving)
    requires PairsOfTwo(groups)
    ensures r == WriteSpec(dir, df, groups)
  {
    var written := dir;
    var count := 0;
    while count < |groups|
      invariant 0 <= count <= |groups|
      invariant forall j :: 0 <= j < count ==> Writable(groups[j])
      invariant written == Saved(dir, df, groups[..count])
    {
      var key := groups[count];
      if !Writable(key) {
        WritablePrefixIs(groups, count);
        return Crashed(written, key);
      }
      assert forall j :: 0 <= j < count + 1 ==> Writable(groups[j]);
      SavedSnoc(dir, df, groups, count);
      written := written[PathOf(key) := GroupTable(df, key)];
      count := count + 1;
    }
    WritablePrefixIs(groups, |groups|);
    assert groups[..|groups|] == groups;
    return Done(written, count);
  }

  /** Writing one more group's file. */
  lemma SavedSnoc(dir: Directory, df: Table, keys: seq<seq<Cell>>, k: nat)
    requires PairsOfTwo(keys) && k < |keys|
    ensures Saved(dir, df, keys[..k + 1]) == Saved(dir, df, keys[..k])[PathOf(keys[k]) := GroupTable(df, keys[k])]
  {
    assert keys[..k + 1][..k] == keys[..k];
    assert keys[..k + 1][k] == keys[k];
  }

  lemma WritablePrefixIs(s: seq<seq<Cell>>, k: nat)
    requires k <= |s| && forall j :: 0 <= j < k ==> Writable(s[j])
    requires k < |s| ==> !Writable(s[k])
    ensures WritablePrefix(s) == k
  {
  }

  /** The count the script prints is the number of different (State, District) pairs
      among the kept rows. */
  lemma CountIsPairs(t: Table, dir: Directory)
    requires SaveSpec(t, dir).Done?
    ensures SaveSpec(t, dir).count == |Elements(Keys(Kept(t).columns, Kept(t).rows, PairCols))|
  {
    DistinctCountsValues(Keys(Kept(t).columns, Kept(t).rows, PairCols));
  }

  /** Every kept row has both names, and a group file holds the kept rows with exactly
      that pair. */
  lemma GroupRows(t: Table, key: seq<Cell>)
    requires |key| == 2
    ensures var f := GroupTable(Kept(t), key);
            f.columns == t.columns
            && forall l :: l in f.rows ==>
                 l in t.rows && !IsNA(Get(t.columns, l, "State")) && !IsNA(Get(t.columns, l, "District"))
                 && Get(t.columns, l, "State") == key[0] && Get(t.columns, l, "District") == key[1]
  {
    var f := GroupTable(Kept(t), key);
    FilterMembers(t.columns, t.rows, Present(["District", "State"]));
    FilterMembers(t.columns, Kept(t).rows, Key(PairCols, key));
    forall l | l in f.rows
      ensures l in t.rows && !IsNA(Get(t.columns, l, "State")) && !IsNA(Get(t.columns, l, "District"))
      ensures Get(t.columns, l, "State") == key[0] && Get(t.columns, l, "District") == key[1]
    {
      assert "State" in ["District", "State"] && "District" in ["District", "State"];
      var k := KeyOf(t.columns, l, PairCols);
      assert k[0] == Get(t.columns, l, "State") && k[1] == Get(t.columns, l, "District");
    }
  }

  /** The groups partition the kept rows: their sizes add up to the number of kept
      rows. */
  lemma GroupsPartition(t: Table)
    ensures var df := Kept(t);
            SumCounts(df.columns, df.rows, PairCols, Groups(df)) == |df.rows|
  {
    var df := Kept(t);
    var keys := Keys(df.columns, df.rows, PairCols);
    FilterMembers(t.columns, t.rows, Present(["District", "State"]));
    forall l | l in df.rows
      ensures Holds(df.columns, Present(PairCols), l) && KeyOf(df.columns, l, PairCols) in Groups(df)
    {
      assert "State" in ["District", "State"] && "District" in ["District", "State"];
      forall c | c in PairCols ensures !IsNA(Get(df.columns, l, c)) {
        assert c == "State" || c == "District";
      }
      var i :| 0 <= i < |df.rows| && df.rows[i] == l;
      assert keys[i] == KeyOf(df.columns, l, PairCols);
    }
    Partition(df.columns, df.rows, PairCols, Groups(df));
  }

  /** A group whose file no later group overwrites holds exactly its rows. */
  lemma {:induction false} SavedFile(dir: Directory, df: Table, keys: seq<seq<Cell>>, j: nat)
    requires PairsOfTwo(keys)
    requires j < |keys|
    requires forall i :: j < i < |keys| ==> PathOf(keys[i]) != PathOf(keys[j])
    ensures PathOf(keys[j]) in Saved(dir, df, keys)
    ensures Saved(dir, df, keys)[PathOf(keys[j])] == GroupTable(df, keys[j])
  {
    if j < |keys| - 1 {
      var init := keys[..|keys| - 1];
      assert init[j] == keys[j];
      SavedFile(dir, df, init, j);
    }
  }
}
