/** The dropdown lists of state and district names: a directory listing turned into
    the names of its CSV files (analyzer/context_processors.py, and the same expression
    in analyzer/views.py). */
module Listing {
  import opened Tables
  import opened Strings

  const Csv: string := ".csv"

  /** `[name.replace('.csv', '') for name in entries if name.endswith('.csv')]` */
  function Stems(entries: seq<string>): (r: seq<string>)
    ensures |r| <= |entries|
    ensures forall n :: n in r <==> exists e :: e in entries && EndsWith(e, Csv) && n == Replace(e, Csv, "")
  {
    if entries == [] then []
    else
      var rest := Stems(entries[1..]);
      assert forall e :: e in entries <==> e == entries[0] || e in entries[1..];
      (if EndsWith(entries[0], Csv) then [Replace(entries[0], Csv, "")] else []) + rest
  }

  /** How many entries of the listing end in ".csv". */
  function CsvEntries(entries: seq<string>): nat {
    if entries == [] then 0
    else (if EndsWith(entries[0], Csv) then 1 else 0) + CsvEntries(entries[1..])
  }

  /** Every ".csv" entry gives exactly one name: nothing is merged or de-duplicated. */
  lemma {:induction false} StemsOnePerCsv(entries: seq<string>)
    ensures |Stems(entries)| == CsvEntries(entries)
  {
    if entries != [] {
      StemsOnePerCsv(entries[1..]);
    }
  }

  /** The sorted names of the CSV files in a listing; `None` is a directory that does
      not exist (`FileNotFoundError`), which gives the empty list. */
  function CsvNames(listing: Option<seq<string>>): (r: seq<string>)
    ensures listing.None? ==> r == []
    ensures listing.Some? ==> Sorted(r) && multiset(r) == multiset(Stems(listing.value))
  {
    match listing
    case None => []
    case Some(entries) => Sort(Stems(entries))
  }

  /** The context processor: the template context has the one key `all_states`, bound
      to the sorted names of the CSV files in the states directory, as many as there
      are such files. */
  function StatesProcessor(listing: Option<seq<string>>): (ctx: map<string, seq<string>>)
    ensures ctx.Keys == {"all_states"}
    ensures listing.None? ==> ctx["all_states"] == []
    ensures listing.Some? ==> |ctx["all_states"]| == CsvEntries(listing.value)
    ensures Sorted(ctx["all_states"])
    ensures forall n :: n in ctx["all_states"] <==>
              listing.Some? && exists e :: e in listing.value && EndsWith(e, Csv) && n == Replace(e, Csv, "")
  {
    var names := CsvNames(listing);
    CsvNamesFacts(listing);
    map["all_states" := names]
  }

  lemma CsvNamesFacts(listing: Option<seq<string>>)
    ensures listing.Some? ==> |CsvNames(listing)| == CsvEntries(listing.value)
    ensures forall n :: n in CsvNames(listing) <==> listing.Some? && n in Stems(listing.value)
  {
    if listing.Some? {
      var names := CsvNames(listing);
      StemsOnePerCsv(listing.value);
      assert |names| == |multiset(names)| == |multiset(Stems(listing.value))| == |Stems(listing.value)|;
      forall n ensures n in names <==> n in Stems(listing.value) {
        assert n in names <==> n in multiset(names);
        assert n in Stems(listing.value) <==> n in multiset(Stems(listing.value));
      }
    }
  }

  /** For an ordinary file name the rule just drops the extension. */
  lemma {:induction false} CsvSuffixDropped(base: string)
    requires !Contains(base, Csv)
    ensures Replace(base + Csv, Csv, "") == base
  {
    var s := base + Csv;
    if base == [] {
      assert s == Csv && s[..|Csv|] == Csv && s[|Csv|..] == [];
    } else {
      assert s[..|Csv|] != Csv by {
        if |base| >= |Csv| {
          assert s[..|Csv|] == base[..|Csv|];
        } else {
          assert s[|base|] == '.' && Csv[|base|] != '.';
        }
      }
      assert s[1..] == base[1..] + Csv;
      assert !Contains(base[1..], Csv);
      CsvSuffixDropped(base[1..]);
    }
  }

  /** `replace` removes every ".csv", not just the extension. */
  lemma EveryOccurrenceRemoved()
    ensures Replace("a.csv.csv", Csv, "") == "a"
    ensures Replace("x.csvy.csv", Csv, "") == "xy"
  {
    assert Replace("", Csv, "") == "";
    assert Replace(".csv", Csv, "") == "";
    assert Replace(".csv.csv", Csv, "") == "";
    assert Replace("y.csv", Csv, "") == "y";
    assert Replace(".csvy.csv", Csv, "") == "y";
  }

  /** Two different files can give the same name, and both are listed. */
  lemma SameNameListedTwice()
    ensures CsvNames(Some(["a.csv", "b.txt", "a.csv.csv"])) == ["a", "a"]
  {
    assert Replace("", Csv, "") == "";
    assert Replace(".csv", Csv, "") == "";
    assert Replace("a.csv", Csv, "") == "a";
    assert Replace(".csv.csv", Csv, "") == "";
    assert Replace("a.csv.csv", Csv, "") == "a";
    assert !EndsWith("b.txt", Csv);
    assert Stems(["a.csv.csv"]) == ["a"];
    assert Stems(["b.txt", "a.csv.csv"]) == ["a"];
    assert Stems(["a.csv", "b.txt", "a.csv.csv"]) == ["a", "a"];
    LeReflexive("a");
  }
}
