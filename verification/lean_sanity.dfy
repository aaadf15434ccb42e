/**
 * The sanity-check pipeline: read the rules document and the data table,
 * keep every referenced column the data has, and write the lean table.
 * The file system is modelled by its contents: `None` for a file that
 * does not exist.
 */
module SanityCheck {
  import opened Wrappers
  import opened Tables
  import opened RuleScanner
  import opened StringOrder

  datatype InputFile = DataFile | RulesFile

  datatype Outcome =
    | InputNotFound(file: InputFile)
    | NoColumnsResolved
    | Wrote(lean: Table, keep: seq<string>, missing: seq<string>, noRuleWarning: bool)

  /** The process exit status of each outcome. */
  function ExitCode(o: Outcome): (code: int)
    ensures code == 0 <==> o.Wrote?
    ensures code == 2 <==> o.InputNotFound?
    ensures code == 3 <==> o.NoColumnsResolved?
  {
    match o
    case InputNotFound(_) => 2
    case NoColumnsResolved => 3
    case Wrote(_, _, _, _) => 0
  }

  /**
   * `[c for c in cols if c in available]` over a set: the referenced columns
   * the data has, each once, in whatever order the set yields them.
   */
  method KeepAvailable(cols: set<string>, available: set<string>) returns (keep: seq<string>)
    ensures Distinct(keep)
    ensures forall c :: c in keep <==> c in cols && c in available
  {
    keep := [];
    var pending := cols;
    while pending != {}
      invariant pending <= cols
      invariant Distinct(keep)
      invariant forall c :: c in keep ==> c in available && c in cols && c !in pending
      invariant forall c :: c in cols && c !in pending && c in available ==> c in keep
      decreases |pending|
    {
      var c :| c in pending;
      if c in available {
        keep := keep + [c];
      }
      pending := pending - {c};
    }
  }

  /** What a run on a data table and a rules document that both exist must produce. */
  ghost predicate SanityResult(df: Table, text: string, o: Outcome)
    requires WellFormed(df)
  {
    var rules := ExtractRuleStrings(text);
    var cols := ReferencedColumns(rules);
    var available := set c | c in df.columns;
    if cols * available == {} then o == NoColumnsResolved
    else
      && o.Wrote?
      && Distinct(o.keep)
      && (forall c :: c in o.keep <==> c in cols && c in available)
      && o.lean == Project(df, o.keep)
      && StrictlySorted(o.missing)
      && (forall c :: c in o.missing <==> c in cols && c !in available)
      && o.noRuleWarning == (rules == [])
  }

  /** The whole script: exit 2 for a missing input, 3 when no column is found, else the lean table. */
  method SanityMain(data: Option<Table>, rulesText: Option<string>) returns (o: Outcome)
    requires data.Some? ==> WellFormed(data.value)
    ensures data.None? <==> o == InputNotFound(DataFile)
    ensures data.Some? && rulesText.None? <==> o == InputNotFound(RulesFile)
    ensures data.Some? && rulesText.Some? ==> SanityResult(data.value, rulesText.value, o)
  {
    if data.None? {
      return InputNotFound(DataFile);
    }
    if rulesText.None? {
      return InputNotFound(RulesFile);
    }
    var rules := ExtractRuleStrings(rulesText.value);
    var noRuleWarning := rules == [];
    var cols := CollectReferenced(rules);
    var df := data.value;
    var available := set c | c in df.columns;
    var keep := KeepAvailable(cols, available);
    var missing := SortedList(cols - (set c | c in keep));
    ResultOfKeep(df, rulesText.value, cols, available, keep, missing);
    if keep == [] {
      return NoColumnsResolved;
    }
    o := Wrote(Project(df, keep), keep, missing, noRuleWarning);
  }

  /** The outcome the script reaches from the kept and the missing columns it computed. */
  lemma ResultOfKeep(df: Table, text: string, cols: set<string>, available: set<string>,
                     keep: seq<string>, missing: seq<string>)
    requires WellFormed(df)
    requires cols == ReferencedColumns(ExtractRuleStrings(text)) && available == set c | c in df.columns
    requires Distinct(keep) && forall c :: c in keep <==> c in cols && c in available
    requires StrictlySorted(missing) && forall c :: c in missing <==> c in cols - (set c | c in keep)
    ensures keep == [] ==> SanityResult(df, text, NoColumnsResolved)
    ensures keep != [] ==>
              SanityResult(df, text, Wrote(Project(df, keep), keep, missing, ExtractRuleStrings(text) == []))
  {
    forall c
      ensures c in missing <==> c in cols && c !in available
    {
      assert c in (set c | c in keep) <==> c in keep;
    }
    if keep == [] {
      assert forall c :: c in cols && c in available ==> c in keep;
      assert cols * available == {};
    } else {
      assert keep[0] in cols * available;
      assert cols * available != {};
      var o := Wrote(Project(df, keep), keep, missing, ExtractRuleStrings(text) == []);
      assert SanityResult(df, text, o);
    }
  }

  /**
   * Exit 3 happens only when the data has none of the referenced columns,
   * the required ones included.
   */
  lemma NoColumnsMeansNoRequired(df: Table, text: string, o: Outcome)
    requires WellFormed(df) && SanityResult(df, text, o)
    requires o == NoColumnsResolved
    ensures "acquisition_uw_score" !in df.columns && "is_fpd" !in df.columns
  {
    var cols := ReferencedColumns(ExtractRuleStrings(text));
    assert cols * (set c | c in df.columns) == {};
    DisjointFromColumns(cols, df.columns);
  }

  lemma DisjointFromColumns(cols: set<string>, columns: seq<string>)
    requires cols * (set c | c in columns) == {}
    ensures forall c :: c in cols ==> c !in columns
  {
    forall c | c in cols
      ensures c !in columns
    {
      assert c !in cols * (set c | c in columns);
    }
  }

  /** The lean table keeps every row of the data, in order, with the kept values unchanged. */
  lemma LeanKeepsRows(df: Table, text: string, o: Outcome)
    requires WellFormed(df) && SanityResult(df, text, o) && o.Wrote?
    ensures |o.lean.rows| == |df.rows|
    ensures forall r, c :: 0 <= r < |df.rows| && c in o.keep ==> o.lean.rows[r][c] == df.rows[r][c]
    ensures "is_fpd" in df.columns ==> "is_fpd" in o.keep
  {
    assert "is_fpd" in ReferencedColumns(ExtractRuleStrings(text));
  }
}
