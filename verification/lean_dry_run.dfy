/**
 * The dry-run pipeline: like the sanity check, but a missing rules file
 * only warns, the kept columns are sorted, and a referenced
 * `phone_carrier_te` the data lacks is built from a raw carrier column,
 * by target encoding or, when that raises, by frequency encoding.
 */
module DryRun {
  import opened Wrappers
  import opened Tables
  import opened RuleScanner
  import opened StringOrder
  import opened Encoders

  const NSplits: nat := 5
  const Alpha: real := 200.0
  const TargetColumn := "is_fpd"
  const BuiltColumn := "phone_carrier_te"

  /** The raw carrier columns tried as the source of the built column, in order of preference. */
  const CandidateColumns: seq<string> := ["phone_carrier", "phone_carrier_cat", "phone_carrier_raw"]

  /** The first candidate the table has, if any. */
  function FirstPresent(candidates: seq<string>, columns: seq<string>): (found: Option<string>)
    ensures found.None? <==> forall i :: 0 <= i < |candidates| ==> candidates[i] !in columns
    ensures found.Some? ==>
      exists i :: 0 <= i < |candidates| && candidates[i] == found.value && found.value in columns
                  && forall j :: 0 <= j < i ==> candidates[j] !in columns
  {
    if candidates == [] then None
    else if candidates[0] in columns then Some(candidates[0])
    else
      var rest := FirstPresent(candidates[1..], columns);
      assert rest.Some? ==> exists i :: 1 <= i < |candidates| && candidates[i] == rest.value
                              && forall j :: 0 <= j < i ==> candidates[j] !in columns by {
        if rest.Some? {
          var i :| 0 <= i < |candidates| - 1 && candidates[1..][i] == rest.value
                   && forall j :: 0 <= j < i ==> candidates[1..][j] !in columns;
          assert forall j :: 1 <= j < i + 1 ==> candidates[j] == candidates[1..][j - 1];
        }
      }
      assert rest.None? ==> forall i :: 1 <= i < |candidates| ==> candidates[i] !in columns by {
        if rest.None? {
          assert forall i :: 1 <= i < |candidates| ==> candidates[i] == candidates[1..][i - 1];
        }
      }
      rest
  }

  /** Why the frequency encoding was used instead of the target encoding. */
  datatype FallbackReason =
    | TargetColumnMissing             // looking up the target column raised
    | EncoderRaised(error: EncodeError)

  /** What became of the attempt to build the missing carrier feature. */
  datatype Synthesis =
    | NotAttempted                    // not referenced, or already in the data
    | NoCandidate                     // no raw carrier column
    | TargetEncoded(source: string)
    | FrequencyFallback(source: string, reason: FallbackReason)

  datatype Outcome =
    | DataNotFound
    | Wrote(rulesWarning: bool, referenced: set<string>,
            present: seq<string>, missing: seq<string>,
            synthesis: Synthesis,
            finalPresent: seq<string>, finalMissing: seq<string>,
            lean: Table)

  /** The process exit status of each outcome. */
  function ExitCode(o: Outcome): (code: int)
    ensures code == 2 <==> o.DataNotFound?
    ensures code == 0 <==> o.Wrote?
  {
    if o.DataNotFound? then 2 else 0
  }

  /** `present` and `missing` split the referenced columns by whether the data has them, each sorted. */
  ghost predicate SplitSorted(present: seq<string>, missing: seq<string>, referenced: set<string>, columns: set<string>)
  {
    && StrictlySorted(present)
    && (forall c :: c in present <==> c in referenced && c in columns)
    && StrictlySorted(missing)
    && (forall c :: c in missing <==> c in referenced && c !in columns)
  }

  /** The two sorted lists the script prints and writes. */
  method SplitColumns(referenced: set<string>, columns: seq<string>) returns (present: seq<string>, missing: seq<string>)
    ensures SplitSorted(present, missing, referenced, set c | c in columns)
  {
    present := SortedList(set c | c in referenced && c in columns);
    missing := SortedList(referenced - (set c | c in present));
  }

  /** Whether a target value fails the conversion to float. */
  predicate HasTextTarget(target: seq<Value>)
  {
    exists t :: 0 <= t < |target| && target[t].Str?
  }

  /** Whether target encoding goes through: the target exists and none of the encoder's raises applies. */
  predicate TargetEncodable(df: Table, kfoldAvailable: bool)
    requires WellFormed(df)
  {
    TargetColumn in df.columns && kfoldAvailable && |df.rows| >= NSplits
    && !HasTextTarget(ColumnValues(df, TargetColumn))
  }

  /**
   * The outcome of building the feature for `df`: no candidate when the data
   * has none of the raw carrier columns; otherwise the first one present is
   * the source, target encoded when that goes through and frequency encoded
   * when it raises.
   */
  ghost predicate ChosenSynthesis(df: Table, kfoldAvailable: bool, syn: Synthesis)
    requires WellFormed(df)
  {
    match FirstPresent(CandidateColumns, df.columns)
    case None => syn == NoCandidate
    case Some(src) =>
      && (syn.TargetEncoded? || syn.FrequencyFallback?)
      && syn.source == src
      && (syn.TargetEncoded? <==> TargetEncodable(df, kfoldAvailable))
      && (syn.FrequencyFallback? ==> (syn.reason == TargetColumnMissing <==> TargetColumn !in df.columns))
  }

  /**
   * Building the missing carrier feature: from the first candidate column
   * the table has, by target encoding, falling back to frequency encoding
   * whenever target encoding raises. Exactly one column is added when a
   * candidate exists; nothing changes otherwise.
   */
  method SynthesizeCarrierFeature(df: Table, kfoldAvailable: bool, fold: seq<nat>)
    returns (built: Table, syn: Synthesis)
    requires WellFormed(df) && BuiltColumn !in df.columns
    requires |fold| == |df.rows| && forall t :: 0 <= t < |fold| ==> fold[t] < NSplits
    ensures WellFormed(built)
    ensures ChosenSynthesis(df, kfoldAvailable, syn)
    ensures FirstPresent(CandidateColumns, df.columns).None? ==> syn == NoCandidate && built == df
    ensures FirstPresent(CandidateColumns, df.columns).Some? ==>
      var src := FirstPresent(CandidateColumns, df.columns).value;
      && built.columns == df.columns + [BuiltColumn]
      && |built.rows| == |df.rows|
      && (forall r, c :: 0 <= r < |df.rows| && c in df.columns ==> built.rows[r][c] == df.rows[r][c])
      && (syn == TargetEncoded(src) <==> TargetEncodable(df, kfoldAvailable))
      && (syn.TargetEncoded? ==>
            && syn == TargetEncoded(src)
            && forall r :: 0 <= r < |df.rows| ==>
                 built.rows[r][BuiltColumn]
                   == OofValue(ColumnValues(df, src), ColumnValues(df, TargetColumn), fold, Alpha, r))
      && (!syn.TargetEncoded? ==>
            && syn.FrequencyFallback?
            && syn.source == src
            && forall r :: 0 <= r < |df.rows| ==>
                 built.rows[r][BuiltColumn] == FrequencyEncode(ColumnValues(df, src))[r])
      && (syn == FrequencyFallback(src, TargetColumnMissing) <==> TargetColumn !in df.columns)
  {
    var found := FirstPresent(CandidateColumns, df.columns);
    if found.None? {
      return df, NoCandidate;
    }
    var src := found.value;
    var raw := ColumnValues(df, src);
    var reason: FallbackReason;
    if TargetColumn !in df.columns {
      reason := TargetColumnMissing;
    } else {
      var res := CrossFittedTargetEncode(raw, ColumnValues(df, TargetColumn), fold, NSplits, Alpha, kfoldAvailable);
      if res.Ok? {
        return WithColumn(df, BuiltColumn, res.value), TargetEncoded(src);
      }
      reason := EncoderRaised(res.error);
    }
    built := WithColumn(df, BuiltColumn, FillNa(FrequencyEncode(raw), Num(0.0)));
    FrequencyFillNaNoOp(raw);
    syn := FrequencyFallback(src, reason);
  }

  /** The rule strings of the dry run: none without a rules file or with an empty one. */
  function DryRunRules(rulesText: Option<string>): (rules: seq<string>)
    ensures rulesText.None? || rulesText.value == [] ==> rules == []
    ensures rulesText.Some? && rulesText.value != [] ==> rules == ExtractRuleStrings(rulesText.value)
  {
    if rulesText.Some? && rulesText.value != "" then ExtractRuleStrings(rulesText.value) else []
  }

  /** `built` extends `df`: same rows, and every column of `df` with the same values. */
  ghost predicate Extends(built: Table, df: Table)
  {
    && WellFormed(df)
    && WellFormed(built)
    && |built.rows| == |df.rows|
    && (forall c :: c in df.columns ==> c in built.columns)
    && (forall r, c :: 0 <= r < |df.rows| && c in df.columns ==> built.rows[r][c] == df.rows[r][c])
  }

  /** The values of the built column of `t`, as the synthesis outcome says they were computed. */
  ghost predicate BuiltAs(t: Table, df: Table, syn: Synthesis, fold: seq<nat>)
    requires WellFormed(t) && WellFormed(df) && |t.rows| == |df.rows| && |fold| == |df.rows|
  {
    match syn
    case TargetEncoded(src) =>
      && src in df.columns && TargetColumn in df.columns && BuiltColumn in t.columns
      && forall r :: 0 <= r < |t.rows| ==>
           t.rows[r][BuiltColumn] == OofValue(ColumnValues(df, src), ColumnValues(df, TargetColumn), fold, Alpha, r)
    case FrequencyFallback(src, _) =>
      && src in df.columns && BuiltColumn in t.columns
      && forall r :: 0 <= r < |t.rows| ==> t.rows[r][BuiltColumn] == FrequencyEncode(ColumnValues(df, src))[r]
    case _ => true
  }

  /** The lean table: the kept columns of the extended table, every row, values unchanged. */
  lemma LeanFromExtended(df: Table, built: Table, keep: seq<string>, syn: Synthesis, fold: seq<nat>)
    requires Extends(built, df) && Distinct(keep) && |fold| == |df.rows|
    requires forall c :: c in keep ==> c in built.columns
    requires BuiltAs(built, df, syn, fold)
    requires syn.TargetEncoded? || syn.FrequencyFallback? ==> BuiltColumn in keep
    ensures var lean := Project(built, keep);
      && WellFormed(lean) && lean.columns == keep && |lean.rows| == |df.rows|
      && (forall r, c :: 0 <= r < |df.rows| && c in keep && c in df.columns ==> lean.rows[r][c] == df.rows[r][c])
      && BuiltAs(lean, df, syn, fold)
  {
  }

  /**
   * The recomputed lists: unchanged when nothing was built, so a built column
   * no candidate could supply stays missing; otherwise the built column
   * counts as present.
   */
  ghost predicate FinalSplit(o: Outcome, df: Table)
    requires o.Wrote?
  {
    && (o.synthesis.NotAttempted? || o.synthesis.NoCandidate? ==>
          o.finalPresent == o.present && o.finalMissing == o.missing)
    && (o.synthesis.NoCandidate? ==> BuiltColumn in o.finalMissing)
    && (o.synthesis.TargetEncoded? || o.synthesis.FrequencyFallback? ==>
          && SplitSorted(o.finalPresent, o.finalMissing, o.referenced, (set c | c in df.columns) + {BuiltColumn})
          && BuiltColumn in o.finalPresent)
  }

  /**
   * The written table: the final present columns in sorted order, every row
   * of the data, the data's values unchanged and the built column as computed.
   */
  ghost predicate LeanWritten(o: Outcome, df: Table, fold: seq<nat>)
    requires o.Wrote? && WellFormed(df) && |fold| == |df.rows|
  {
    && WellFormed(o.lean)
    && o.lean.columns == o.finalPresent
    && |o.lean.rows| == |df.rows|
    && (forall r, c :: 0 <= r < |df.rows| && c in o.finalPresent && c in df.columns ==>
          o.lean.rows[r][c] == df.rows[r][c])
    && BuiltAs(o.lean, df, o.synthesis, fold)
  }

  /**
   * The whole script: exit 2 without the data file; otherwise the lean
   * table of every referenced column the (possibly extended) data has,
   * with the columns in sorted order.
   */
  method DryRunMain(data: Option<Table>, rulesText: Option<string>, kfoldAvailable: bool, fold: seq<nat>)
    returns (o: Outcome)
    requires data.Some? ==> WellFormed(data.value) && |fold| == |data.value.rows|
    requires data.Some? ==> forall t :: 0 <= t < |fold| ==> fold[t] < NSplits
    ensures data.None? <==> o == DataNotFound
    ensures data.Some? ==>
      var df := data.value;
      && o.Wrote?
      && o.rulesWarning == rulesText.None?
      && o.referenced == ReferencedColumns(DryRunRules(rulesText))
      && SplitSorted(o.present, o.missing, o.referenced, set c | c in df.columns)
      && (o.synthesis == NotAttempted <==> BuiltColumn !in o.referenced || BuiltColumn in df.columns)
      && (BuiltColumn in o.referenced && BuiltColumn !in df.columns ==>
            ChosenSynthesis(df, kfoldAvailable, o.synthesis))
      && FinalSplit(o, df)
      && LeanWritten(o, df, fold)
  {
    if data.None? {
      return DataNotFound;
    }
    var df := data.value;
    var rulesWarning := rulesText.None?;
    var rules := DryRunRules(rulesText);
    var referenced := CollectReferenced(rules);
    var present, missing := SplitColumns(referenced, df.columns);
    var built, syn := ExtendIfReferenced(df, referenced, kfoldAvailable, fold);
    var finalPresent, finalMissing := SplitColumns(referenced, built.columns);
    StrictlySortedDistinct(finalPresent);
    LeanFromExtended(df, built, finalPresent, syn, fold);
    o := Wrote(rulesWarning, referenced, present, missing, syn, finalPresent, finalMissing,
               Project(built, finalPresent));
    FinalSplitHolds(o, df, built);
  }

  /** The step of the script that builds the carrier feature only when a rule needs it and the data lacks it. */
  method ExtendIfReferenced(df: Table, referenced: set<string>, kfoldAvailable: bool, fold: seq<nat>)
    returns (built: Table, syn: Synthesis)
    requires WellFormed(df) && |fold| == |df.rows| && forall t :: 0 <= t < |fold| ==> fold[t] < NSplits
    ensures Extends(built, df) && BuiltAs(built, df, syn, fold)
    ensures syn == NotAttempted <==> BuiltColumn !in referenced || BuiltColumn in df.columns
    ensures BuiltColumn in referenced && BuiltColumn !in df.columns ==> ChosenSynthesis(df, kfoldAvailable, syn)
    ensures syn.NotAttempted? || syn.NoCandidate? ==> built == df
    ensures syn.TargetEncoded? || syn.FrequencyFallback? ==>
              built.columns == df.columns + [BuiltColumn] && BuiltColumn in referenced
  {
    syn := NotAttempted;
    built := df;
    if BuiltColumn in referenced && BuiltColumn !in df.columns {
      built, syn := SynthesizeCarrierFeature(df, kfoldAvailable, fold);
    }
  }

  /** The recomputed lists agree with the first ones, or count the built column as present. */
  lemma FinalSplitHolds(o: Outcome, df: Table, built: Table)
    requires o.Wrote?
    requires SplitSorted(o.present, o.missing, o.referenced, set c | c in df.columns)
    requires SplitSorted(o.finalPresent, o.finalMissing, o.referenced, set c | c in built.columns)
    requires o.synthesis.NotAttempted? || o.synthesis.NoCandidate? ==> built == df
    requires o.synthesis.NoCandidate? ==> BuiltColumn in o.referenced && BuiltColumn !in df.columns
    requires o.synthesis.TargetEncoded? || o.synthesis.FrequencyFallback? ==>
               built.columns == df.columns + [BuiltColumn] && BuiltColumn in o.referenced
    ensures FinalSplit(o, df)
  {
    if o.synthesis.NotAttempted? || o.synthesis.NoCandidate? {
      SortedUnique(o.present, o.finalPresent);
      SortedUnique(o.missing, o.finalMissing);
    } else {
      assert (set c | c in built.columns) == (set c | c in df.columns) + {BuiltColumn};
    }
  }
}
