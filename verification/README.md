# Lean rule-feature extraction, modelled in Dafny

The repository mines credit-risk rules ("first payment default", `is_fpd`)
and keeps them in a Markdown document. Its helper scripts read that document and
the case data table and write a *lean* table. The lean table holds every row of
the data but only the columns the rules refer to, plus two required columns
(`acquisition_uw_score` and `is_fpd`). This project models the core of those
scripts:

- **Rule-text scanning** (`RulePatterns`, `RuleScanner`). Rule strings are
  found in two tiers. The first tier is the back-ticked text of numbered lines
  such as ``1. `a <= 5` ``. When there are none, the second tier is every
  back-ticked snippet. Column names are then found by four scans (comparison,
  `in`, `obj['key']`, `obj.attr`), and their results are united. Each regular
  expression is a hand-written matcher that tries one position. `FindAll`
  models `re.findall`: it moves left to right, takes the leftmost match,
  resumes at the end of that match, and never overlaps. Every matcher is tied
  by an if-and-only-if lemma to a declarative *shape* predicate that spells
  the pattern out. Two consequences of the patterns as written are proved:
  - a capture can be the tail of a token that starts with digits;
  - in `col not in [...]` the `in` scan reports the word `not` and never
    reports `col`.
- **Schema reconciliation and projection** (`SanityCheck`, `DryRun`, `Tables`,
  `StringOrder`).
  - *Sanity check:* exit 2 when the data file or the rules file is missing,
    exit 3 when none of the referenced columns exists. Otherwise it writes the
    projection with the kept columns in set-iteration order.
  - *Dry run:* a missing rules file only warns. The column lists are sorted in
    Python's string order. The lists are computed again after feature
    synthesis.
- **Feature synthesis** (`Encoders`, `DryRun`). The rules may refer to
  `phone_carrier_te` while the data lacks it. The dry run then builds it from
  the first raw carrier column present, by out-of-fold smoothed target
  encoding `(sum + alpha*mean)/(count + alpha)`. When that encoding raises,
  for any reason, it falls back to frequency encoding.
- **Notebook metadata normalisation** (`NotebookMetadata`). This is a loop
  that mutates cells in place and keeps a `changed` flag. It moves a
  top-level `id` into `metadata`, replaces missing or non-dictionary metadata,
  and adds `metadata.language`.

Files and directories are modelled by their contents. A file that does not
exist is `None`, a table is a `Tables.Table` value, and a notebook's cells are
an array of JSON objects. The shuffled fold assignment of the fold splitter is
an input `fold`, where `fold[r]` is the fold in which row `r` is held out.
Whether the fold splitter can be imported is an input flag. Numbers are
`real`, and pandas' missing value (NaN) is `Value.Missing`.

Two behaviours of the code differ from what the scripts' purpose suggests. The
model follows the code in both:

- The target encoder's global mean is taken over **all** rows, the held-out
  row included. Only the per-category statistics are out of fold.
  `Encoders.OofIgnoresOwnFold` proves that independence given an equal global
  mean. `Encoders.GlobalMeanCarriesOwnLabel` shows two label vectors that
  differ only in a row's own label and give that row different encodings.
- The target encoder uses no placeholder for a missing category. `groupby`
  drops missing keys, so a row with a missing category gets the global mean.
  Only frequency encoding files missing values under `"__MISSING__"`, so
  there a literal `"__MISSING__"` and a missing value share one category.

## Model

| member | source | states |
|---|---|---|
| RulePatterns.MatchNumbered | scripts/dry_run_build_lean_csv.py:18 | a numbered-rule match at a position captures non-empty one-line text and ends after it |
| RulePatterns.MatchBacktick | sanity_check/extract_rule_columns.py:29 | a fallback match ends past its start and captures non-empty backtick-free text |
| RulePatterns.MatchComparison | sanity_check/extract_rule_columns.py:35 | a comparison match ends past its start and captures an identifier |
| RulePatterns.MatchMembership | sanity_check/extract_rule_columns.py:37 | an `in` match ends past its start and captures an identifier |
| RulePatterns.MatchBracketKey | sanity_check/extract_rule_columns.py:39 | a bracket match ends past its start and captures an identifier |
| RulePatterns.MatchAttribute | sanity_check/extract_rule_columns.py:40 | an attribute match ends past its start and captures an identifier |
| RulePatterns.NumberedMatchSpec | sanity_check/extract_rule_columns.py:25 | the numbered matcher fails iff no line-start `digits. ws `text`` shape exists; on success the shape exists, and the match ends at the first closing backtick (lazy `.+?`) |
| RulePatterns.BacktickMatchSpec | sanity_check/extract_rule_columns.py:29 | the fallback matcher fails iff there is no `` `text` `` with non-empty backtick-free text; on success it returns exactly that text |
| RulePatterns.ComparisonMatchSpec | sanity_check/extract_rule_columns.py:35 | the comparison matcher fails iff no identifier, spaces and comparison operator follow; the capture is the whole greedy identifier, and two-character operators win over `<`/`>` |
| RulePatterns.MembershipMatchSpec | sanity_check/extract_rule_columns.py:37 | the `in` matcher fails iff no identifier, at least one space, `in` and at least one space follow; the capture is the whole identifier |
| RulePatterns.BracketKeyMatchSpec | sanity_check/extract_rule_columns.py:39 | the bracket matcher fails iff no word-boundary `obj[quote key quote]` follows; on success it captures exactly the key |
| RulePatterns.AttributeMatchSpec | sanity_check/extract_rule_columns.py:40 | the attribute matcher fails iff no word-boundary `obj.attr` follows; on success it captures the whole attribute name |
| RulePatterns.MatchAt | sanity_check/extract_rule_columns.py:25-40 | any match consumes at least one character and its capture has the shape the pattern's group allows |
| RulePatterns.FindAll | sanity_check/extract_rule_columns.py:25-40 | every capture `re.findall` returns is well-formed for its pattern |
| RulePatterns.FindAllSkip | sanity_check/extract_rule_columns.py:25 | positions where the pattern does not match are skipped without changing the result |
| RulePatterns.FindAllEmpty | sanity_check/extract_rule_columns.py:26 | findall returns nothing iff the pattern matches at no position |
| RulePatterns.FindAllFirst | sanity_check/extract_rule_columns.py:35 | the first capture comes from the leftmost match, and scanning resumes at that match's end (no overlap) |
| RulePatterns.FindAllSound | sanity_check/extract_rule_columns.py:35-40 | every capture comes from a match at some position of the text |
| RuleScanner.ExtractRuleStrings | sanity_check/extract_rule_columns.py:23-29 | with a numbered line the result is the numbered captures, non-empty and one-line each; otherwise it is every back-ticked snippet, non-empty and backtick-free |
| RuleScanner.RuleColumns | sanity_check/extract_rule_columns.py:32-41 | the union of the four scans; every reported name is an identifier |
| RuleScanner.ExtractColumnsFromRule | scripts/dry_run_build_lean_csv.py:24-30 | the four successive set updates yield exactly the union of the four scans |
| RuleScanner.InCapturesName | sanity_check/extract_rule_columns.py:36-37 | in `name in ...` the `in` scan reports `name` |
| RuleScanner.NotInCapturesNot | sanity_check/extract_rule_columns.py:36-37 | in `name not in ...` the `in` scan reports `not` first and never matches at `name` |
| RuleScanner.ComparisonCapturesDigitSuffix | sanity_check/extract_rule_columns.py:35 | in `123name > ...` the comparison scan reports `name`, the tail after the digits |
| RuleScanner.BracketCapturesKey | sanity_check/extract_rule_columns.py:39 | in `obj['key']` and `obj["key"]` (quotes may differ) the key is reported |
| RuleScanner.AttributeCapturesName | sanity_check/extract_rule_columns.py:40 | in `obj.attr` the attribute is reported |
| RuleScanner.SingleNumberedRule | sanity_check/extract_rule_columns.py:6 | the one-line document ``1. `rule` `` yields exactly `[rule]` |
| RuleScanner.ExampleRuleColumns | sanity_check/extract_rule_columns.py:6 | the rule `acquisition_uw_score <= 5 & phone_carrier_te > 0.3` refers to exactly those two columns |
| RuleScanner.ExampleRuleDocument | scripts/dry_run_build_lean_csv.py:17-21 | a numbered document holding that rule yields exactly that rule |
| RuleScanner.RulesColumns | scripts/dry_run_build_lean_csv.py:67-69 | a name is collected iff some rule refers to it |
| RuleScanner.ReferencedColumns | sanity_check/extract_rule_columns.py:57-63 | the referenced set always holds both required columns, contains only identifiers, and holds a name iff it is required or some rule refers to it |
| RuleScanner.CollectReferenced | sanity_check/extract_rule_columns.py:57-63 | the rule-by-rule loop followed by the required update computes the referenced set |
| StringOrder.StrLtTransitive | scripts/dry_run_build_lean_csv.py:75 | Python's string order is transitive |
| StringOrder.StrLtTotal | scripts/dry_run_build_lean_csv.py:75 | any two distinct names are ordered one way or the other |
| StringOrder.SortedUnique | scripts/dry_run_build_lean_csv.py:101 | a set of names has exactly one strictly increasing listing |
| StringOrder.SortedList | scripts/dry_run_build_lean_csv.py:76 | `sorted` returns the set's elements, each once, strictly increasing |
| Tables.Project | sanity_check/extract_rule_columns.py:78-79 | `df.loc[:, keep]` keeps every row in order, exactly the kept columns in the given order, and their values unchanged |
| Tables.ColumnValues | scripts/dry_run_build_lean_csv.py:92 | `df[name]` has one value per row, the row's value in that column |
| Tables.WithColumn | scripts/dry_run_build_lean_csv.py:93 | assigning a new column appends it last, sets its values row by row, and leaves every other value unchanged |
| Encoders.ValueCounts | scripts/dry_run_build_lean_csv.py:34 | the normalised counts have one entry per category present, each the category's share of the rows, in (0, 1] |
| Encoders.CountKeyIsMultiplicity | scripts/dry_run_build_lean_csv.py:34 | the count of a category equals its multiplicity among the rows' categories |
| Encoders.FrequencyEncode | scripts/dry_run_build_lean_csv.py:33-35 | each row gets its category's multiplicity divided by the row count, a number in (0, 1], never missing |
| Encoders.FrequencySameCategory | scripts/dry_run_build_lean_csv.py:35 | rows in one category, a missing value and the placeholder text included, get equal frequencies |
| Encoders.FrequencyFillNaNoOp | scripts/dry_run_build_lean_csv.py:98 | the fallback's `fillna(0)` never changes the frequency encoding |
| Encoders.FillNa | scripts/dry_run_build_lean_csv.py:53 | `fillna(v)` keeps the length, replaces exactly the missing entries by `v`, and leaves none missing when `v` is present |
| Encoders.GlobalMean | scripts/dry_run_build_lean_csv.py:43 | there is a global mean iff some target is numeric |
| Encoders.GroupStats | scripts/dry_run_build_lean_csv.py:49 | the groups are exactly the categories of the training rows; a missing category is never a group |
| Encoders.Smooth | scripts/dry_run_build_lean_csv.py:50 | a category whose training mean already equals the global mean, an empty one included, is encoded as the global mean |
| Encoders.SmoothMap | scripts/dry_run_build_lean_csv.py:50-51 | the smoothed map has one entry per group, each missing iff there is no global mean |
| Encoders.FoldMap | scripts/dry_run_build_lean_csv.py:47-51 | the map fitted for fold `k` has exactly the categories outside fold `k` as keys, each value missing iff there is no global mean |
| Encoders.Lookup | scripts/dry_run_build_lean_csv.py:52 | mapping then filling gives the fill value for an unknown category, and otherwise either the fill value or the category's present mapped value |
| Encoders.OofValue | scripts/dry_run_build_lean_csv.py:46-53 | the reference value of a row is missing iff there is no global mean |
| Encoders.CrossFittedTargetEncode | scripts/dry_run_build_lean_csv.py:38-53 | raises for an unavailable splitter, a non-numeric target, fewer than two folds or fewer rows than folds, in that order; otherwise each row gets exactly its out-of-fold value |
| Encoders.EncodeFold | scripts/dry_run_build_lean_csv.py:46-52 | one cross-fitting round: the rows of fold `k` receive their out-of-fold values, rows of earlier folds keep theirs, and rows of later folds stay missing |
| Encoders.LookupIsOof | scripts/dry_run_build_lean_csv.py:49-52 | looking a row up in its fold's smoothed map and filling a miss with the global mean gives its out-of-fold value |
| Encoders.OofPresent | scripts/dry_run_build_lean_csv.py:43 | an encoded value is present iff some target is numeric |
| Encoders.MeanBounds | scripts/dry_run_build_lean_csv.py:43 | the global mean lies between the smallest and the largest numeric target |
| Encoders.OofBounds | scripts/dry_run_build_lean_csv.py:49-53 | every encoded value lies in the range of the numeric targets |
| Encoders.TrainTargetsBounds | scripts/dry_run_build_lean_csv.py:47-49 | the training sum of a category lies between `lo` and `hi` times its training count when every numeric target lies in [lo, hi] |
| Encoders.SmoothBounds | scripts/dry_run_build_lean_csv.py:50 | smoothing a category mean in [lo, hi] towards a global mean in [lo, hi] stays in [lo, hi] |
| Encoders.OofIgnoresOwnFold | scripts/dry_run_build_lean_csv.py:46-52 | given the same global mean, a row's encoding does not depend on any target in its own fold, its own label included |
| Encoders.GlobalMeanCarriesOwnLabel | scripts/dry_run_build_lean_csv.py:43 | the global mean includes the held-out row, so changing only a row's own label can change its encoding |
| SanityCheck.ExitCode | sanity_check/extract_rule_columns.py:45-73 | status 2 for a missing input, 3 when no column resolves, 0 after writing |
| SanityCheck.KeepAvailable | sanity_check/extract_rule_columns.py:68 | the kept list holds each referenced column the data has exactly once, in any order |
| SanityCheck.SanityMain | sanity_check/extract_rule_columns.py:44-84 | a missing data file gives exit 2 before the rules are looked at; a missing rules file gives exit 2; no resolved column gives exit 3; otherwise the projection on the kept columns, the sorted missing list, and the no-rules warning flag |
| SanityCheck.ResultOfKeep | sanity_check/extract_rule_columns.py:67-79 | an empty kept list means no referenced column is available (exit 3); otherwise the written outcome is the projection on the kept list with the sorted missing list |
| SanityCheck.NoColumnsMeansNoRequired | sanity_check/extract_rule_columns.py:71-73 | exit 3 implies that the data has neither required column |
| SanityCheck.LeanKeepsRows | sanity_check/extract_rule_columns.py:78-79 | the lean table keeps every row, the kept values are unchanged, and `is_fpd` is kept whenever the data has it |
| DryRun.FirstPresent | scripts/dry_run_build_lean_csv.py:85-86 | returns the first candidate the data has, or nothing iff it has none |
| DryRun.ExitCode | scripts/dry_run_build_lean_csv.py:57-59 | status 2 iff the data file is missing, 0 otherwise |
| DryRun.DryRunRules | scripts/dry_run_build_lean_csv.py:64-65 | no rules without a rules file or with an empty one; otherwise the two-tier rule strings of its text |
| DryRun.SplitColumns | scripts/dry_run_build_lean_csv.py:74-76 | the present and missing lists split the referenced columns by availability, each strictly sorted |
| DryRun.SynthesizeCarrierFeature | scripts/dry_run_build_lean_csv.py:83-98 | with no candidate nothing changes; otherwise exactly the built column is appended. It is target-encoded iff the target column exists, the splitter is available, the target is numeric and there are enough rows; else it is frequency-encoded |
| DryRun.ExtendIfReferenced | scripts/dry_run_build_lean_csv.py:83-98 | synthesis is attempted iff the built column is referenced and absent. When it is attempted: with no candidate column the outcome is "no candidate" and the data is unchanged; otherwise the source is the first candidate present, target-encoded iff that goes through and frequency-encoded otherwise, and exactly the built column is appended. Every row and value of the data is kept |
| DryRun.LeanFromExtended | scripts/dry_run_build_lean_csv.py:106-108 | projecting the extended table keeps every row, keeps the data's values, and carries the built column's values |
| DryRun.FinalSplitHolds | scripts/dry_run_build_lean_csv.py:100-102 | the recomputed lists equal the first ones when nothing was built, so a built column without a candidate stays missing; otherwise they split the referenced columns over the extended data and list the built column as present |
| DryRun.DryRunMain | scripts/dry_run_build_lean_csv.py:56-108 | exit 2 only without data; a missing rules file only warns; the lists are sorted; synthesis is attempted iff the built column is referenced and absent, and then uses the first candidate column present. When a column was built it is in the final present list; when no candidate exists it stays in the final missing list. The written table is the sorted final present columns |
| NotebookMetadata.LanguageFor | scripts/fix_notebook_metadata.py:31-34 | a cell is labelled python iff its type is code; every other kind is labelled markdown |
| NotebookMetadata.FixedCell | scripts/fix_notebook_metadata.py:18-35 | every normalised cell has dictionary metadata with a `language` entry, and an `id` in its metadata whenever the cell had one |
| NotebookMetadata.FixedCellShape | scripts/fix_notebook_metadata.py:18-35 | metadata becomes a dictionary that keeps old entries and gains `language`; a stray top-level id moves into it; when the metadata already has an id both ids keep their values; all other keys are unchanged |
| NotebookMetadata.NeedsFixIffChanged | scripts/fix_notebook_metadata.py:16-35 | the flag conditions hold iff normalising the cell changes it |
| NotebookMetadata.FixedCellIdempotent | scripts/fix_notebook_metadata.py:14-41 | a normalised cell needs no further fix; normalising twice equals normalising once |
| NotebookMetadata.FixOne | scripts/fix_notebook_metadata.py:18-35 | the step-by-step updates of one cell produce its normalised form, and the cell's change flag is set iff it needed fixing |
| NotebookMetadata.Fix | scripts/fix_notebook_metadata.py:14-41 | every cell is replaced by its normalised form in place; `changed` holds iff some cell needed fixing, iff the cells differ |

## Left out

- File-system access, printing, `argv` handling and the usage error of the
  notebook script are left out. CSV and JSON parsing and serialisation are
  left out too. Inputs arrive as values (`None` for a file that does not
  exist), and outputs are the returned outcome. For the dry run that includes
  the printed column lists.
- Python's `\d` and `\b` are Unicode-aware. The model treats only ASCII
  digits as digits and only `[A-Za-z0-9_]` as word characters. `\s` is
  modelled with the full set of Unicode white space.
- The shuffled fold assignment (`random_state=42`) is an input. The model
  assumes each row's fold is below the number of folds. It does not model
  the equal fold sizes `KFold` produces; the encoding does not depend on them.
- Floating-point arithmetic is replaced by exact `real` arithmetic, and NaN by
  `Missing`. Rounding is not modelled.
- pandas' dtype inference and coercions are left out. `astype(str)` in
  frequency encoding would merge a number `1.0` with the text `"1.0"`; here
  they are distinct categories. A numeric-looking text target would convert
  to a float in pandas; here any text target is a conversion failure.
- Encoders.CrossFittedTargetEncode: requires `alpha > 0`. The only call uses
  200.0. A non-positive `alpha` could divide by zero in pandas, giving
  infinities or NaN, and that is not modelled.
- SanityCheck.KeepAvailable: the order Python's set iteration yields is
  unspecified here. The method picks the next column nondeterministically, so
  its contract fixes the kept set, not its order.
- NotebookMetadata.Fix: a cell that is not a JSON object makes the script
  raise, and so does a `cells` entry that is a number, a non-empty string or
  a non-empty dictionary. An empty string or dictionary is iterated zero
  times, like an absent or empty list, and reports no change. The types
  exclude the raising inputs: cells are maps, and every `cells` entry that
  runs zero times is an empty array.
  Dictionary key order and the output formatting (`indent=1`,
  `ensure_ascii=False`) are not modelled.
- NotebookMetadata.Fix: the in-place sharing of the metadata dictionary is
  not modelled. The source mutates that dictionary through both the cell and
  a local alias. The model rebuilds the cell value after each update, which
  gives the same final cell.
- A data table with duplicate column names is excluded (`Tables.WellFormed`).
  pandas renames duplicates when reading a CSV, and that renaming is not
  modelled.
- Exceptions inside target encoding other than the four modelled ones are not
  distinguished. Any of them leads to the same frequency fallback, and a
  missing `is_fpd` column is modelled as one such reason.
