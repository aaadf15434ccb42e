/**
 * Discovering the column names that a rules document refers to: the
 * two-tier rule-string extraction, the four identifier scans of one rule,
 * and the union over all rules plus the two required columns.
 *
 * The extraction code is the same in scripts/dry_run_build_lean_csv.py and
 * sanity_check/extract_rule_columns.py, so both pipelines use this module.
 */
module RuleScanner {
  import opened Wrappers
  import opened CharClasses
  import opened RulePatterns

  /** The columns every lean table keeps, whether or not a rule names them. */
  const RequiredColumns: set<string> := {"acquisition_uw_score", "is_fpd"}

  /** Some line of the document is a numbered rule line. */
  ghost predicate HasNumberedRule(text: string)
  {
    exists j :: 0 <= j < |text| && MatchAt(NumberedRule, text, j).Some?
  }

  /**
   * The rule strings of a document: the backticked text of every numbered
   * line when there is at least one; otherwise every backticked text.
   */
  function ExtractRuleStrings(text: string): (rules: seq<string>)
    ensures HasNumberedRule(text) ==>
              && rules == FindAll(NumberedRule, text, 0)
              && rules != []
              && forall r :: r in rules ==> |r| > 0 && '\n' !in r
    ensures !HasNumberedRule(text) ==>
              && rules == FindAll(AnyBacktick, text, 0)
              && forall r :: r in rules ==> |r| > 0 && '`' !in r
  {
    FindAllEmpty(NumberedRule, text, 0);
    var numbered := FindAll(NumberedRule, text, 0);
    if numbered != [] then numbered else FindAll(AnyBacktick, text, 0)
  }

  /** The set of all captures of a pattern in s. */
  function Captures(p: Pattern, s: string): set<string>
  {
    set c | c in FindAll(p, s, 0)
  }

  /** The column names one rule refers to: the union of the four scans. */
  function RuleColumns(rule: string): (cols: set<string>)
    ensures forall c :: c in cols ==> IsIdentifier(c)
  {
    Captures(Comparison, rule) + Captures(Membership, rule)
      + Captures(BracketKey, rule) + Captures(Attribute, rule)
  }

  /** The local set of the source, updated by each of the four scans in turn. */
  method ExtractColumnsFromRule(rule: string) returns (cols: set<string>)
    ensures cols == RuleColumns(rule)
    ensures forall c :: c in cols ==> IsIdentifier(c)
  {
    cols := {};
    var found := FindAll(Comparison, rule, 0);
    cols := cols + set c | c in found;
    found := FindAll(Membership, rule, 0);
    cols := cols + set c | c in found;
    found := FindAll(BracketKey, rule, 0);
    cols := cols + set c | c in found;
    found := FindAll(Attribute, rule, 0);
    cols := cols + set c | c in found;
  }

  /** `name in ...`: the membership scan reports the name. */
  lemma InCapturesName(name: string, rest: string)
    requires IsIdentifier(name)
    ensures var s := name + " in " + rest;
            |FindAll(Membership, s, 0)| > 0 && FindAll(Membership, s, 0)[0] == name
            && name in RuleColumns(s)
  {
    var s := name + " in " + rest;
    var n := |name|;
    assert s[0..n] == name && s[n] == ' ' && s[n + 1] == 'i' && s[n + 2] == 'n' && s[n + 3] == ' ';
    assert s[n + 1..n + 3] == "in";
    IdentifierAt(s, 0, n);
    assert MembershipShape(s, 0, n, n + 1, n + 4);
    MembershipShapeMatches(s, 0, n, n + 1, n + 4);
    FindAllFirst(Membership, s, 0, 0);
  }

  /**
   * `name not in ...`: the membership scan reports the word `not`, and it
   * does not report the name in front of it.
   */
  lemma NotInCapturesNot(name: string, rest: string)
    requires IsIdentifier(name)
    ensures var s := name + " not in " + rest;
            |FindAll(Membership, s, 0)| > 0 && FindAll(Membership, s, 0)[0] == "not"
            && forall j :: 0 <= j <= |name| ==> MatchAt(Membership, s, j).None?
  {
    var s := name + " not in " + rest;
    var n := |name|;
    assert s[..n] == name;
    assert s[n..n + 8] == " not in ";
    NotInLayout(s, n);
  }

  /** The text of NotInCapturesNot, described position by position. */
  lemma NotInLayout(s: string, n: nat)
    requires n + 8 <= |s| && IsIdentifier(s[..n]) && s[n..n + 8] == " not in "
    ensures |FindAll(Membership, s, 0)| > 0 && FindAll(Membership, s, 0)[0] == "not"
    ensures forall j :: 0 <= j <= n ==> MatchAt(Membership, s, j).None?
  {
    var gap := s[n..n + 8];
    assert s[n] == gap[0] == ' ' && s[n + 1] == gap[1] == 'n' && s[n + 2] == gap[2] == 'o';
    assert s[n + 3] == gap[3] == 't' && s[n + 4] == gap[4] == ' ' && s[n + 5] == gap[5] == 'i';
    assert s[n + 6] == gap[6] == 'n' && s[n + 7] == gap[7] == ' ';
    NoMembershipBeforeNot(s, n);
    MembershipAtNot(s, n + 1);
    FindAllFirst(Membership, s, 0, n + 1);
  }

  lemma NoMembershipBeforeNot(s: string, n: nat)
    requires n + 3 <= |s| && IsIdentifier(s[..n])
    requires s[n] == ' ' && s[n + 1] == 'n' && s[n + 2] == 'o'
    ensures forall j :: 0 <= j <= n ==> MatchAt(Membership, s, j).None?
  {
    assert s[..n] == s[0..n];
    forall j | 0 <= j <= n
      ensures MatchAt(Membership, s, j).None?
    {
      if j < n {
        IdentRunInside(s, 0, n, j);
        RunEndUnique(Space, s, n, n + 1);
        assert s[n + 1..n + 3] != "in" by { assert s[n + 1..n + 3][1] == 'o'; }
      }
    }
  }

  lemma MembershipAtNot(s: string, i: nat)
    requires i + 7 <= |s|
    requires s[i] == 'n' && s[i + 1] == 'o' && s[i + 2] == 't' && s[i + 3] == ' '
    requires s[i + 4] == 'i' && s[i + 5] == 'n' && s[i + 6] == ' '
    ensures MatchAt(Membership, s, i).Some? && MatchAt(Membership, s, i).value.capture == "not"
  {
    assert s[i..i + 3] == "not";
    IdentRunInside(s, i, 3, i);
    RunEndUnique(Space, s, i + 3, i + 4);
    assert s[i + 4..i + 6] == "in";
  }

  /**
   * An identifier glued to a leading digit run, as in `9abc > 1`: the
   * comparison scan reports the part after the digits.
   */
  lemma ComparisonCapturesDigitSuffix(digits: string, name: string, rest: string)
    requires |digits| > 0 && forall k :: 0 <= k < |digits| ==> IsAsciiDigit(digits[k])
    requires IsIdentifier(name)
    ensures var s := digits + name + " > " + rest;
            |FindAll(Comparison, s, 0)| > 0 && FindAll(Comparison, s, 0)[0] == name
            && name in RuleColumns(s)
  {
    var s := digits + name + " > " + rest;
    var d, n := |digits|, |name|;
    assert s[d..d + n] == name && s[d + n] == ' ' && s[d + n + 1] == '>';
    forall j | 0 <= j < d
      ensures MatchAt(Comparison, s, j).None?
    {
      assert s[j] == digits[j];
    }
    IdentifierAt(s, d, n);
    assert s[d + n + 1..d + n + 2] == ">";
    assert ComparisonShape(s, d, d + n, d + n + 1, d + n + 2);
    ComparisonShapeMatches(s, d, d + n, d + n + 1, d + n + 2);
    FindAllFirst(Comparison, s, 0, d);
  }

  /** `obj['key']` and `obj["key"]`: the bracket scan reports the key. */
  lemma BracketCapturesKey(obj: string, q1: char, key: string, q2: char, rest: string)
    requires IsIdentifier(obj) && IsIdentifier(key) && IsQuote(q1) && IsQuote(q2)
    ensures var s := obj + "[" + [q1] + key + [q2] + "]" + rest;
            |FindAll(BracketKey, s, 0)| > 0 && FindAll(BracketKey, s, 0)[0] == key
            && key in RuleColumns(s)
  {
    var s := obj + "[" + [q1] + key + [q2] + "]" + rest;
    var o, n := |obj|, |key|;
    assert s[0..o] == obj && s[o] == '[' && s[o + 1] == q1;
    assert s[o + 2..o + 2 + n] == key && s[o + 2 + n] == q2 && s[o + 3 + n] == ']';
    IdentifierAt(s, 0, o);
    IdentifierAt(s, o + 2, n);
    assert BracketKeyShape(s, 0, o, o + n + 4);
    BracketKeyShapeMatches(s, 0, o, o + n + 4);
    FindAllFirst(BracketKey, s, 0, 0);
  }

  /** `obj.attr`: the attribute scan reports the attribute. */
  lemma AttributeCapturesName(obj: string, attr: string, rest: string)
    requires IsIdentifier(obj) && IsIdentifier(attr)
    requires rest == [] || !IsIdentChar(rest[0])
    ensures var s := obj + "." + attr + rest;
            |FindAll(Attribute, s, 0)| > 0 && FindAll(Attribute, s, 0)[0] == attr
            && attr in RuleColumns(s)
  {
    var s := obj + "." + attr + rest;
    var o, n := |obj|, |attr|;
    assert s[0..o] == obj && s[o] == '.' && s[o + 1..o + 1 + n] == attr;
    assert o + 1 + n < |s| ==> s[o + 1 + n] == rest[0];
    IdentifierAt(s, 0, o);
    IdentifierAt(s, o + 1, n);
    assert AttributeShape(s, 0, o, o + 1 + n);
    AttributeShapeMatches(s, 0, o, o + 1 + n);
    FindAllFirst(Attribute, s, 0, 0);
  }

  /** A one-line document `1. `rule`` yields exactly that rule string. */
  lemma SingleNumberedRule(rule: string)
    requires |rule| > 0 && '`' !in rule && '\n' !in rule
    ensures ExtractRuleStrings("1. `" + rule + "`") == [rule]
  {
    var doc := "1. `" + rule + "`";
    var n := |rule|;
    assert doc[0] == '1' && doc[1] == '.' && doc[2] == ' ' && doc[3] == '`' && doc[4 + n] == '`';
    assert doc[4..4 + n] == rule;
    RunEndUnique(Digit, doc, 0, 1);
    RunEndUnique(Space, doc, 2, 3);
    forall t | 5 <= t < 4 + n
      ensures InClass(Plain, doc[t])
    {
      assert doc[t] == rule[t - 4];
    }
    assert rule[0] == doc[4];
    RunEndUnique(Plain, doc, 5, 4 + n);
    assert MatchAt(NumberedRule, doc, 0) == Some(Match(rule, 5 + n));
    assert FindAll(NumberedRule, doc, 0) == [rule];
  }

  // ------------------------------------------------------ the worked example

  /** The example rule, cut into its two column names and the text around them. */
  predicate ExampleLayout(s: string)
  {
    && |s| == 50
    && IsIdentifier(s[..20]) && s[..20] == "acquisition_uw_score"
    && IsIdentifier(s[28..44]) && s[28..44] == "phone_carrier_te"
    && s[20] == ' ' && s[21] == '<' && s[22] == '=' && s[23] == ' ' && s[24] == '5'
    && s[25] == ' ' && s[26] == '&' && s[27] == ' '
    && s[44] == ' ' && s[45] == '>' && s[46] == ' ' && s[47] == '0' && s[48] == '.' && s[49] == '3'
  }

  const ExampleRule := "acquisition_uw_score" + " <= 5 & " + "phone_carrier_te" + " > 0.3"
  const ExampleDocument := "1. `" + ExampleRule + "`"

  lemma ExampleHasLayout()
    ensures ExampleLayout(ExampleRule)
  {
    var a, b := "acquisition_uw_score", "phone_carrier_te";
    var s := ExampleRule;
    assert IsIdentifier(a) && IsIdentifier(b);
    assert s[..20] == a && s[28..44] == b;
    assert s[20..28] == " <= 5 & " && s[44..] == " > 0.3";
  }

  lemma ExampleComparisons(s: string)
    requires ExampleLayout(s)
    ensures FindAll(Comparison, s, 0) == ["acquisition_uw_score", "phone_carrier_te"]
  {
    ExampleFirstComparison(s);
    ExampleSecondComparison(s);
    ExampleComparisonGaps(s);
    FindAllFirst(Comparison, s, 0, 0);
    FindAllFirst(Comparison, s, 23, 28);
    FindAllSkip(Comparison, s, 46, 50);
  }

  lemma ExampleFirstComparison(s: string)
    requires ExampleLayout(s)
    ensures MatchAt(Comparison, s, 0) == Some(Match("acquisition_uw_score", 23))
  {
    assert s[0..20] == s[..20];
    IdentifierAt(s, 0, 20);
    IdentAtEnd(s, 0, 20);
    RunEndUnique(Space, s, 20, 21);
    assert s[21..23] == "<=";
  }

  lemma ExampleSecondComparison(s: string)
    requires ExampleLayout(s)
    ensures MatchAt(Comparison, s, 28) == Some(Match("phone_carrier_te", 46))
  {
    IdentifierAt(s, 28, 16);
    IdentAtEnd(s, 28, 44);
    RunEndUnique(Space, s, 44, 45);
    assert s[45..47] == "> " && s[45..46] == ">";
  }

  lemma ExampleComparisonGaps(s: string)
    requires ExampleLayout(s)
    ensures forall j :: 23 <= j < 28 ==> MatchAt(Comparison, s, j).None?
    ensures forall j :: 46 <= j < 50 ==> MatchAt(Comparison, s, j).None?
  {
  }

  lemma ExampleOtherScans(s: string, j: nat)
    requires ExampleLayout(s) && j < |s|
    ensures MatchAt(Membership, s, j).None?
    ensures MatchAt(BracketKey, s, j).None?
    ensures MatchAt(Attribute, s, j).None?
    ensures InClass(Plain, s[j])
  {
    if j < 20 {
      ExampleInFirstName(s, j);
    } else if 28 <= j < 44 {
      ExampleInSecondName(s, j);
    }
  }

  lemma ExampleInFirstName(s: string, j: nat)
    requires ExampleLayout(s) && j < 20
    ensures MatchAt(Membership, s, j).None?
    ensures MatchAt(BracketKey, s, j).None?
    ensures MatchAt(Attribute, s, j).None?
    ensures InClass(Plain, s[j])
  {
    IdentRunInside(s, 0, 20, j);
    RunEndUnique(Space, s, 20, 21);
    assert s[21..23] == "<=";
    assert IsIdentChar(s[j]) by { assert s[j] == s[..20][j]; }
  }

  lemma ExampleInSecondName(s: string, j: nat)
    requires ExampleLayout(s) && 28 <= j < 44
    ensures MatchAt(Membership, s, j).None?
    ensures MatchAt(BracketKey, s, j).None?
    ensures MatchAt(Attribute, s, j).None?
    ensures InClass(Plain, s[j])
  {
    IdentRunInside(s, 28, 16, j);
    RunEndUnique(Space, s, 44, 45);
    assert s[45..47] == "> ";
    assert IsIdentChar(s[j]) by { assert s[j] == s[28..44][j - 28]; }
  }

  lemma ExampleColumnsOf(s: string)
    requires ExampleLayout(s)
    ensures RuleColumns(s) == {"acquisition_uw_score", "phone_carrier_te"}
    ensures '`' !in s && '\n' !in s
  {
    ExampleComparisons(s);
    ExampleNoOtherMatches(s);
    FindAllEmpty(Membership, s, 0);
    FindAllEmpty(BracketKey, s, 0);
    FindAllEmpty(Attribute, s, 0);
  }

  lemma ExampleNoOtherMatches(s: string)
    requires ExampleLayout(s)
    ensures forall j :: 0 <= j < |s| ==> MatchAt(Membership, s, j).None? && MatchAt(BracketKey, s, j).None?
    ensures forall j :: 0 <= j < |s| ==> MatchAt(Attribute, s, j).None?
    ensures '`' !in s && '\n' !in s
  {
    forall j | 0 <= j < |s|
      ensures MatchAt(Membership, s, j).None? && MatchAt(BracketKey, s, j).None?
      ensures MatchAt(Attribute, s, j).None? && InClass(Plain, s[j])
    {
      ExampleOtherScans(s, j);
    }
  }

  /** The rule `acquisition_uw_score <= 5 & phone_carrier_te > 0.3` refers to exactly its two column names. */
  lemma ExampleRuleColumns()
    ensures RuleColumns(ExampleRule) == {"acquisition_uw_score", "phone_carrier_te"}
  {
    ExampleHasLayout();
    ExampleColumnsOf(ExampleRule);
  }

  /** A document whose only line is that rule, numbered, yields exactly that rule string. */
  lemma ExampleRuleDocument()
    ensures ExtractRuleStrings(ExampleDocument) == [ExampleRule]
  {
    ExampleHasLayout();
    ExampleColumnsOf(ExampleRule);
    SingleNumberedRule(ExampleRule);
  }

  // ------------------------------------------------- the referenced columns

  /** The union of the columns of every rule. */
  function RulesColumns(rules: seq<string>): (cols: set<string>)
    ensures forall c :: c in cols <==> exists k :: 0 <= k < |rules| && c in RuleColumns(rules[k])
  {
    if rules == [] then {}
    else
      var init := rules[..|rules| - 1];
      var prior := RulesColumns(init);
      RulesColumnsStep(rules, init, prior);
      prior + RuleColumns(rules[|rules| - 1])
  }

  /** Adding the last rule's columns to those of the others gives those of all rules. */
  lemma RulesColumnsStep(rules: seq<string>, init: seq<string>, prior: set<string>)
    requires rules != [] && init == rules[..|rules| - 1]
    requires forall c :: c in prior <==> exists k :: 0 <= k < |init| && c in RuleColumns(init[k])
    ensures forall c :: c in prior || c in RuleColumns(rules[|rules| - 1]) <==>
              exists k :: 0 <= k < |rules| && c in RuleColumns(rules[k])
  {
    forall c
      ensures c in prior || c in RuleColumns(rules[|rules| - 1]) <==>
              exists k :: 0 <= k < |rules| && c in RuleColumns(rules[k])
    {
      SomeOrLast(rules, init, r => c in RuleColumns(r));
    }
  }

  /** Some element satisfies P exactly when some element before the last does, or the last does. */
  lemma SomeOrLast<T>(xs: seq<T>, init: seq<T>, P: T -> bool)
    requires xs != [] && init == xs[..|xs| - 1]
    ensures (exists k :: 0 <= k < |xs| && P(xs[k])) <==> (exists k :: 0 <= k < |init| && P(init[k])) || P(xs[|xs| - 1])
  {
    assert forall k :: 0 <= k < |init| ==> init[k] == xs[k];
  }

  /** Every referenced column: the columns of all rules and the required ones. */
  function ReferencedColumns(rules: seq<string>): (cols: set<string>)
    ensures RequiredColumns <= cols
    ensures forall c :: c in cols ==> IsIdentifier(c)
    ensures forall c :: c in cols <==> c in RequiredColumns || exists k :: 0 <= k < |rules| && c in RuleColumns(rules[k])
  {
    assert IsIdentifier("acquisition_uw_score") && IsIdentifier("is_fpd");
    RulesColumns(rules) + RequiredColumns
  }

  /** The loop of both scripts that grows the column set rule by rule, then adds the required columns. */
  method CollectReferenced(rules: seq<string>) returns (cols: set<string>)
    ensures cols == ReferencedColumns(rules)
  {
    cols := {};
    for k := 0 to |rules|
      invariant cols == RulesColumns(rules[..k])
    {
      assert rules[..k + 1][..k] == rules[..k];
      var found := ExtractColumnsFromRule(rules[k]);
      cols := cols + found;
    }
    assert rules[..|rules|] == rules;
    cols := cols + RequiredColumns;
  }
}
