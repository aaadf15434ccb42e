/**
 * The six fixed regular expressions of the rule scanner, each written as a
 * hand-made matcher that tries one start position, plus `findall`: the
 * leftmost, non-overlapping scan over a whole text.
 *
 * For every pattern there are two definitions: the matcher (`MatchAt`), which
 * follows the regex engine's greedy and lazy choices, and a declarative shape
 * predicate (`...Shape`) that says which decompositions of the text the
 * regex admits. The `...MatchSpec` lemmas connect the two: the matcher fails
 * exactly when no decomposition exists, and otherwise returns the capture and
 * end of the decomposition the engine prefers.
 */
module RulePatterns {
  import opened Wrappers
  import opened CharClasses

  datatype Pattern =
    | NumberedRule  // at a line start: digits, a dot, white space, then a backticked text (lazy, one line)
    | AnyBacktick   // a non-empty backtick-free text between two backticks
    | Comparison    // identifier, optional white space, a comparison operator
    | Membership    // identifier, white space, the keyword in, white space
    | BracketKey    // at a word start: identifier, [, a quote, identifier (captured), a quote, ]
    | Attribute     // at a word start: identifier, a dot, identifier (captured) up to a word end

  /** A successful match: the text of the capture group and where the match ends. */
  datatype Match = Match(capture: string, end: nat)

  /** `^` in multi-line mode. */
  predicate LineStart(s: string, i: nat)
    requires i <= |s|
  {
    i == 0 || s[i - 1] == '\n'
  }

  /** `\b` in front of a word character at i. */
  predicate WordStart(s: string, i: nat)
    requires i <= |s|
  {
    i == 0 || !IsWordChar(s[i - 1])
  }

  /** `\b` after a word character at i - 1. */
  predicate WordEnd(s: string, i: nat)
    requires i <= |s|
  {
    i == |s| || !IsWordChar(s[i])
  }

  predicate IsQuote(c: char) { c == '\'' || c == '"' }

  predicate IsComparisonOp(op: string)
  {
    op == "<=" || op == ">=" || op == "==" || op == "!=" || op == "<" || op == ">"
  }

  /** What every capture of the pattern looks like. */
  predicate CaptureOk(p: Pattern, c: string)
  {
    match p
    case NumberedRule => |c| > 0 && '\n' !in c
    case AnyBacktick => |c| > 0 && '`' !in c
    case _ => IsIdentifier(c)
  }

  // ---------------------------------------------------------------- matchers

  function MatchNumbered(s: string, i: nat): (m: Option<Match>)
    requires i <= |s|
    ensures m.Some? ==> i < m.value.end <= |s| && CaptureOk(NumberedRule, m.value.capture)
  {
    if !LineStart(s, i) then None
    else
      var d := RunEnd(Digit, s, i);
      if d == i || d == |s| || s[d] != '.' then None
      else
        var w := RunEnd(Space, s, d + 1);
        if w == d + 1 || w == |s| || s[w] != '`' then None
        else if w + 1 == |s| || s[w + 1] == '\n' then None
        else
          // the lazy content stops at the first backtick after its first character
          var k := RunEnd(Plain, s, w + 2);
          if k == |s| || s[k] != '`' then None
          else Some(Match(s[w + 1..k], k + 1))
  }

  function MatchBacktick(s: string, i: nat): (m: Option<Match>)
    requires i <= |s|
    ensures m.Some? ==> i < m.value.end <= |s| && CaptureOk(AnyBacktick, m.value.capture)
  {
    if i == |s| || s[i] != '`' then None
    else
      var k := RunEnd(NotBacktick, s, i + 1);
      if k == i + 1 || k == |s| then None
      else Some(Match(s[i + 1..k], k + 1))
  }

  function MatchComparison(s: string, i: nat): (m: Option<Match>)
    requires i <= |s|
    ensures m.Some? ==> i < m.value.end <= |s| && IsIdentifier(m.value.capture)
  {
    if i == |s| || !IsIdentStart(s[i]) then None
    else
      var j := RunEnd(Ident, s, i + 1);
      var k := RunEnd(Space, s, j);
      // the two-character operators come first in the alternation
      if k + 2 <= |s| && IsComparisonOp(s[k..k + 2]) then Some(Match(s[i..j], k + 2))
      else if k + 1 <= |s| && IsComparisonOp(s[k..k + 1]) then Some(Match(s[i..j], k + 1))
      else None
  }

  function MatchMembership(s: string, i: nat): (m: Option<Match>)
    requires i <= |s|
    ensures m.Some? ==> i < m.value.end <= |s| && IsIdentifier(m.value.capture)
  {
    if i == |s| || !IsIdentStart(s[i]) then None
    else
      var j := RunEnd(Ident, s, i + 1);
      var k := RunEnd(Space, s, j);
      if k == j || k + 2 > |s| || s[k..k + 2] != "in" then None
      else
        var e := RunEnd(Space, s, k + 2);
        if e == k + 2 then None else Some(Match(s[i..j], e))
  }

  function MatchBracketKey(s: string, i: nat): (m: Option<Match>)
    requires i <= |s|
    ensures m.Some? ==> i < m.value.end <= |s| && IsIdentifier(m.value.capture)
  {
    if i == |s| || !IsIdentStart(s[i]) || !WordStart(s, i) then None
    else
      var j := RunEnd(Ident, s, i + 1);
      if j + 2 >= |s| || s[j] != '[' || !IsQuote(s[j + 1]) || !IsIdentStart(s[j + 2]) then None
      else
        var k := RunEnd(Ident, s, j + 3);
        if k + 1 >= |s| || !IsQuote(s[k]) || s[k + 1] != ']' then None
        else Some(Match(s[j + 2..k], k + 2))
  }

  function MatchAttribute(s: string, i: nat): (m: Option<Match>)
    requires i <= |s|
    ensures m.Some? ==> i < m.value.end <= |s| && IsIdentifier(m.value.capture)
  {
    if i == |s| || !IsIdentStart(s[i]) || !WordStart(s, i) then None
    else
      var j := RunEnd(Ident, s, i + 1);
      if j + 1 >= |s| || s[j] != '.' || !IsIdentStart(s[j + 1]) then None
      else
        var k := RunEnd(Ident, s, j + 2);
        Some(Match(s[j + 1..k], k))
  }

  /** One match attempt of pattern p at position i. */
  function MatchAt(p: Pattern, s: string, i: nat): (m: Option<Match>)
    requires i <= |s|
    ensures m.Some? ==> i < m.value.end <= |s| && CaptureOk(p, m.value.capture)
  {
    match p
    case NumberedRule => MatchNumbered(s, i)
    case AnyBacktick => MatchBacktick(s, i)
    case Comparison => MatchComparison(s, i)
    case Membership => MatchMembership(s, i)
    case BracketKey => MatchBracketKey(s, i)
    case Attribute => MatchAttribute(s, i)
  }

  // ---------------------------------------------------- declarative shapes

  /** s[i..e] is: digits s[i..d], a dot, white space s[d+1..w], a backtick
      at w, one-line content s[w+1..e-1], a backtick at e-1. */
  ghost predicate NumberedShape(s: string, i: int, d: int, w: int, e: int)
  {
    && 0 <= i < d && d + 1 < w && w + 2 < e <= |s|
    && LineStart(s, i)
    && AllIn(Digit, s, i, d) && s[d] == '.'
    && AllIn(Space, s, d + 1, w) && s[w] == '`'
    && AllIn(NotNewline, s, w + 1, e - 1) && s[e - 1] == '`'
  }

  /** s[i..k+1] is a backtick, backtick-free text s[i+1..k], a backtick. */
  ghost predicate BacktickShape(s: string, i: int, k: int)
  {
    && 0 <= i && i + 1 < k < |s|
    && s[i] == '`' && AllIn(NotBacktick, s, i + 1, k) && s[k] == '`'
  }

  /** s[i..j] is an identifier. */
  ghost predicate IdentAt(s: string, i: int, j: int)
  {
    0 <= i < j <= |s| && IsIdentStart(s[i]) && AllIn(Ident, s, i + 1, j)
  }

  /** s[i..e] is: identifier s[i..j], white space s[j..k], an operator s[k..e]. */
  ghost predicate ComparisonShape(s: string, i: int, j: int, k: int, e: int)
  {
    IdentAt(s, i, j) && j <= k < e <= |s| && AllIn(Space, s, j, k) && IsComparisonOp(s[k..e])
  }

  /** s[i..e] is: identifier s[i..j], white space s[j..k], "in", white space s[k+2..e]. */
  ghost predicate MembershipShape(s: string, i: int, j: int, k: int, e: int)
  {
    && IdentAt(s, i, j) && j < k && k + 2 < e <= |s|
    && AllIn(Space, s, j, k) && s[k..k + 2] == "in" && AllIn(Space, s, k + 2, e)
  }

  /** s[i..e] is: a word-start identifier s[i..j], "[", a quote, key s[j+2..e-2], a quote, "]". */
  ghost predicate BracketKeyShape(s: string, i: int, j: int, e: int)
  {
    && IdentAt(s, i, j) && WordStart(s, i) && j + 4 < e <= |s|
    && s[j] == '[' && IsQuote(s[j + 1]) && IdentAt(s, j + 2, e - 2)
    && IsQuote(s[e - 2]) && s[e - 1] == ']'
  }

  /** s[i..k] is: a word-start identifier s[i..j], ".", identifier s[j+1..k] ending at a word end. */
  ghost predicate AttributeShape(s: string, i: int, j: int, k: int)
  {
    IdentAt(s, i, j) && WordStart(s, i) && j < |s| && s[j] == '.' && IdentAt(s, j + 1, k) && WordEnd(s, k)
  }

  /** An identifier that starts at i always ends where the identifier run ends. */
  lemma IdentAtEnd(s: string, i: int, j: int)
    requires IdentAt(s, i, j)
    requires j == |s| || !IsIdentChar(s[j])
    ensures RunEnd(Ident, s, i + 1) == j
  {
    RunEndUnique(Ident, s, i + 1, j);
  }

  /** Inside an identifier s[i..i+n], the identifier run from any later position ends where it ends. */
  lemma IdentRunInside(s: string, i: nat, n: nat, j: nat)
    requires i <= j < i + n <= |s|
    requires IsIdentifier(s[i..i + n])
    requires i + n == |s| || !IsIdentChar(s[i + n])
    ensures RunEnd(Ident, s, j + 1) == i + n
  {
    forall t | j + 1 <= t < i + n
      ensures IsIdentChar(s[t])
    {
      assert s[t] == s[i..i + n][t - i];
    }
    RunEndUnique(Ident, s, j + 1, i + n);
  }

  /** An identifier s[i..i+n] is an identifier shape at i. */
  lemma IdentifierAt(s: string, i: nat, n: nat)
    requires i + n <= |s| && IsIdentifier(s[i..i + n])
    ensures IdentAt(s, i, i + n)
  {
    assert s[i] == s[i..i + n][0];
    forall t | i + 1 <= t < i + n
      ensures InClass(Ident, s[t])
    {
      assert s[t] == s[i..i + n][t - i];
    }
  }

  // ------------------------------------------- matcher versus shape, per pattern

  /** Any numbered shape at i is found by the matcher, which ends no later than the shape. */
  lemma NumberedShapeMatches(s: string, i: nat, d: int, w: int, e: int)
    requires NumberedShape(s, i, d, w, e)
    ensures MatchNumbered(s, i).Some? && MatchNumbered(s, i).value.end <= e
  {
    RunEndUnique(Digit, s, i, d);
    RunEndUnique(Space, s, d + 1, w);
    var r := RunEnd(Plain, s, w + 2);
    if r < e - 1 {
      assert InClass(NotNewline, s[r]);
    } else {
      assert AllIn(Plain, s, w + 2, e - 1);
      RunEndUnique(Plain, s, w + 2, e - 1);
    }
  }

  lemma {:induction false} NumberedMatchSpec(s: string, i: nat)
    requires i <= |s|
    ensures MatchNumbered(s, i).None? <==> forall d, w, e :: !NumberedShape(s, i, d, w, e)
    ensures MatchNumbered(s, i).Some? ==>
              var m := MatchNumbered(s, i).value;
              exists d, w :: NumberedShape(s, i, d, w, m.end) && m.capture == s[w + 1..m.end - 1]
    ensures MatchNumbered(s, i).Some? ==>
              forall d, w, e :: NumberedShape(s, i, d, w, e) ==> MatchNumbered(s, i).value.end <= e
  {
    forall d, w, e | NumberedShape(s, i, d, w, e)
      ensures MatchNumbered(s, i).Some? && MatchNumbered(s, i).value.end <= e
    {
      NumberedShapeMatches(s, i, d, w, e);
    }
    if MatchNumbered(s, i).Some? {
      var d := RunEnd(Digit, s, i);
      var w := RunEnd(Space, s, d + 1);
      var k := RunEnd(Plain, s, w + 2);
      assert NumberedShape(s, i, d, w, k + 1);
    }
  }

  lemma {:induction false} BacktickMatchSpec(s: string, i: nat)
    requires i <= |s|
    ensures MatchBacktick(s, i).None? <==> forall k :: !BacktickShape(s, i, k)
    ensures MatchBacktick(s, i).Some? ==>
              var m := MatchBacktick(s, i).value;
              BacktickShape(s, i, m.end - 1) && m.capture == s[i + 1..m.end - 1]
  {
    forall k | BacktickShape(s, i, k)
      ensures MatchBacktick(s, i) == Some(Match(s[i + 1..k], k + 1))
    {
      RunEndUnique(NotBacktick, s, i + 1, k);
    }
    if MatchBacktick(s, i).Some? {
      assert BacktickShape(s, i, RunEnd(NotBacktick, s, i + 1));
    }
  }

  /** Any comparison shape at i is found by the matcher, with the same capture and an end no earlier. */
  lemma ComparisonShapeMatches(s: string, i: nat, j: int, k: int, e: int)
    requires ComparisonShape(s, i, j, k, e)
    ensures MatchComparison(s, i).Some?
    ensures s[i..j] == MatchComparison(s, i).value.capture && e <= MatchComparison(s, i).value.end
  {
    assert s[k] in "<>=!";
    assert !IsIdentChar(s[j]) by {
      if j < k { assert IsSpace(s[j]); }
    }
    IdentAtEnd(s, i, j);
    RunEndUnique(Space, s, j, k);
  }

  lemma {:induction false} ComparisonMatchSpec(s: string, i: nat)
    requires i <= |s|
    ensures MatchComparison(s, i).None? <==> forall j, k, e :: !ComparisonShape(s, i, j, k, e)
    ensures MatchComparison(s, i).Some? ==>
              var m := MatchComparison(s, i).value;
              exists j, k :: ComparisonShape(s, i, j, k, m.end) && m.capture == s[i..j]
    ensures MatchComparison(s, i).Some? ==>
              forall j, k, e :: ComparisonShape(s, i, j, k, e) ==>
                s[i..j] == MatchComparison(s, i).value.capture && e <= MatchComparison(s, i).value.end
  {
    forall j, k, e | ComparisonShape(s, i, j, k, e)
      ensures MatchComparison(s, i).Some?
      ensures s[i..j] == MatchComparison(s, i).value.capture && e <= MatchComparison(s, i).value.end
    {
      ComparisonShapeMatches(s, i, j, k, e);
    }
    if MatchComparison(s, i).Some? {
      var j := RunEnd(Ident, s, i + 1);
      var k := RunEnd(Space, s, j);
      assert ComparisonShape(s, i, j, k, MatchComparison(s, i).value.end);
    }
  }

  /** Any membership shape at i is found by the matcher, with the same capture and an end no earlier. */
  lemma MembershipShapeMatches(s: string, i: nat, j: int, k: int, e: int)
    requires MembershipShape(s, i, j, k, e)
    ensures MatchMembership(s, i).Some?
    ensures s[i..j] == MatchMembership(s, i).value.capture && e <= MatchMembership(s, i).value.end
  {
    assert IsSpace(s[j]);
    IdentAtEnd(s, i, j);
    assert s[k] == 'i';
    RunEndUnique(Space, s, j, k);
  }

  lemma {:induction false} MembershipMatchSpec(s: string, i: nat)
    requires i <= |s|
    ensures MatchMembership(s, i).None? <==> forall j, k, e :: !MembershipShape(s, i, j, k, e)
    ensures MatchMembership(s, i).Some? ==>
              var m := MatchMembership(s, i).value;
              exists j, k :: MembershipShape(s, i, j, k, m.end) && m.capture == s[i..j]
    ensures MatchMembership(s, i).Some? ==>
              forall j, k, e :: MembershipShape(s, i, j, k, e) ==>
                s[i..j] == MatchMembership(s, i).value.capture && e <= MatchMembership(s, i).value.end
  {
    forall j, k, e | MembershipShape(s, i, j, k, e)
      ensures MatchMembership(s, i).Some?
      ensures s[i..j] == MatchMembership(s, i).value.capture && e <= MatchMembership(s, i).value.end
    {
      MembershipShapeMatches(s, i, j, k, e);
    }
    if MatchMembership(s, i).Some? {
      var j := RunEnd(Ident, s, i + 1);
      var k := RunEnd(Space, s, j);
      assert MembershipShape(s, i, j, k, MatchMembership(s, i).value.end);
    }
  }

  /** Any bracket shape at i is exactly what the matcher finds. */
  lemma BracketKeyShapeMatches(s: string, i: nat, j: int, e: int)
    requires BracketKeyShape(s, i, j, e)
    ensures MatchBracketKey(s, i) == Some(Match(s[j + 2..e - 2], e))
  {
    IdentAtEnd(s, i, j);
    IdentAtEnd(s, j + 2, e - 2);
  }

  lemma {:induction false} BracketKeyMatchSpec(s: string, i: nat)
    requires i <= |s|
    ensures MatchBracketKey(s, i).None? <==> forall j, e :: !BracketKeyShape(s, i, j, e)
    ensures MatchBracketKey(s, i).Some? ==>
              var m := MatchBracketKey(s, i).value;
              exists j :: BracketKeyShape(s, i, j, m.end) && m.capture == s[j + 2..m.end - 2]
    ensures forall j, e :: BracketKeyShape(s, i, j, e) ==>
              MatchBracketKey(s, i) == Some(Match(s[j + 2..e - 2], e))
  {
    forall j, e | BracketKeyShape(s, i, j, e)
      ensures MatchBracketKey(s, i) == Some(Match(s[j + 2..e - 2], e))
    {
      BracketKeyShapeMatches(s, i, j, e);
    }
    if MatchBracketKey(s, i).Some? {
      var j := RunEnd(Ident, s, i + 1);
      BracketKeyMatchShape(s, i);
      assert BracketKeyShape(s, i, j, MatchBracketKey(s, i).value.end);
    }
  }

  /** What the bracket matcher finds is a bracket shape. */
  lemma BracketKeyMatchShape(s: string, i: nat)
    requires i <= |s| && MatchBracketKey(s, i).Some?
    ensures var j := RunEnd(Ident, s, i + 1); var m := MatchBracketKey(s, i).value;
            BracketKeyShape(s, i, j, m.end) && m.capture == s[j + 2..m.end - 2]
  {
  }

  /** Any attribute shape at i is exactly what the matcher finds. */
  lemma AttributeShapeMatches(s: string, i: nat, j: int, k: int)
    requires AttributeShape(s, i, j, k)
    ensures MatchAttribute(s, i) == Some(Match(s[j + 1..k], k))
  {
    IdentAtEnd(s, i, j);
    IdentAtEnd(s, j + 1, k);
  }

  lemma {:induction false} AttributeMatchSpec(s: string, i: nat)
    requires i <= |s|
    ensures MatchAttribute(s, i).None? <==> forall j, k :: !AttributeShape(s, i, j, k)
    ensures MatchAttribute(s, i).Some? ==>
              var m := MatchAttribute(s, i).value;
              exists j :: AttributeShape(s, i, j, m.end) && m.capture == s[j + 1..m.end]
    ensures forall j, k :: AttributeShape(s, i, j, k) ==>
              MatchAttribute(s, i) == Some(Match(s[j + 1..k], k))
  {
    forall j, k | AttributeShape(s, i, j, k)
      ensures MatchAttribute(s, i) == Some(Match(s[j + 1..k], k))
    {
      AttributeShapeMatches(s, i, j, k);
    }
    if MatchAttribute(s, i).Some? {
      var j := RunEnd(Ident, s, i + 1);
      var k := RunEnd(Ident, s, j + 2);
      assert AttributeShape(s, i, j, k);
    }
  }

  // ------------------------------------------------------------------ findall

  /** All captures of p in s[i..], leftmost first, resuming after each match. */
  function FindAll(p: Pattern, s: string, i: nat): (caps: seq<string>)
    requires i <= |s|
    ensures forall c :: c in caps ==> CaptureOk(p, c)
    decreases |s| - i
  {
    if i == |s| then []
    else
      match MatchAt(p, s, i)
      case Some(m) => [m.capture] + FindAll(p, s, m.end)
      case None => FindAll(p, s, i + 1)
  }

  /** Positions where no match starts are skipped. */
  lemma FindAllSkip(p: Pattern, s: string, i: nat, k: nat)
    requires i <= k <= |s|
    requires forall j :: i <= j < k ==> MatchAt(p, s, j).None?
    ensures FindAll(p, s, i) == FindAll(p, s, k)
  {
    var j := k;
    while j > i
      invariant i <= j <= k
      invariant FindAll(p, s, j) == FindAll(p, s, k)
    {
      j := j - 1;
      FindAllNoMatch(p, s, j);
    }
  }

  /** One position without a match is skipped. */
  lemma FindAllNoMatch(p: Pattern, s: string, i: nat)
    requires i < |s| && MatchAt(p, s, i).None?
    ensures FindAll(p, s, i) == FindAll(p, s, i + 1)
  {
  }

  /** The scan finds nothing exactly when the pattern matches at no position. */
  lemma {:induction false} FindAllEmpty(p: Pattern, s: string, i: nat)
    requires i <= |s|
    ensures FindAll(p, s, i) == [] <==> forall j :: i <= j < |s| ==> MatchAt(p, s, j).None?
    decreases |s| - i
  {
    if i < |s| {
      FindAllEmpty(p, s, i + 1);
      match MatchAt(p, s, i)
      case Some(m) =>
        assert FindAll(p, s, i)[0] == m.capture;
      case None =>
        FindAllNoMatch(p, s, i);
    }
  }

  /** The first capture comes from the leftmost position where the pattern matches. */
  lemma FindAllFirst(p: Pattern, s: string, i: nat, k: nat)
    requires i <= k < |s|
    requires forall j :: i <= j < k ==> MatchAt(p, s, j).None?
    requires MatchAt(p, s, k).Some?
    ensures FindAll(p, s, i) == [MatchAt(p, s, k).value.capture] + FindAll(p, s, MatchAt(p, s, k).value.end)
  {
    FindAllSkip(p, s, i, k);
  }

  /** Every capture is the capture of a match at some position of s[i..]. */
  lemma {:induction false} FindAllSound(p: Pattern, s: string, i: nat, c: string)
    requires i <= |s|
    requires c in FindAll(p, s, i)
    ensures exists j :: i <= j < |s| && MatchAt(p, s, j).Some? && MatchAt(p, s, j).value.capture == c
    decreases |s| - i
  {
    match MatchAt(p, s, i)
    case Some(m) =>
      if c != m.capture {
        FindAllSound(p, s, m.end, c);
      }
    case None =>
      FindAllSound(p, s, i + 1, c);
  }
}
