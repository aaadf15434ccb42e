/**
 * Python's ordering of text values (lexicographic by code point) and the
 * `sorted` of a set of column names.
 */
module StringOrder {

  /** a < b in Python's string order. */
  predicate StrLt(a: string, b: string)
  {
    if |a| == 0 then |b| > 0
    else if |b| == 0 then false
    else if a[0] != b[0] then a[0] < b[0]
    else StrLt(a[1..], b[1..])
  }

  lemma {:induction false} StrLtIrreflexive(a: string)
    ensures !StrLt(a, a)
  {
    if |a| > 0 {
      StrLtIrreflexive(a[1..]);
    }
  }

  lemma {:induction false} StrLtTransitive(a: string, b: string, c: string)
    requires StrLt(a, b) && StrLt(b, c)
    ensures StrLt(a, c)
  {
    if |a| > 0 && a[0] == b[0] && b[0] == c[0] {
      StrLtTransitive(a[1..], b[1..], c[1..]);
    }
  }

  lemma {:induction false} StrLtTotal(a: string, b: string)
    requires a != b
    ensures StrLt(a, b) || StrLt(b, a)
  {
    if |a| > 0 && |b| > 0 && a[0] == b[0] {
      assert a == [a[0]] + a[1..] && b == [b[0]] + b[1..];
      StrLtTotal(a[1..], b[1..]);
    }
  }

  /** Strictly increasing: sorted, and no name twice. */
  predicate StrictlySorted(s: seq<string>)
  {
    forall i, j :: 0 <= i < j < |s| ==> StrLt(s[i], s[j])
  }

  /** A strictly increasing list holds no name twice. */
  lemma StrictlySortedDistinct(s: seq<string>)
    requires StrictlySorted(s)
    ensures forall i, j :: 0 <= i < j < |s| ==> s[i] != s[j]
  {
    forall i, j | 0 <= i < j < |s|
      ensures s[i] != s[j]
    {
      StrLtIrreflexive(s[i]);
    }
  }

  lemma StrLtAsymmetric(a: string, b: string)
    ensures !(StrLt(a, b) && StrLt(b, a))
  {
    StrLtIrreflexive(a);
    if StrLt(a, b) && StrLt(b, a) {
      StrLtTransitive(a, b, a);
    }
  }

  /** A set of names has exactly one strictly increasing listing. */
  lemma {:induction false} SortedUnique(a: seq<string>, b: seq<string>)
    requires StrictlySorted(a) && StrictlySorted(b)
    requires forall x :: x in a <==> x in b
    ensures a == b
  {
    if a != [] {
      assert a[0] in b;
    }
    if b != [] {
      assert b[0] in a;
    }
    if a != [] && b != [] {
      var j :| 0 <= j < |a| && a[j] == b[0];
      var k :| 0 <= k < |b| && b[k] == a[0];
      StrLtAsymmetric(a[0], b[0]);
      assert a[0] == b[0];
      StrictlySortedDistinct(a);
      StrictlySortedDistinct(b);
      forall x
        ensures x in a[1..] <==> x in b[1..]
      {
        assert a == [a[0]] + a[1..] && b == [b[0]] + b[1..];
        if x in a[1..] {
          var i :| 0 <= i < |a| - 1 && a[1..][i] == x;
          assert a[i + 1] == x && x != a[0];
          assert x in b && x != b[0];
        }
        if x in b[1..] {
          var i :| 0 <= i < |b| - 1 && b[1..][i] == x;
          assert b[i + 1] == x && x != b[0];
          assert x in a && x != a[0];
        }
      }
      SortedUnique(a[1..], b[1..]);
      assert a == [a[0]] + a[1..] && b == [b[0]] + b[1..];
    }
  }

  /** Every finite non-empty set of names has a least element. */
  lemma {:induction false} LeastExists(xs: set<string>)
    requires xs != {}
    ensures exists m :: m in xs && forall x :: x in xs && x != m ==> StrLt(m, x)
    decreases |xs|
  {
    var y :| y in xs;
    var rest := xs - {y};
    if rest == {} {
      assert xs == rest + {y};
      assert forall x :: x in xs && x != y ==> StrLt(y, x);
    } else {
      LeastExists(rest);
      var m :| m in rest && forall x :: x in rest && x != m ==> StrLt(m, x);
      if StrLt(m, y) {
        forall x | x in xs && x != m ensures StrLt(m, x) {
          if x != y {
            assert x in rest;
          }
        }
      } else {
        StrLtTotal(m, y);
        forall x | x in xs && x != y ensures StrLt(y, x) {
          if x != m {
            assert x in rest;
            StrLtTransitive(y, m, x);
          }
        }
      }
    }
  }

  /** `sorted(xs)` for a set of names: its elements in increasing order. */
  method SortedList(xs: set<string>) returns (r: seq<string>)
    ensures StrictlySorted(r)
    ensures forall x :: x in r <==> x in xs
    ensures |r| == |xs|
  {
    r := [];
    var rest := xs;
    while rest != {}
      invariant StrictlySorted(r)
      invariant rest <= xs
      invariant forall x :: x in xs <==> x in r || x in rest
      invariant forall x :: x in r ==> x !in rest
      invariant forall i, y :: 0 <= i < |r| && y in rest ==> StrLt(r[i], y)
      invariant |r| + |rest| == |xs|
      decreases |rest|
    {
      LeastExists(rest);
      var m :| m in rest && forall x :: x in rest && x != m ==> StrLt(m, x);
      r := r + [m];
      rest := rest - {m};
    }
  }
}
