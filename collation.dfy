/**
 * SQLite's default BINARY collation on TEXT values and the `ORDER BY ... DESC`
 * that the date queries use. Text is compared code point by code point; for
 * UTF-8 storage this is the same order as comparing the bytes, and a proper
 * prefix sorts first.
 */
module Collation {

  /** `a` sorts strictly before `b` under the BINARY collation. */
  predicate Below(a: string, b: string)
  {
    if |a| == 0 then |b| > 0
    else if |b| == 0 then false
    else if a[0] != b[0] then a[0] < b[0]
    else Below(a[1..], b[1..])
  }

  lemma {:induction false} BelowIrreflexive(a: string)
    ensures !Below(a, a)
  {
    if |a| > 0 {
      BelowIrreflexive(a[1..]);
    }
  }

  lemma {:induction false} BelowTransitive(a: string, b: string, c: string)
    requires Below(a, b) && Below(b, c)
    ensures Below(a, c)
  {
    if |a| > 0 && |b| > 0 && |c| > 0 && a[0] == b[0] && b[0] == c[0] {
      BelowTransitive(a[1..], b[1..], c[1..]);
    }
  }

  /** Two different strings are always ordered one way or the other, never both. */
  lemma {:induction false} BelowTotal(a: string, b: string)
    requires a != b
    ensures Below(a, b) != Below(b, a)
  {
    if |a| > 0 && |b| > 0 && a[0] == b[0] {
      assert a == [a[0]] + a[1..] && b == [b[0]] + b[1..];
      BelowTotal(a[1..], b[1..]);
    }
  }

  /** Every later element sorts strictly before every earlier one: `ORDER BY x DESC` on distinct values. */
  ghost predicate StrictlyDescending(s: seq<string>)
  {
    forall i, j :: 0 <= i < j < |s| ==> Below(s[j], s[i])
  }

  ghost predicate Distinct(s: seq<string>)
  {
    forall i, j :: 0 <= i < j < |s| ==> s[i] != s[j]
  }

  lemma StrictlyDescendingIsDistinct(s: seq<string>)
    requires StrictlyDescending(s)
    ensures Distinct(s)
  {
    forall i, j | 0 <= i < j < |s| ensures s[i] != s[j] {
      BelowIrreflexive(s[i]);
    }
  }

  /** A sequence without repeats is no longer than any sequence holding all its elements. */
  lemma {:induction false} DistinctNoLonger(a: seq<string>, b: seq<string>)
    requires Distinct(a)
    requires forall y :: y in a ==> y in b
    ensures |a| <= |b|
  {
    if a != [] {
      var x := a[0];
      assert x in b;
      var j :| 0 <= j < |b| && b[j] == x;
      var b' := b[..j] + b[j + 1..];
      assert b == b[..j] + [x] + b[j + 1..];
      forall y | y in a[1..] ensures y in b' {
        var k :| 1 <= k < |a| && a[k] == y;
        assert y != x && y in b;
        var m :| 0 <= m < |b| && b[m] == y;
        assert m != j;
        if m < j { assert b'[m] == y; } else { assert b'[m - 1] == y; }
      }
      assert Distinct(a[1..]) by {
        forall i, k | 0 <= i < k < |a[1..]| ensures a[1..][i] != a[1..][k] {
          assert a[1..][i] == a[i + 1] && a[1..][k] == a[k + 1];
        }
      }
      DistinctNoLonger(a[1..], b');
    }
  }

  /** Places `x` into a strictly descending sequence that does not yet hold it. */
  function Insert(x: string, s: seq<string>): (r: seq<string>)
    requires StrictlyDescending(s) && x !in s
    ensures StrictlyDescending(r)
    ensures |r| == |s| + 1
    ensures forall y :: y in r <==> y == x || y in s
  {
    if s == [] then [x]
    else if Below(s[0], x) then
      assert forall j :: 0 < j < |s| ==> Below(s[j], x) by {
        forall j | 0 < j < |s| ensures Below(s[j], x) {
          BelowTransitive(s[j], s[0], x);
        }
      }
      [x] + s
    else
      BelowTotal(x, s[0]);
      var rest := Insert(x, s[1..]);
      assert forall y :: y in rest ==> Below(y, s[0]) by {
        forall y | y in rest ensures Below(y, s[0]) {
          if y != x {
            var j :| 0 <= j < |s[1..]| && s[1..][j] == y;
            assert s[j + 1] == y;
          }
        }
      }
      [s[0]] + rest
  }

  /** Sorts distinct strings into descending BINARY order (insertion sort). */
  function SortDescending(s: seq<string>): (r: seq<string>)
    requires Distinct(s)
    ensures StrictlyDescending(r)
    ensures |r| == |s|
    ensures forall y :: y in r <==> y in s
  {
    if s == [] then []
    else
      var rest := SortDescending(s[1..]);
      assert s[0] !in s[1..];
      Insert(s[0], rest)
  }

  /**
   * A strictly descending sequence is determined by its elements: whatever
   * the order of the input, sorting yields the one descending arrangement.
   */
  lemma {:induction false} DescendingUnique(a: seq<string>, b: seq<string>)
    requires StrictlyDescending(a) && StrictlyDescending(b)
    requires forall y :: y in a <==> y in b
    ensures a == b
  {
    StrictlyDescendingIsDistinct(a);
    StrictlyDescendingIsDistinct(b);
    DistinctNoLonger(a, b);
    DistinctNoLonger(b, a);
    if a != [] {
      assert a == [a[0]] + a[1..] && b == [b[0]] + b[1..];
      assert a[0] in b && b[0] in a;
      assert a[0] == b[0] by {
        if a[0] != b[0] {
          BelowTotal(a[0], b[0]);
        }
      }
      StrictlyDescendingIsDistinct(a);
      StrictlyDescendingIsDistinct(b);
      forall y ensures y in a[1..] <==> y in b[1..] {
        if y in a[1..] {
          var j :| 1 <= j < |a| && a[j] == y;
          assert y in b;
          var k :| 0 <= k < |b| && b[k] == y;
          assert k != 0 && b[1..][k - 1] == y;
        }
        if y in b[1..] {
          var j :| 1 <= j < |b| && b[j] == y;
          assert y in a;
          var k :| 0 <= k < |a| && a[k] == y;
          assert k != 0 && a[1..][k - 1] == y;
        }
      }
      DescendingUnique(a[1..], b[1..]);
      calc {
        a;
        [a[0]] + a[1..];
        [b[0]] + b[1..];
        b;
      }
    }
  }
}
