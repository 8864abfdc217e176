/** `Array.prototype.sort()` without a comparator, on strings: ascending in the
    lexicographic order of character codes. The component sorts only arrays
    without repetitions (a `Set`'s elements, an object's keys), so sorting is
    modelled as producing the one strictly ascending arrangement of them. */
module Sorting {
  import opened Strings
  import opened Seqs

  /** The default sort order: lexicographic by character code, a proper prefix
      first. */
  predicate Less(a: string, b: string) {
    if a == [] then b != []
    else if b == [] then false
    else if a[0] != b[0] then a[0] < b[0]
    else Less(a[1..], b[1..])
  }

  lemma {:induction false} LessIrreflexive(a: string)
    ensures !Less(a, a)
  {
    if a != [] {
      LessIrreflexive(a[1..]);
    }
  }

  lemma {:induction false} LessAsymmetric(a: string, b: string)
    requires Less(a, b)
    ensures !Less(b, a)
  {
    if a != [] && a[0] == b[0] {
      LessAsymmetric(a[1..], b[1..]);
    }
  }

  lemma {:induction false} LessTransitive(a: string, b: string, c: string)
    requires Less(a, b) && Less(b, c)
    ensures Less(a, c)
  {
    if a != [] && a[0] == b[0] && b[0] == c[0] {
      LessTransitive(a[1..], b[1..], c[1..]);
    }
  }

  lemma {:induction false} LessTrichotomy(a: string, b: string)
    ensures a == b || Less(a, b) || Less(b, a)
  {
    if a != [] && b != [] && a[0] == b[0] {
      LessTrichotomy(a[1..], b[1..]);
      if a[1..] == b[1..] {
        assert a == [a[0]] + a[1..] && b == [b[0]] + b[1..];
      }
    }
  }

  /** Strings of equal length followed by anything compare by their first
      parts first and by what follows only on a tie. */
  lemma {:induction false} LessConcat(a: string, b: string, c: string, d: string)
    requires |a| == |b|
    ensures Less(a + c, b + d) <==> Less(a, b) || (a == b && Less(c, d))
  {
    if a == [] {
      assert a + c == c && b + d == d;
    } else {
      assert (a + c)[0] == a[0] && (b + d)[0] == b[0];
      assert (a + c)[1..] == a[1..] + c && (b + d)[1..] == b[1..] + d;
      LessConcat(a[1..], b[1..], c, d);
      if a[0] == b[0] && a[1..] == b[1..] {
        assert a == [a[0]] + a[1..] && b == [b[0]] + b[1..];
      }
    }
  }

  predicate StrictlySorted(s: seq<string>) {
    forall i, j :: 0 <= i < j < |s| ==> Less(s[i], s[j])
  }

  lemma StrictlySortedDistinct(s: seq<string>)
    requires StrictlySorted(s)
    ensures Distinct(s)
  {
    forall i, j | 0 <= i < j < |s| ensures s[i] != s[j] {
      LessIrreflexive(s[i]);
    }
  }

  /** Puts `x` into a strictly ascending sequence at its place, unless it is
      already there. */
  function Insert(x: string, s: seq<string>): (r: seq<string>)
    requires StrictlySorted(s)
    ensures StrictlySorted(r)
    ensures forall y :: y in r <==> y == x || y in s
  {
    if s == [] then [x]
    else if x == s[0] then s
    else if Less(x, s[0]) then
      assert forall j :: 0 < j < |s| ==> Less(x, s[j]) by {
        forall j | 0 < j < |s| ensures Less(x, s[j]) {
          LessTransitive(x, s[0], s[j]);
        }
      }
      [x] + s
    else
      LessTrichotomy(x, s[0]);
      var tail := Insert(x, s[1..]);
      assert forall y :: y in tail ==> Less(s[0], y) by {
        forall y | y in tail ensures Less(s[0], y) {
          if y != x {
            var j :| 0 <= j < |s[1..]| && s[1..][j] == y;
            assert s[j + 1] == y;
          }
        }
      }
      var r := [s[0]] + tail;
      assert forall i, j :: 0 <= i < j < |r| ==> Less(r[i], r[j]) by {
        forall i, j | 0 <= i < j < |r| ensures Less(r[i], r[j]) {
          if i == 0 {
            assert r[j] == tail[j - 1] && tail[j - 1] in tail;
          } else {
            assert r[i] == tail[i - 1] && r[j] == tail[j - 1];
          }
        }
      }
      r
  }

  /** `Array.from(new Set(xs)).sort()`: the distinct strings of `xs`, ascending. */
  function SortedDistinct(xs: seq<string>): (r: seq<string>)
    ensures StrictlySorted(r)
    ensures forall y :: y in r <==> y in xs
  {
    if xs == [] then [] else Insert(xs[0], SortedDistinct(xs[1..]))
  }

  /** There is only one strictly ascending arrangement of a set of strings, so
      the sorted result does not depend on the order of the input. */
  lemma {:induction false} SortedUnique(a: seq<string>, b: seq<string>)
    requires StrictlySorted(a) && StrictlySorted(b)
    requires forall y :: y in a <==> y in b
    ensures a == b
  {
    assert a == [] <==> b == [] by {
      if a != [] {
        assert a[0] in a;
      }
      if b != [] {
        assert b[0] in b;
      }
    }
    if a != [] {
      assert a[0] in b;
      assert b[0] in a;
      var j :| 0 <= j < |b| && b[j] == a[0];
      var i :| 0 <= i < |a| && a[i] == b[0];
      if j > 0 {
        if i == 0 {
          LessIrreflexive(a[0]);
        } else {
          LessAsymmetric(a[0], b[0]);
        }
        assert false;
      }
      forall y ensures y in a[1..] <==> y in b[1..] {
        if y in a[1..] {
          var k :| 0 <= k < |a[1..]| && a[1..][k] == y;
          assert Less(a[0], a[k + 1]);
          LessIrreflexive(y);
          assert y in b && y != b[0];
          var m :| 0 <= m < |b| && b[m] == y;
          assert b[1..][m - 1] == y;
        }
        if y in b[1..] {
          var k :| 0 <= k < |b[1..]| && b[1..][k] == y;
          assert Less(b[0], b[k + 1]);
          LessIrreflexive(y);
          assert y in a && y != a[0];
          var m :| 0 <= m < |a| && a[m] == y;
          assert a[1..][m - 1] == y;
        }
      }
      SortedUnique(a[1..], b[1..]);
      assert a == [a[0]] + a[1..] && b == [b[0]] + b[1..];
    }
  }

  /** Sorting an array without repetitions only rearranges it. */
  lemma SortedDistinctPermutes(xs: seq<string>)
    requires Distinct(xs)
    ensures multiset(SortedDistinct(xs)) == multiset(xs)
  {
    var r := SortedDistinct(xs);
    StrictlySortedDistinct(r);
    forall y ensures multiset(r)[y] == multiset(xs)[y] {
      DistinctCount(r, y);
      DistinctCount(xs, y);
    }
  }

  /** Fixed-width digit strings compare and coincide as their values do. */
  lemma {:induction false} DigitsOrder(a: nat, b: nat, w: nat)
    requires a < Pow10(w) && b < Pow10(w)
    ensures Less(Digits(a, w), Digits(b, w)) <==> a < b
    ensures Digits(a, w) == Digits(b, w) <==> a == b
  {
    if w > 0 {
      var A, B := Digits(a / 10, w - 1), Digits(b / 10, w - 1);
      var ca, cb := [DigitChar(a % 10)], [DigitChar(b % 10)];
      DigitsOrder(a / 10, b / 10, w - 1);
      LessConcat(A, B, ca, cb);
      assert Less(ca, cb) <==> a % 10 < b % 10 by {
        assert ca[1..] == [] && cb[1..] == [];
      }
      if A + ca == B + cb {
        assert A == (A + ca)[..|A|] && B == (B + cb)[..|B|];
        assert ca[0] == (A + ca)[|A|];
      }
    }
  }
}
