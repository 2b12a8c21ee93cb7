/**
 * Shared vocabulary: an optional value, and the order of Go strings. A Go string is a sequence
 * of bytes; here it is a sequence of characters, one per byte, compared by character code.
 */
module Common {

  datatype Option<+T> = None | Some(value: T)

  /** A 20-byte account address; only its identity matters. */
  type Address = int

  const UINT64_LIMIT: int := 0x1_0000_0000_0000_0000

  /** The key a Go map iteration visits next: any of those not yet visited. */
  method AnyOf<K(==)>(s: set<K>) returns (k: K)
    requires s != {}
    ensures k in s
  {
    k :| k in s;
  }

  /** strings.Compare(a, b) < 0 (equally bytes.Compare): lexicographic order. */
  predicate LexLess(a: string, b: string) {
    if b == [] then false
    else if a == [] then true
    else if a[0] != b[0] then a[0] < b[0]
    else LexLess(a[1..], b[1..])
  }

  lemma {:induction false} LexTrichotomy(a: string, b: string)
    ensures LexLess(a, b) || LexLess(b, a) || a == b
    ensures !(LexLess(a, b) && LexLess(b, a))
    ensures !LexLess(a, a)
  {
    if a == [] || b == [] {
      if a != [] { LexTrichotomy(a[1..], []); }
    } else {
      LexTrichotomy(a[1..], b[1..]);
      if a[0] == b[0] && a[1..] == b[1..] {
        assert a == [a[0]] + a[1..] == b;
      }
    }
  }

  /** Less at the first difference, or a proper prefix. */
  lemma {:induction false} LexLessIff(a: string, b: string)
    ensures LexLess(a, b) <==>
              exists i :: 0 <= i <= |a| && i < |b| && a[..i] == b[..i] && (i == |a| || a[i] < b[i])
  {
    if a == [] || b == [] {
      assert a[..0] == b[..0];
    } else if a[0] != b[0] {
      assert a[..0] == b[..0];
      assert forall i :: 0 < i <= |a| && i < |b| && a[..i] == b[..i] ==> a[..i][0] == b[..i][0];
    } else {
      LexLessIff(a[1..], b[1..]);
      var x, y := a[1..], b[1..];
      if i :| 0 <= i <= |x| && i < |y| && x[..i] == y[..i] && (i == |x| || x[i] < y[i]) {
        assert a[..i + 1] == [a[0]] + x[..i] && b[..i + 1] == [b[0]] + y[..i];
      }
      if i :| 0 <= i <= |a| && i < |b| && a[..i] == b[..i] && (i == |a| || a[i] < b[i]) {
        assert x[..i - 1] == a[..i][1..] && y[..i - 1] == b[..i][1..];
      }
    }
  }

  lemma {:induction false} LexTransitive(a: string, b: string, c: string)
    requires LexLess(a, b) && LexLess(b, c)
    ensures LexLess(a, c)
  {
    if a != [] && a[0] == b[0] == c[0] {
      LexTransitive(a[1..], b[1..], c[1..]);
    }
  }

  /** A common prefix does not matter to the order. */
  lemma {:induction false} LexCommonPrefix(p: string, a: string, b: string)
    ensures LexLess(p + a, p + b) == LexLess(a, b)
  {
    if p == [] {
      assert p + a == a && p + b == b;
    } else {
      assert (p + a)[1..] == p[1..] + a && (p + b)[1..] == p[1..] + b;
      LexCommonPrefix(p[1..], a, b);
    }
  }

  /** Between words of one length a difference in the first part settles the order. */
  lemma {:induction false} LexFirstPartDecides(a: string, b: string, x: string, y: string)
    requires |a| == |b| && a != b
    ensures LexLess(a + x, b + y) == LexLess(a, b)
  {
    assert (a + x)[1..] == a[1..] + x && (b + y)[1..] == b[1..] + y;
    if a[0] == b[0] {
      assert a == [a[0]] + a[1..] && b == [b[0]] + b[1..];
      LexFirstPartDecides(a[1..], b[1..], x, y);
    }
  }

  // --- Extremes of a set of strings ---

  ghost predicate IsLeast(s: set<string>, k: string) {
    k in s && forall x | x in s :: x == k || LexLess(k, x)
  }

  lemma {:induction false} LeastExists(s: set<string>)
    requires s != {}
    ensures exists k :: IsLeast(s, k)
    decreases |s|
  {
    var x :| x in s;
    if s == {x} {
      assert IsLeast(s, x);
    } else {
      var rest := s - {x};
      LeastExists(rest);
      var k :| IsLeast(rest, k);
      LexTrichotomy(x, k);
      if LexLess(k, x) {
        assert IsLeast(s, k);
      } else {
        forall y | y in s ensures y == x || LexLess(x, y) {
          if y != x && y != k { LexTransitive(x, k, y); }
        }
        assert IsLeast(s, x);
      }
    }
  }

  lemma LeastIsUnique(s: set<string>, j: string, k: string)
    requires IsLeast(s, j) && IsLeast(s, k)
    ensures j == k
  {
    LexTrichotomy(j, k);
  }

  function Least(s: set<string>): (k: string)
    requires s != {}
    ensures IsLeast(s, k)
  {
    LeastExists(s);
    assert forall j, k | IsLeast(s, j) && IsLeast(s, k) :: j == k by {
      forall j, k | IsLeast(s, j) && IsLeast(s, k) ensures j == k { LeastIsUnique(s, j, k); }
    }
    var k :| k in s && IsLeastOf(s, k);
    k
  }

  /** IsLeast, with the bounded quantifier in compilable form. */
  predicate IsLeastOf(s: set<string>, k: string)
    ensures IsLeastOf(s, k) && k in s <==> IsLeast(s, k)
  {
    forall x | x in s :: x == k || LexLess(k, x)
  }

  ghost predicate IsGreatest(s: set<string>, k: string) {
    k in s && forall x | x in s :: x == k || LexLess(x, k)
  }

  lemma {:induction false} GreatestExists(s: set<string>)
    requires s != {}
    ensures exists k :: IsGreatest(s, k)
    decreases |s|
  {
    var x :| x in s;
    if s == {x} {
      assert IsGreatest(s, x);
    } else {
      var rest := s - {x};
      GreatestExists(rest);
      var k :| IsGreatest(rest, k);
      LexTrichotomy(x, k);
      if LexLess(x, k) {
        assert IsGreatest(s, k);
      } else {
        forall y | y in s ensures y == x || LexLess(y, x) {
          if y != x && y != k { LexTransitive(y, k, x); }
        }
        assert IsGreatest(s, x);
      }
    }
  }

  lemma GreatestIsUnique(s: set<string>, j: string, k: string)
    requires IsGreatest(s, j) && IsGreatest(s, k)
    ensures j == k
  {
    LexTrichotomy(j, k);
  }

  predicate IsGreatestOf(s: set<string>, k: string)
    ensures IsGreatestOf(s, k) && k in s <==> IsGreatest(s, k)
  {
    forall x | x in s :: x == k || LexLess(x, k)
  }

  function Greatest(s: set<string>): (k: string)
    requires s != {}
    ensures IsGreatest(s, k)
  {
    GreatestExists(s);
    assert forall j, k | IsGreatest(s, j) && IsGreatest(s, k) :: j == k by {
      forall j, k | IsGreatest(s, j) && IsGreatest(s, k) ensures j == k { GreatestIsUnique(s, j, k); }
    }
    var k :| k in s && IsGreatestOf(s, k);
    k
  }
}
