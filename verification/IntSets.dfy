/** Finite sets of integers with the ordered queries of intsets.Sparse, by its documented contract. */
module IntSets {
  import opened Machine

  ghost predicate IsLeast(s: set<Int64>, m: Int64) {
    m in s && forall x :: x in s ==> m <= x
  }

  ghost predicate IsGreatest(s: set<Int64>, m: Int64) {
    m in s && forall x :: x in s ==> x <= m
  }

  function Without(s: set<Int64>, x: Int64): (t: set<Int64>)
    ensures forall y: Int64 :: y in t <==> y in s && y != x
    ensures t == s - {x} && (x in s ==> |t| < |s|)
  {
    s - {x}
  }

  lemma {:induction false} HasExtremes(s: set<Int64>)
    requires s != {}
    ensures exists m :: IsLeast(s, m)
    ensures exists m :: IsGreatest(s, m)
    decreases |s|
  {
    var x: Int64 :| x in s;
    var t := Without(s, x);
    if t == {} {
      assert forall y :: y in s ==> y == x || y in t;
      assert IsLeast(s, x) && IsGreatest(s, x);
    } else {
      HasExtremes(t);
      var a: Int64 :| IsLeast(t, a);
      var b: Int64 :| IsGreatest(t, b);
      assert forall y :: y in s ==> y == x || y in t;
      assert IsLeast(s, if x < a then x else a);
      assert IsGreatest(s, if x > b then x else b);
    }
  }

  function Least(s: set<Int64>): (m: Int64)
    requires s != {}
    ensures IsLeast(s, m)
  {
    HasExtremes(s);
    var m :| m in s && forall x :: x in s ==> m <= x;
    m
  }

  function Greatest(s: set<Int64>): (m: Int64)
    requires s != {}
    ensures IsGreatest(s, m)
  {
    HasExtremes(s);
    var m :| m in s && forall x :: x in s ==> x <= m;
    m
  }

  function MinOf(s: set<Int64>): Int64 {
    if s == {} then MAX_INT else Least(s)
  }

  function MaxOf(s: set<Int64>): Int64 {
    if s == {} then MIN_INT else Greatest(s)
  }

  function From(s: set<Int64>, x: Int64): (t: set<Int64>)
    ensures forall y: Int64 :: y in t <==> y in s && x <= y
  {
    set y | y in s && x <= y
  }

  /** The least element that is at least x, or MAX_INT when there is none. */
  function LowerBound(s: set<Int64>, x: Int64): Int64 {
    MinOf(From(s, x))
  }

  /** The elements in increasing order. */
  function Ascending(s: set<Int64>): (a: seq<Int64>)
    ensures |a| == |s|
    decreases |s|
  {
    if s == {} then [] else
      var m := Least(s);
      [m] + Ascending(Without(s, m))
  }

  lemma {:induction false} AscendingMembers(s: set<Int64>, x: Int64)
    ensures x in Ascending(s) <==> x in s
    decreases |s|
  {
    if s != {} { AscendingMembers(Without(s, Least(s)), x); }
  }

  lemma {:induction false} AscendingSorted(s: set<Int64>)
    ensures forall i, j :: 0 <= i < j < |s| ==> Ascending(s)[i] < Ascending(s)[j]
    decreases |s|
  {
    if s != {} {
      var t := Without(s, Least(s));
      AscendingSorted(t);
      var a, b := Ascending(s), Ascending(t);
      forall i, j | 0 <= i < j < |s| ensures a[i] < a[j] {
        assert a[j] == b[j - 1];
        AscendingMembers(t, b[j - 1]);
        if i > 0 { assert a[i] == b[i - 1]; }
      }
    }
  }

  /** Taking the least element first. */
  lemma AscendingStep(s: set<Int64>, m: Int64, t: set<Int64>)
    requires IsLeast(s, m) && t == Without(s, m)
    ensures Ascending(s) == [m] + Ascending(t)
  {}

  lemma {:induction false} CardinalityBound(s: set<Int64>, n: nat)
    requires n <= 0x8000_0000_0000_0000 && forall x :: x in s ==> 0 <= x < n
    ensures |s| <= n
  {
    if n > 0 {
      CardinalityBound(Without(s, n - 1), n - 1);
    } else {
      assert s == {};
    }
  }
}
