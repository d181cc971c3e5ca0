/** Orderings of integer sequences used to state what the traversals and the builder produce. */
module SortedSeq {

  /** Non-decreasing. */
  predicate Sorted(s: seq<int>) {
    forall i, j :: 0 <= i < j < |s| ==> s[i] <= s[j]
  }

  /** Strictly ascending: sorted with no value twice. */
  predicate Increasing(s: seq<int>) {
    forall i, j :: 0 <= i < j < |s| ==> s[i] < s[j]
  }

  /** No value occurs twice. */
  predicate Distinct(s: seq<int>) {
    forall i, j :: 0 <= i < j < |s| ==> s[i] != s[j]
  }

  /** Putting a lower bound in front of a non-decreasing sequence. */
  lemma SortedCons(x: int, s: seq<int>)
    requires Sorted(s)
    requires forall y :: y in s ==> x <= y
    ensures Sorted([x] + s)
  {
    var r := [x] + s;
    forall i, j | 0 <= i < j < |r| ensures r[i] <= r[j] {
      assert r[j] == s[j - 1] && s[j - 1] in s;
      if i > 0 {
        assert r[i] == s[i - 1];
      }
    }
  }

  /** Putting a strict lower bound in front of a strictly ascending sequence. */
  lemma IncreasingCons(x: int, s: seq<int>)
    requires Increasing(s)
    requires forall y :: y in s ==> x < y
    ensures Increasing([x] + s)
  {
    var r := [x] + s;
    forall i, j | 0 <= i < j < |r| ensures r[i] < r[j] {
      assert r[j] == s[j - 1] && s[j - 1] in s;
      if i > 0 {
        assert r[i] == s[i - 1];
      }
    }
  }

  /** The parts of a strictly ascending `a + [x] + b`, and how they compare with `x`. */
  lemma IncreasingParts(a: seq<int>, x: int, b: seq<int>)
    requires Increasing(a + [x] + b)
    ensures Increasing(a) && Increasing(b)
    ensures forall y :: y in a ==> y < x
    ensures forall y :: y in b ==> x < y
  {
    var s := a + [x] + b;
    assert forall i :: 0 <= i < |a| ==> s[i] == a[i];
    assert s[|a|] == x;
    assert forall i :: 0 <= i < |b| ==> s[|a| + 1 + i] == b[i];
  }

  /** Joining two strictly ascending sequences through a separating `x`. */
  lemma IncreasingJoin(a: seq<int>, x: int, b: seq<int>)
    requires Increasing(a) && Increasing(b)
    requires forall y :: y in a ==> y < x
    requires forall y :: y in b ==> x < y
    ensures Increasing(a + [x] + b)
  {
    var s := a + [x] + b;
    forall i, j | 0 <= i < j < |s| ensures s[i] < s[j] {
      if j < |a| {
        assert s[i] == a[i] && s[j] == a[j];
      } else if i < |a| {
        assert s[i] == a[i] && a[i] in a;
        if j > |a| {
          assert s[j] == b[j - |a| - 1] && b[j - |a| - 1] in b;
        }
      } else if i == |a| {
        assert s[j] == b[j - |a| - 1] && b[j - |a| - 1] in b;
      } else {
        assert s[i] == b[i - |a| - 1] && s[j] == b[j - |a| - 1];
      }
    }
  }

  /** `a + [x] + b` is strictly ascending exactly when both sides are and `x` separates them. */
  lemma IncreasingSplit(a: seq<int>, x: int, b: seq<int>)
    ensures Increasing(a + [x] + b) <==>
      && Increasing(a) && Increasing(b)
      && (forall y :: y in a ==> y < x)
      && (forall y :: y in b ==> x < y)
  {
    if Increasing(a + [x] + b) {
      IncreasingParts(a, x, b);
    }
    if && Increasing(a) && Increasing(b)
       && (forall y :: y in a ==> y < x)
       && (forall y :: y in b ==> x < y)
    {
      IncreasingJoin(a, x, b);
    }
  }

  /** Two strictly ascending sequences with the same elements are equal. */
  lemma {:induction false} IncreasingUnique(s: seq<int>, t: seq<int>)
    requires Increasing(s) && Increasing(t)
    requires forall x :: x in s <==> x in t
    ensures s == t
    decreases |s|
  {
    if |s| > 0 {
      assert s[0] in s;
      assert s[0] in t;
    }
    if |t| > 0 {
      assert t[0] in t;
      assert t[0] in s;
    }
    if |s| > 0 {
      // the first elements are both the minimum of the common element set
      assert s[0] == t[0] by {
        var j :| 0 <= j < |t| && t[j] == s[0];
        var i :| 0 <= i < |s| && s[i] == t[0];
        assert t[0] <= t[j];
        assert s[0] <= s[i];
      }
      forall x ensures x in s[1..] <==> x in t[1..] {
        if x in s[1..] {
          assert x in t && x != t[0];
        }
        if x in t[1..] {
          assert x in s && x != s[0];
        }
      }
      IncreasingUnique(s[1..], t[1..]);
      assert s == [s[0]] + s[1..];
      assert t == [t[0]] + t[1..];
    }
  }
}
