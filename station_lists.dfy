/** Station lists: the ordering produced by Python's `list.sort()` / `sorted()`
    on stations, and the spacing predicates the later stages are judged by. */
module StationLists {

  /** Ascending (non-decreasing) order. */
  predicate Sorted(s: seq<real>) {
    forall i, j :: 0 <= i < j < |s| ==> s[i] <= s[j]
  }

  /** Strictly ascending order (the keys of a dictionary after `sorted`). */
  predicate StrictlyAscending(s: seq<real>) {
    forall i, j :: 0 <= i < j < |s| ==> s[i] < s[j]
  }

  /** Every adjacent difference `s[i+1] - s[i]` is at most `bound`. */
  predicate GapsWithin(s: seq<real>, bound: real) {
    forall i :: 0 <= i < |s| - 1 ==> s[i + 1] - s[i] <= bound
  }

  /** Python's `abs` on a float. */
  function Abs(x: real): (r: real)
    ensures r >= 0.0 && (r == x || r == -x)
  {
    if x < 0.0 then -x else x
  }

  /** Places `x` into a list in front of the first element not smaller than it. */
  function InsertSorted(x: real, s: seq<real>): (r: seq<real>)
    ensures multiset(r) == multiset(s) + multiset{x}
  {
    if s == [] || x <= s[0] then
      [x] + s
    else
      assert s == [s[0]] + s[1..];
      [s[0]] + InsertSorted(x, s[1..])
  }

  /** Putting an element no larger than the head in front of an ascending list keeps it ascending. */
  lemma ConsSorted(h: real, t: seq<real>)
    requires Sorted(t)
    requires t != [] ==> h <= t[0]
    ensures Sorted([h] + t)
  {
    var r := [h] + t;
    forall i, j | 0 <= i < j < |r| ensures r[i] <= r[j] {
      if i == 0 {
        assert r[j] == t[j - 1] && t[0] <= t[j - 1];
      } else {
        assert r[i] == t[i - 1] && r[j] == t[j - 1];
      }
    }
  }

  /** Inserting into an ascending list keeps it ascending. */
  lemma {:induction false} InsertSortedSorted(x: real, s: seq<real>)
    requires Sorted(s)
    ensures Sorted(InsertSorted(x, s))
  {
    if s == [] || x <= s[0] {
      ConsSorted(x, s);
    } else {
      var t := InsertSorted(x, s[1..]);
      assert Sorted(s[1..]);
      InsertSortedSorted(x, s[1..]);
      assert t[0] == x || t[0] == s[1];
      ConsSorted(s[0], t);
    }
  }

  /** The model of `list.sort()` on stations: an ascending permutation of its input. */
  function Sort(s: seq<real>): (r: seq<real>)
    ensures Sorted(r)
    ensures multiset(r) == multiset(s)
  {
    if s == [] then
      []
    else
      assert s == [s[0]] + s[1..];
      InsertSortedSorted(s[0], Sort(s[1..]));
      InsertSorted(s[0], Sort(s[1..]))
  }

  /** `list.sort()`: an ascending permutation of the list. */
  method SortStations(s: seq<real>) returns (t: seq<real>)
    ensures Sorted(t) && multiset(t) == multiset(s)
  {
    t := Sort(s);
  }

  /** The head of an ascending list is its least element. */
  lemma SortedHeadLeast(a: seq<real>, x: real)
    requires Sorted(a) && x in multiset(a)
    ensures a[0] <= x
  {
    var i :| 0 <= i < |a| && a[i] == x;
  }

  /** Lists with the same multiset and the same head have tails with the same multiset. */
  lemma SameTails(a: seq<real>, b: seq<real>)
    requires a != [] && b != [] && a[0] == b[0]
    requires multiset(a) == multiset(b)
    ensures multiset(a[1..]) == multiset(b[1..])
  {
    assert a == [a[0]] + a[1..];
    assert b == [b[0]] + b[1..];
    assert multiset(a) == multiset{a[0]} + multiset(a[1..]);
    assert multiset(b) == multiset{b[0]} + multiset(b[1..]);
    assert multiset(a[1..]) == multiset(a) - multiset{a[0]};
    assert multiset(b[1..]) == multiset(b) - multiset{b[0]};
  }

  /** There is only one ascending arrangement of a multiset of stations, so any
      ascending permutation of a list is what `sort()` returns for it. */
  lemma {:induction false} SortedPermutationUnique(a: seq<real>, b: seq<real>)
    requires Sorted(a) && Sorted(b)
    requires multiset(a) == multiset(b)
    ensures a == b
  {
    if a == [] || b == [] {
      assert |a| == |multiset(a)| == |multiset(b)| == |b|;
    } else {
      assert a[0] in multiset(a) && b[0] in multiset(b);
      SortedHeadLeast(a, b[0]);
      SortedHeadLeast(b, a[0]);
      SameTails(a, b);
      assert Sorted(a[1..]) && Sorted(b[1..]);
      SortedPermutationUnique(a[1..], b[1..]);
      assert a == [a[0]] + a[1..] && b == [b[0]] + b[1..];
    }
  }

  /** Sorting is the identity on a list that is already ascending. */
  lemma SortOfSorted(s: seq<real>)
    requires Sorted(s)
    ensures Sort(s) == s
  {
    SortedPermutationUnique(Sort(s), s);
  }

  /** Joining two ascending lists where the first ends no higher than the second begins. */
  lemma AppendSorted(a: seq<real>, b: seq<real>)
    requires Sorted(a) && Sorted(b)
    requires a != [] && b != [] ==> a[|a| - 1] <= b[0]
    ensures Sorted(a + b)
  {
    var r := a + b;
    forall i, j | 0 <= i < j < |r| ensures r[i] <= r[j] {
      if j < |a| {
        assert r[i] == a[i] && r[j] == a[j];
      } else if i >= |a| {
        assert r[i] == b[i - |a|] && r[j] == b[j - |a|];
      } else {
        assert r[i] == a[i] && a[i] <= a[|a| - 1];
        assert r[j] == b[j - |a|] && b[0] <= b[j - |a|];
      }
    }
  }

  /** Putting `x` right after position `i` of an ascending list, where
      `s[i] <= x <= s[i+1]`, keeps it ascending. */
  lemma PlaceAfterSorted(s: seq<real>, i: nat, x: real)
    requires Sorted(s)
    requires i < |s| && s[i] <= x
    requires i + 1 < |s| ==> x <= s[i + 1]
    ensures Sorted(s[..i + 1] + [x] + s[i + 1..])
  {
    var left, right := s[..i + 1], s[i + 1..];
    SliceSorted(s, 0, i + 1);
    SliceSorted(s, i + 1, |s|);
    assert left == s[0..i + 1] && right == s[i + 1..|s|];
    ConsSorted(x, right);
    AppendSorted(left, [x] + right);
    assert left + ([x] + right) == s[..i + 1] + [x] + s[i + 1..];
  }

  /** Putting `x` anywhere into a list is a permutation of appending it. */
  lemma PlaceAfterPermutes(s: seq<real>, i: nat, x: real)
    requires i < |s|
    ensures multiset(s[..i + 1] + [x] + s[i + 1..]) == multiset(s + [x])
  {
    var left, right := s[..i + 1], s[i + 1..];
    assert s == left + right;
    assert multiset(s) == multiset(left) + multiset(right);
  }

  /** A slice of an ascending list is ascending. */
  lemma SliceSorted(s: seq<real>, lo: nat, hi: nat)
    requires Sorted(s) && lo <= hi <= |s|
    ensures Sorted(s[lo..hi])
  {
    var t := s[lo..hi];
    forall p, q | 0 <= p < q < |t| ensures t[p] <= t[q] {
      assert t[p] == s[lo + p] && t[q] == s[lo + q];
    }
  }

  /** In an ascending list holding `x`, the first element is at most `x` and the last at least `x`. */
  lemma SortedBounds(s: seq<real>, x: real)
    requires Sorted(s) && x in s
    ensures s[0] <= x <= s[|s| - 1]
  {
  }

  /** Some station of a set that is not empty. */
  lemma Pick(s: set<real>) returns (x: real)
    requires s != {}
    ensures x in s
  {
    if forall y :: y !in s {
      assert false;
    } else {
      x :| x in s;
    }
  }

  /** Every finite set of stations that is not empty has a least element. */
  lemma {:induction false} Least(s: set<real>) returns (k: real)
    requires s != {}
    ensures k in s && forall j :: j in s ==> k <= j
    decreases s
  {
    var x := Pick(s);
    var others := s - {x};
    if others == {} {
      k := x;
      forall j | j in s ensures k <= j {
        assert j !in others;
      }
    } else {
      var rest := Least(others);
      k := if x < rest then x else rest;
      forall j | j in s ensures k <= j {
        if j != x {
          assert j in others;
        }
      }
    }
  }
}
