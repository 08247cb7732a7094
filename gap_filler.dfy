/** The gap filler (measureAlignment.py lines 101-108): walking the sorted list
    by index, whenever the next station is more than `STEP + TOLERANCE` ahead of
    the current one, `current + STEP` is appended and the list re-sorted, so the
    new station becomes the next one and the rest of the gap is examined again. */
module GapFiller {
  import opened StationLists

  /** Subtracting `step` from `d` lowers `d / step` by exactly one. */
  lemma DivStep(d: real, step: real)
    requires step > 0.0
    ensures (d - step) / step == d / step - 1.0
  {
    var q := d / step;
    var r := (d - step) / step;
    assert q * step == d;
    assert r * step == d - step;
    var x := r - (q - 1.0);
    assert x * step == 0.0;
    if x > 0.0 {
      assert false;
    } else if x < 0.0 {
      assert false;
    }
  }

  /** Dividing by a positive `step` keeps order and sign. */
  lemma DivMonotone(x: real, y: real, step: real)
    requires step > 0.0 && 0.0 <= x <= y
    ensures 0.0 <= x / step <= y / step
  {
    var qx, qy := x / step, y / step;
    assert qx * step == x && qy * step == y;
    assert (qy - qx) * step == y - x;
  }

  /** How many strides of `step` it takes to cover the distance `d`; the
      measure by which the gap filler terminates. */
  ghost function StepsToCover(d: real, step: real): nat
    requires step > 0.0
    decreases (d / step).Floor
  {
    if d <= 0.0 then
      0
    else
      DivStep(d, step);
      DivMonotone(0.0, d, step);
      1 + StepsToCover(d - step, step)
  }

  /** A shorter distance takes no more strides. */
  lemma {:induction false} StepsToCoverMonotone(x: real, y: real, step: real)
    requires step > 0.0 && x <= y
    ensures StepsToCover(x, step) <= StepsToCover(y, step)
    decreases StepsToCover(y, step)
  {
    if x > 0.0 {
      StepsToCoverMonotone(x - step, y - step, step);
    }
  }

  /** The stations inserted into the gap from `a` to `b`: while the distance to
      `b` exceeds `step + tolerance`, the next station is the previous one plus
      `step`. */
  function FillGap(a: real, b: real, step: real, tolerance: real): seq<real>
    requires step > 0.0 && tolerance >= 0.0
    decreases StepsToCover(b - a, step)
  {
    if b - a > step + tolerance then
      assert b - (a + step) == (b - a) - step;
      [a + step] + FillGap(a + step, b, step, tolerance)
    else
      []
  }

  /** The filled list from station `c` on, where `rest` are the stations that
      follow `c` in the input. */
  function FilledFrom(c: real, rest: seq<real>, step: real, tolerance: real): seq<real>
    requires step > 0.0 && tolerance >= 0.0
    decreases |rest|
  {
    if rest == [] then
      [c]
    else
      [c] + FillGap(c, rest[0], step, tolerance) + FilledFrom(rest[0], rest[1..], step, tolerance)
  }

  /** The list the gap filler leaves behind for input `s`. */
  function Filled(s: seq<real>, step: real, tolerance: real): seq<real>
    requires step > 0.0 && tolerance >= 0.0
  {
    if s == [] then [] else FilledFrom(s[0], s[1..], step, tolerance)
  }

  /** Left anchoring: the first station of `g` is `a + step`, each further one
      is `step` after its left neighbour, and each lies more than `tolerance`
      before `b`. */
  predicate AnchoredChain(g: seq<real>, a: real, b: real, step: real, tolerance: real) {
    && (forall j :: 0 <= j < |g| ==> g[j] == (if j == 0 then a else g[j - 1]) + step)
    && (forall j :: 0 <= j < |g| ==> b - g[j] > tolerance)
  }

  /** The stations inserted into a gap form a chain anchored at its left end, so
      the chain never reaches `b`. */
  lemma {:induction false} FillGapChain(a: real, b: real, step: real, tolerance: real)
    requires step > 0.0 && tolerance >= 0.0
    ensures AnchoredChain(FillGap(a, b, step, tolerance), a, b, step, tolerance)
    decreases StepsToCover(b - a, step)
  {
    if b - a > step + tolerance {
      assert b - (a + step) == (b - a) - step;
      var g := FillGap(a, b, step, tolerance);
      var g' := FillGap(a + step, b, step, tolerance);
      FillGapChain(a + step, b, step, tolerance);
      assert g == [a + step] + g';
      forall j | 0 <= j < |g|
        ensures g[j] == (if j == 0 then a else g[j - 1]) + step
        ensures b - g[j] > tolerance
      {
        if j > 0 {
          assert g[j] == g'[j - 1];
          assert g'[j - 1] == (if j - 1 == 0 then a + step else g'[j - 2]) + step;
          assert j - 1 == 0 || g[j - 1] == g'[j - 2];
        }
      }
    }
  }

  /** The gap left after the chain, from its last station (or from `a` when
      nothing is inserted) to `b`, is at most `step + tolerance`. */
  lemma {:induction false} FillGapLastGap(a: real, b: real, step: real, tolerance: real)
    requires step > 0.0 && tolerance >= 0.0
    ensures var g := FillGap(a, b, step, tolerance);
      b - (if g == [] then a else g[|g| - 1]) <= step + tolerance
    decreases StepsToCover(b - a, step)
  {
    if b - a > step + tolerance {
      assert b - (a + step) == (b - a) - step;
      FillGapLastGap(a + step, b, step, tolerance);
    }
  }

  /** A station followed by a list whose first gap is within `bound`. */
  lemma ConsGaps(h: real, t: seq<real>, bound: real)
    requires GapsWithin(t, bound)
    requires t != [] ==> t[0] - h <= bound
    ensures GapsWithin([h] + t, bound)
  {
    var r := [h] + t;
    forall i | 0 <= i < |r| - 1 ensures r[i + 1] - r[i] <= bound {
      if i > 0 {
        assert r[i + 1] == t[i] && r[i] == t[i - 1];
      }
    }
  }

  /** Gluing two lists that share their meeting station (`x` ends where `y` begins). */
  lemma JoinGaps(x: seq<real>, y: seq<real>, bound: real)
    requires x != [] && y != [] && x[|x| - 1] == y[0]
    requires GapsWithin(x, bound) && GapsWithin(y, bound)
    ensures GapsWithin(x + y[1..], bound)
  {
    var r := x + y[1..];
    forall i | 0 <= i < |r| - 1 ensures r[i + 1] - r[i] <= bound {
      if i + 1 < |x| {
        assert r[i + 1] == x[i + 1] && r[i] == x[i];
      } else if i + 1 == |x| {
        assert r[i + 1] == y[1] && r[i] == y[0];
      } else {
        assert r[i + 1] == y[i + 2 - |x|] && r[i] == y[i + 1 - |x|];
      }
    }
  }

  /** Gluing two ascending lists that share their meeting station. */
  lemma JoinSorted(x: seq<real>, y: seq<real>)
    requires x != [] && y != [] && x[|x| - 1] == y[0]
    requires Sorted(x) && Sorted(y)
    ensures Sorted(x + y[1..])
  {
    SliceSorted(y, 1, |y|);
    assert y[1..] == y[1..|y|];
    if |y| > 1 {
      assert y[0] <= y[1];
    }
    AppendSorted(x, y[1..]);
  }

  /** One gap with its two ends: its gaps are within `step + tolerance`, and it
      is ascending when `a <= b`. */
  lemma {:induction false} GapChain(a: real, b: real, step: real, tolerance: real)
    requires step > 0.0 && tolerance >= 0.0
    ensures GapsWithin([a] + FillGap(a, b, step, tolerance) + [b], step + tolerance)
    ensures a <= b ==> Sorted([a] + FillGap(a, b, step, tolerance) + [b])
    decreases StepsToCover(b - a, step)
  {
    var g := FillGap(a, b, step, tolerance);
    if b - a > step + tolerance {
      assert b - (a + step) == (b - a) - step;
      var g' := FillGap(a + step, b, step, tolerance);
      GapChain(a + step, b, step, tolerance);
      var t := [a + step] + g' + [b];
      assert [a] + g + [b] == [a] + t;
      ConsGaps(a, t, step + tolerance);
      ConsSorted(a, t);
    } else {
      assert [a] + g + [b] == [a, b];
    }
  }

  /** The filled list from `c` starts at `c` and ends at the last input station. */
  lemma {:induction false} FilledFromEnds(c: real, rest: seq<real>, step: real, tolerance: real)
    requires step > 0.0 && tolerance >= 0.0
    ensures var f := FilledFrom(c, rest, step, tolerance);
      |f| > 0 && f[0] == c && f[|f| - 1] == (if rest == [] then c else rest[|rest| - 1])
    decreases |rest|
  {
    if rest != [] {
      FilledFromEnds(rest[0], rest[1..], step, tolerance);
    }
  }

  /** The filled list from `c` is the gap up to the next station, with both
      ends, glued to the filled list from that station. */
  lemma FilledFromJoin(c: real, rest: seq<real>, step: real, tolerance: real)
    requires step > 0.0 && tolerance >= 0.0 && rest != []
    ensures var tail := FilledFrom(rest[0], rest[1..], step, tolerance);
      FilledFrom(c, rest, step, tolerance) == [c] + FillGap(c, rest[0], step, tolerance) + [rest[0]] + tail[1..]
  {
    var tail := FilledFrom(rest[0], rest[1..], step, tolerance);
    FilledFromEnds(rest[0], rest[1..], step, tolerance);
    assert tail == [rest[0]] + tail[1..];
  }

  /** Every gap of the filled list from `c` is within `step + tolerance`. */
  lemma {:induction false} FilledFromGaps(c: real, rest: seq<real>, step: real, tolerance: real)
    requires step > 0.0 && tolerance >= 0.0
    ensures GapsWithin(FilledFrom(c, rest, step, tolerance), step + tolerance)
    decreases |rest|
  {
    if rest != [] {
      var n := rest[0];
      var tail := FilledFrom(n, rest[1..], step, tolerance);
      FilledFromGaps(n, rest[1..], step, tolerance);
      FilledFromEnds(n, rest[1..], step, tolerance);
      GapChain(c, n, step, tolerance);
      var chain := [c] + FillGap(c, n, step, tolerance) + [n];
      FilledFromJoin(c, rest, step, tolerance);
      JoinGaps(chain, tail, step + tolerance);
    }
  }

  /** The filled list from `c` is ascending when `c` followed by the input is. */
  lemma {:induction false} FilledFromSorted(c: real, rest: seq<real>, step: real, tolerance: real)
    requires step > 0.0 && tolerance >= 0.0
    requires Sorted([c] + rest)
    ensures Sorted(FilledFrom(c, rest, step, tolerance))
    decreases |rest|
  {
    if rest != [] {
      var n := rest[0];
      var tail := FilledFrom(n, rest[1..], step, tolerance);
      SliceSorted([c] + rest, 1, |rest| + 1);
      assert ([c] + rest)[1..|rest| + 1] == [n] + rest[1..];
      assert ([c] + rest)[0] == c && ([c] + rest)[1] == n;
      FilledFromSorted(n, rest[1..], step, tolerance);
      FilledFromEnds(n, rest[1..], step, tolerance);
      GapChain(c, n, step, tolerance);
      var chain := [c] + FillGap(c, n, step, tolerance) + [n];
      FilledFromJoin(c, rest, step, tolerance);
      JoinSorted(chain, tail);
    }
  }

  /** The filled list from `c` keeps `c` and every input station. */
  lemma {:induction false} FilledFromKeeps(c: real, rest: seq<real>, step: real, tolerance: real)
    requires step > 0.0 && tolerance >= 0.0
    ensures multiset([c] + rest) <= multiset(FilledFrom(c, rest, step, tolerance))
    decreases |rest|
  {
    if rest != [] {
      var n := rest[0];
      var g := FillGap(c, n, step, tolerance);
      var tail := FilledFrom(n, rest[1..], step, tolerance);
      FilledFromKeeps(n, rest[1..], step, tolerance);
      assert rest == [n] + rest[1..];
      assert multiset([c] + rest) == multiset{c} + multiset([n] + rest[1..]);
      assert FilledFrom(c, rest, step, tolerance) == [c] + g + tail;
      assert multiset([c] + g + tail) == multiset{c} + multiset(g) + multiset(tail);
    }
  }

  /** What the gap filler promises for an ascending list: the result keeps its
      first and last station and every input station, is ascending, and has no
      gap wider than `step + tolerance`. */
  lemma FilledProperties(s: seq<real>, step: real, tolerance: real)
    requires step > 0.0 && tolerance >= 0.0
    requires Sorted(s) && s != []
    ensures var f := Filled(s, step, tolerance);
      && |f| > 0 && f[0] == s[0] && f[|f| - 1] == s[|s| - 1]
      && Sorted(f)
      && GapsWithin(f, step + tolerance)
      && multiset(s) <= multiset(f)
  {
    assert s == [s[0]] + s[1..];
    FilledFromEnds(s[0], s[1..], step, tolerance);
    FilledFromGaps(s[0], s[1..], step, tolerance);
    FilledFromSorted(s[0], s[1..], step, tolerance);
    FilledFromKeeps(s[0], s[1..], step, tolerance);
  }

  /** A list whose gaps are all within `step + tolerance` is left as it is. */
  lemma {:induction false} FilledFromIdentity(c: real, rest: seq<real>, step: real, tolerance: real)
    requires step > 0.0 && tolerance >= 0.0
    requires GapsWithin([c] + rest, step + tolerance)
    ensures FilledFrom(c, rest, step, tolerance) == [c] + rest
    decreases |rest|
  {
    if rest != [] {
      var t := [c] + rest;
      assert t[1] - t[0] <= step + tolerance;
      assert GapsWithin(rest, step + tolerance) by {
        forall i | 0 <= i < |rest| - 1 ensures rest[i + 1] - rest[i] <= step + tolerance {
          assert rest[i + 1] == t[i + 2] && rest[i] == t[i + 1];
        }
      }
      assert rest == [rest[0]] + rest[1..];
      FilledFromIdentity(rest[0], rest[1..], step, tolerance);
    }
  }

  /** Every station of `f` is one of `inputs`, or the station before it plus `step`. */
  predicate InputOrStride(f: seq<real>, inputs: seq<real>, step: real) {
    forall j :: 0 <= j < |f| ==> f[j] in inputs || (j > 0 && f[j] == f[j - 1] + step)
  }

  /** Gluing two lists keeps the property, since the second list's first
      station must itself be an input. */
  lemma InputOrStrideJoin(x: seq<real>, y: seq<real>, inputs: seq<real>, step: real)
    requires InputOrStride(x, inputs, step) && InputOrStride(y, inputs, step)
    ensures InputOrStride(x + y, inputs, step)
  {
    var r := x + y;
    forall j | |x| <= j < |r| ensures r[j] in inputs || (j > 0 && r[j] == r[j - 1] + step) {
      var k := j - |x|;
      assert r[j] == y[k];
      assert y[k] in inputs || (k > 0 && y[k] == y[k - 1] + step);
      assert k > 0 ==> r[j - 1] == y[k - 1];
    }
  }

  /** More inputs keep the property. */
  lemma InputOrStrideWiden(x: seq<real>, inputs: seq<real>, more: seq<real>, step: real)
    requires InputOrStride(x, inputs, step)
    requires forall v :: v in inputs ==> v in more
    ensures InputOrStride(x, more, step)
  {
  }

  /** A gap's left end followed by its inserted chain consists of the left end
      and strides. */
  lemma ChainOrigin(c: real, g: seq<real>, b: real, inputs: seq<real>, step: real, tolerance: real)
    requires AnchoredChain(g, c, b, step, tolerance) && c in inputs
    ensures InputOrStride([c] + g, inputs, step)
  {
    var r := [c] + g;
    assert r[0] == c;
    forall j | 0 < j < |r| ensures r[j] == r[j - 1] + step {
      var i := j - 1;
      assert 0 <= i < |g|;
      assert r[j] == g[i];
      assert g[i] == (if i == 0 then c else g[i - 1]) + step;
      if j == 1 {
        assert r[0] == c;
      } else {
        assert r[j - 1] == g[j - 2];
      }
    }
  }

  /** The filler invents no station other than a stride after its left neighbour. */
  lemma {:induction false} FilledFromOrigin(c: real, rest: seq<real>, step: real, tolerance: real)
    requires step > 0.0 && tolerance >= 0.0
    ensures InputOrStride(FilledFrom(c, rest, step, tolerance), [c] + rest, step)
    decreases |rest|
  {
    var inputs := [c] + rest;
    if rest == [] {
      assert FilledFrom(c, rest, step, tolerance) == [c];
    } else {
      var n := rest[0];
      var g := FillGap(c, n, step, tolerance);
      var tail := FilledFrom(n, rest[1..], step, tolerance);
      FilledFromOrigin(n, rest[1..], step, tolerance);
      assert [n] + rest[1..] == rest;
      InputOrStrideWiden(tail, rest, inputs, step);
      FillGapChain(c, n, step, tolerance);
      ChainOrigin(c, g, n, inputs, step, tolerance);
      InputOrStrideJoin([c] + g, tail, inputs, step);
      assert FilledFrom(c, rest, step, tolerance) == [c] + g + tail;
    }
  }

  /** Every station of the filled list is an input station or a stride after
      the station before it. */
  lemma FilledOrigin(s: seq<real>, step: real, tolerance: real)
    requires step > 0.0 && tolerance >= 0.0
    ensures InputOrStride(Filled(s, step, tolerance), s, step)
  {
    if s != [] {
      assert s == [s[0]] + s[1..];
      FilledFromOrigin(s[0], s[1..], step, tolerance);
    }
  }

  /** Running the gap filler a second time changes nothing. */
  lemma FilledIdempotent(s: seq<real>, step: real, tolerance: real)
    requires step > 0.0 && tolerance >= 0.0
    requires Sorted(s) && s != []
    ensures Filled(Filled(s, step, tolerance), step, tolerance) == Filled(s, step, tolerance)
  {
    var f := Filled(s, step, tolerance);
    FilledProperties(s, step, tolerance);
    assert f == [f[0]] + f[1..];
    FilledFromIdentity(f[0], f[1..], step, tolerance);
  }

  /** One more gap examined with an insertion: the filled list from `c` is `c`
      followed by the filled list from `c + step`. */
  lemma FilledFromInsert(c: real, rest: seq<real>, step: real, tolerance: real)
    requires step > 0.0 && tolerance >= 0.0
    requires rest != [] && rest[0] - c > step + tolerance
    ensures FilledFrom(c, rest, step, tolerance) == [c] + FilledFrom(c + step, rest, step, tolerance)
  {
  }

  /** One more gap examined without an insertion. */
  lemma FilledFromAdvance(c: real, rest: seq<real>, step: real, tolerance: real)
    requires step > 0.0 && tolerance >= 0.0
    requires rest != [] && rest[0] - c <= step + tolerance
    ensures FilledFrom(c, rest, step, tolerance) == [c] + FilledFrom(rest[0], rest[1..], step, tolerance)
  {
  }

  /** `list.append(x)` followed by `list.sort()`. */
  method AppendAndSort(s: seq<real>, x: real) returns (t: seq<real>)
    ensures Sorted(t) && multiset(t) == multiset(s + [x])
  {
    t := Sort(s + [x]);
  }

  /** An ascending permutation of `r + [x]`, where `r[i] <= x <= r[i+1]`, has `x`
      right after position `i` and `r`'s slices on either side of it. */
  lemma PlacedAfter(r: seq<real>, i: nat, x: real, t: seq<real>)
    requires Sorted(r) && i + 1 < |r| && r[i] <= x <= r[i + 1]
    requires Sorted(t) && multiset(t) == multiset(r + [x])
    ensures |t| == |r| + 1 && t[..i + 1] == r[..i + 1] && t[i + 1] == x
    ensures t[i + 2..] == r[i + 1..] && t[|t| - 1] == r[|r| - 1]
  {
    var placed := r[..i + 1] + [x] + r[i + 1..];
    PlaceAfterSorted(r, i, x);
    PlaceAfterPermutes(r, i, x);
    SortedPermutationUnique(t, placed);
    assert placed[i + 2..] == r[i + 1..];
  }

  /** What the loop has still to do from position `i` of `r`: `target` is the
      stations already passed followed by the filled list from `r[i]`. */
  ghost predicate Pending(target: seq<real>, r: seq<real>, i: nat, step: real, tolerance: real)
    requires step > 0.0 && tolerance >= 0.0
  {
    i < |r| && target == r[..i] + FilledFrom(r[i], r[i + 1..], step, tolerance)
  }

  /** The loop step that inserts `x == r[i] + step` after position `i` keeps the
      pending work in step, given where `r`'s slices land in the new list `t`. */
  lemma InsertKeepsPending(target: seq<real>, r: seq<real>, i: nat, t: seq<real>, step: real, tolerance: real)
    requires step > 0.0 && tolerance >= 0.0
    requires Pending(target, r, i, step, tolerance) && i + 1 < |r|
    requires r[i + 1] - r[i] > step + tolerance
    requires i + 1 < |t| && t[..i + 1] == r[..i + 1] && t[i + 1] == r[i] + step && t[i + 2..] == r[i + 1..]
    ensures Pending(target, t, i + 1, step, tolerance)
  {
    FilledFromInsert(r[i], r[i + 1..], step, tolerance);
    assert r[..i + 1] == r[..i] + [r[i]];
  }

  /** One stride less remains once a stride has been taken. */
  lemma StepsToCoverStride(d: real, step: real)
    requires step > 0.0 && d > 0.0
    ensures StepsToCover(d - step, step) < StepsToCover(d, step)
  {
  }

  /** The loop step that inserts `r[i] + step`: `t` is the list re-sorted after
      the append, the pending work is kept in step and fewer strides remain to
      the last station. */
  lemma InsertStep(target: seq<real>, r: seq<real>, i: nat, t: seq<real>, step: real, tolerance: real)
    requires step > 0.0 && tolerance >= 0.0
    requires Sorted(r) && Pending(target, r, i, step, tolerance) && i + 1 < |r|
    requires r[i + 1] - r[i] > step + tolerance
    requires Sorted(t) && multiset(t) == multiset(r + [r[i] + step])
    ensures i + 1 < |t| && t[|t| - 1] == r[|r| - 1]
    ensures Pending(target, t, i + 1, step, tolerance)
    ensures StepsToCover(t[|t| - 1] - t[i + 1], step) < StepsToCover(r[|r| - 1] - r[i], step)
  {
    var x, last := r[i] + step, r[|r| - 1];
    assert r[i + 1] <= last;
    PlacedAfter(r, i, x, t);
    InsertKeepsPending(target, r, i, t, step, tolerance);
    StepsToCoverStride(last - r[i], step);
    assert last - x == (last - r[i]) - step;
  }

  /** The loop step that moves on to the next station: the pending work is kept
      in step and no more strides remain to the last station. */
  lemma AdvanceStep(target: seq<real>, r: seq<real>, i: nat, step: real, tolerance: real)
    requires step > 0.0 && tolerance >= 0.0
    requires Sorted(r) && Pending(target, r, i, step, tolerance) && i + 1 < |r|
    requires r[i + 1] - r[i] <= step + tolerance
    ensures Pending(target, r, i + 1, step, tolerance)
    ensures StepsToCover(r[|r| - 1] - r[i + 1], step) <= StepsToCover(r[|r| - 1] - r[i], step)
  {
    var rest := r[i + 1..];
    assert rest[0] == r[i + 1] && rest[1..] == r[i + 2..];
    FilledFromAdvance(r[i], rest, step, tolerance);
    assert r[..i + 1] == r[..i] + [r[i]];
    StepsToCoverMonotone(r[|r| - 1] - r[i + 1], r[|r| - 1] - r[i], step);
  }

  /** Before the loop, all the work is pending: the target is the filled list. */
  lemma StartPending(stations: seq<real>, step: real, tolerance: real) returns (target: seq<real>)
    requires step > 0.0 && tolerance >= 0.0 && stations != []
    ensures Pending(target, stations, 0, step, tolerance)
  {
    target := Filled(stations, step, tolerance);
  }

  /** When the loop reaches the last station, the list is the filled list. */
  lemma FillGapsDone(stations: seq<real>, target: seq<real>, r: seq<real>, step: real, tolerance: real)
    requires step > 0.0 && tolerance >= 0.0
    requires Sorted(stations) && stations != [] && r != []
    requires Pending(target, stations, 0, step, tolerance)
    requires Pending(target, r, |r| - 1, step, tolerance)
    ensures r == Filled(stations, step, tolerance)
    ensures Sorted(r) && GapsWithin(r, step + tolerance)
    ensures r[0] == stations[0] && r[|r| - 1] == stations[|stations| - 1]
    ensures multiset(stations) <= multiset(r)
  {
    assert r == Filled(stations, step, tolerance) by {
      var last := r[|r| - 1];
      assert r[|r| - 1 + 1..] == [];
      assert FilledFrom(last, [], step, tolerance) == [last];
      assert r == r[..|r| - 1] + [last];
      assert stations[..0] == [];
    }
    FilledProperties(stations, step, tolerance);
  }

  /** One pass of the loop body (lines 102-108) at position `i`: insert
      `r[i] + step` and re-sort when the next station is too far, then move on. */
  method FillStep(r: seq<real>, i: nat, step: real, tolerance: real, ghost target: seq<real>) returns (r': seq<real>)
    requires step > 0.0 && tolerance >= 0.0
    requires Sorted(r) && i + 1 < |r| && Pending(target, r, i, step, tolerance)
    ensures Sorted(r') && i + 1 < |r'| && r'[|r'| - 1] == r[|r| - 1]
    ensures Pending(target, r', i + 1, step, tolerance)
    ensures var before, after := StepsToCover(r[|r| - 1] - r[i], step), StepsToCover(r'[|r'| - 1] - r'[i + 1], step);
      after < before || (after == before && |r'| == |r|)
  {
    var prevStation := r[i];
    var nextStation := r[i + 1];
    if nextStation - prevStation > step + tolerance {
      r' := AppendAndSort(r, prevStation + step);
      InsertStep(target, r, i, r', step, tolerance);
    } else {
      r' := r;
      AdvanceStep(target, r, i, step, tolerance);
    }
  }

  /** The interpolation loop of lines 101-108, over the list sorted at line 97. */
  method FillGaps(stations: seq<real>, step: real, tolerance: real) returns (r: seq<real>)
    requires step > 0.0 && tolerance >= 0.0
    requires Sorted(stations) && stations != []
    ensures r == Filled(stations, step, tolerance)
    ensures Sorted(r) && GapsWithin(r, step + tolerance)
    ensures r[0] == stations[0] && r[|r| - 1] == stations[|stations| - 1]
    ensures multiset(stations) <= multiset(r)
  {
    ghost var target := StartPending(stations, step, tolerance);
    r := stations;
    var i := 0;
    while i != |r| - 1
      invariant 0 <= i < |r|
      invariant Sorted(r)
      invariant r[|r| - 1] == stations[|stations| - 1]
      invariant Pending(target, r, i, step, tolerance)
      decreases StepsToCover(r[|r| - 1] - r[i], step), |r| - 1 - i
    {
      r := FillStep(r, i, step, tolerance, target);
      i := i + 1;
    }
    FillGapsDone(stations, target, r, step, tolerance);
  }
}
