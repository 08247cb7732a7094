/** The proximity audit (measureAlignment.py lines 110-115): after the gap
    filler, every pair of neighbouring stations whose distance is at most
    `TOO_CLOSE` is reported with a warning. Nothing is removed from the list. */
module ProximityAudit {
  import opened StationLists

  /** One warning of line 114: the pair `stations[index]`, `stations[index + 1]`. */
  datatype Warning = TooClose(index: nat, first: real, second: real)

  /** How many neighbouring pairs the audit visits: `range(len(stations) - 1)`. */
  function PairCount(s: seq<real>): (n: nat)
    ensures n == 0 || n + 1 == |s|
    ensures n + 1 >= |s|
  {
    if |s| == 0 then 0 else |s| - 1
  }

  /** The warnings raised for the first `n` neighbouring pairs, in order. */
  function WarningsBefore(s: seq<real>, tooClose: real, n: nat): seq<Warning>
    requires n == 0 || n < |s|
  {
    if n == 0 then
      []
    else
      WarningsBefore(s, tooClose, n - 1)
        + (if Abs(s[n] - s[n - 1]) <= tooClose then [TooClose(n - 1, s[n - 1], s[n])] else [])
  }

  /** The warnings of the whole audit. */
  function Warnings(s: seq<real>, tooClose: real): seq<Warning> {
    WarningsBefore(s, tooClose, PairCount(s))
  }

  /** The neighbouring pair at `i` is at most `tooClose` apart (line 112). */
  predicate TooCloseAt(s: seq<real>, tooClose: real, i: int) {
    0 <= i && i + 1 < |s| && Abs(s[i + 1] - s[i]) <= tooClose
  }

  /** A warning names a close neighbouring pair and carries its two stations. */
  predicate Reports(s: seq<real>, tooClose: real, w: Warning) {
    TooCloseAt(s, tooClose, w.index) && w.first == s[w.index] && w.second == s[w.index + 1]
  }

  /** The warnings `w` name close pairs only, among the first `n`, in station order. */
  predicate SoundAndOrdered(s: seq<real>, tooClose: real, w: seq<Warning>, n: nat) {
    && (forall k :: 0 <= k < |w| ==> Reports(s, tooClose, w[k]) && w[k].index < n)
    && (forall k, l :: 0 <= k < l < |w| ==> w[k].index < w[l].index)
  }

  /** The warnings `w` miss no close pair among the first `n`. */
  predicate Complete(s: seq<real>, tooClose: real, w: seq<Warning>, n: nat) {
    forall i :: 0 <= i < n && TooCloseAt(s, tooClose, i) ==>
      exists k :: 0 <= k < |w| && w[k].index == i
  }

  /** The warnings for the first `n` pairs name close pairs only, among the
      first `n`, in station order. */
  lemma {:induction false} WarningsBeforeSound(s: seq<real>, tooClose: real, n: nat)
    requires n == 0 || n < |s|
    ensures SoundAndOrdered(s, tooClose, WarningsBefore(s, tooClose, n), n)
  {
    if n > 0 {
      var w := WarningsBefore(s, tooClose, n);
      var w' := WarningsBefore(s, tooClose, n - 1);
      WarningsBeforeSound(s, tooClose, n - 1);
      assert forall k :: 0 <= k < |w'| ==> w[k] == w'[k];
    }
  }

  /** The warnings for the first `n` pairs miss no close pair among them. */
  lemma {:induction false} WarningsBeforeComplete(s: seq<real>, tooClose: real, n: nat)
    requires n == 0 || n < |s|
    ensures Complete(s, tooClose, WarningsBefore(s, tooClose, n), n)
  {
    if n > 0 {
      var w := WarningsBefore(s, tooClose, n);
      var w' := WarningsBefore(s, tooClose, n - 1);
      WarningsBeforeComplete(s, tooClose, n - 1);
      forall i | 0 <= i < n && TooCloseAt(s, tooClose, i)
        ensures exists k :: 0 <= k < |w| && w[k].index == i
      {
        if i < n - 1 {
          var k :| 0 <= k < |w'| && w'[k].index == i;
          assert w[k] == w'[k];
        } else {
          assert w[|w| - 1].index == i;
        }
      }
    }
  }

  /** Every warning of the audit names a close pair, in station order, and
      every close pair is warned about. */
  lemma WarningsExact(s: seq<real>, tooClose: real)
    ensures SoundAndOrdered(s, tooClose, Warnings(s, tooClose), PairCount(s))
    ensures Complete(s, tooClose, Warnings(s, tooClose), PairCount(s))
  {
    WarningsBeforeSound(s, tooClose, PairCount(s));
    WarningsBeforeComplete(s, tooClose, PairCount(s));
  }

  /** A list whose first `n` neighbouring pairs are all more than `tooClose`
      apart raises no warning for them. */
  lemma {:induction false} NoWarningsWhenSpread(s: seq<real>, tooClose: real, n: nat)
    requires n == 0 || n < |s|
    requires forall i :: 0 <= i < n ==> !TooCloseAt(s, tooClose, i)
    ensures WarningsBefore(s, tooClose, n) == []
  {
    if n > 0 {
      assert !TooCloseAt(s, tooClose, n - 1);
      NoWarningsWhenSpread(s, tooClose, n - 1);
    }
  }

  /** The loop of lines 111-115: the list is only read; the warnings it prints
      are returned. */
  method Audit(stations: seq<real>, tooClose: real) returns (warnings: seq<Warning>)
    ensures warnings == Warnings(stations, tooClose)
    ensures SoundAndOrdered(stations, tooClose, warnings, PairCount(stations))
    ensures Complete(stations, tooClose, warnings, PairCount(stations))
  {
    warnings := [];
    var pairs := PairCount(stations);
    for i := 0 to pairs
      invariant warnings == WarningsBefore(stations, tooClose, i)
    {
      if Abs(stations[i + 1] - stations[i]) <= tooClose {
        warnings := warnings + [TooClose(i, stations[i], stations[i + 1])];
      }
    }
    WarningsExact(stations, tooClose);
  }
}
