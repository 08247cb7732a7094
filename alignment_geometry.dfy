/** Alignment geometry: flattening the host's alignment entities into primitive
    parts, the station-keyed entity dictionary, its ascending iteration order and
    the exact end-to-start continuity check (measureAlignment.py lines 36-67). */
module AlignmentGeometry {
  import opened Wrappers
  import opened StationLists

  datatype PrimitiveKind = Tangent | Arc | Spiral

  /** A tangent, arc or spiral with its starting and ending station. */
  datatype Primitive = Primitive(kind: PrimitiveKind, startStation: real, endStation: real)

  /** An entity of the alignment as the host reports it: a primitive, one of the
      six composite groups (named after the host's `aecc…Group` types and holding
      their parts under the host's property names),
      or an entity of some other type, which the script ignores. */
  datatype Entity =
    | Single(part: Primitive)
    | SpiralCurveSpiralGroup(spiralIn: Primitive, arc: Primitive, spiralOut: Primitive)
    | SpiralTangentSpiralGroup(spiralIn: Primitive, tangent: Primitive, spiralOut: Primitive)
    | SpiralTangentGroup(spiralIn: Primitive, tangentOut: Primitive)
    | TangentSpiralGroup(tangentIn: Primitive, spiralOut: Primitive)
    | SpiralCurveGroup(spiralIn: Primitive, arcOut: Primitive)
    | TCurveSpiralGroup(arcIn: Primitive, spiralOut: Primitive)
    | Unrecognised

  /** The primitive parts of one entity, in the order the script stores them. */
  function Parts(e: Entity): seq<Primitive> {
    match e
    case Single(p) => [p]
    case SpiralCurveSpiralGroup(si, a, so) => [si, a, so]
    case SpiralTangentSpiralGroup(si, t, so) => [si, t, so]
    case SpiralTangentGroup(si, t) => [si, t]
    case TangentSpiralGroup(t, so) => [t, so]
    case SpiralCurveGroup(si, a) => [si, a]
    case TCurveSpiralGroup(a, so) => [a, so]
    case Unrecognised => []
  }

  /** All parts of a list of entities, in traversal order. */
  function Flatten(es: seq<Entity>): (ps: seq<Primitive>)
  {
    if es == [] then [] else Flatten(es[..|es| - 1]) + Parts(es[|es| - 1])
  }

  /** Flattening one more entity appends its parts. */
  lemma FlattenStep(es: seq<Entity>, n: nat)
    requires n < |es|
    ensures Flatten(es[..n + 1]) == Flatten(es[..n]) + Parts(es[n])
  {
    assert es[..n + 1][..n] == es[..n];
  }

  /** The dictionary after `entities[p.StartingStation] = p` for each `p` of `ps` in turn. */
  function Record(m: map<real, Primitive>, ps: seq<Primitive>): map<real, Primitive>
    decreases ps
  {
    if ps == [] then m else Record(m[ps[0].startStation := ps[0]], ps[1..])
  }

  /** The entity dictionary the script builds from the alignment's entities. */
  function EntityMap(es: seq<Entity>): map<real, Primitive> {
    Record(map[], Flatten(es))
  }

  /** Recording two lists one after the other is recording their concatenation. */
  lemma {:induction false} RecordAppend(m: map<real, Primitive>, ps: seq<Primitive>, qs: seq<Primitive>)
    ensures Record(m, ps + qs) == Record(Record(m, ps), qs)
    decreases ps
  {
    if ps == [] {
      assert ps + qs == qs;
    }
    if ps != [] {
      assert (ps + qs)[1..] == ps[1..] + qs;
      RecordAppend(m[ps[0].startStation := ps[0]], ps[1..], qs);
    }
  }

  /** A key of the dictionary after recording `ps` is a key that was there already
      or the starting station of some part; the value under it is the last part
      recorded with that starting station, or the old value if there is none. */
  lemma {:induction false} RecordLastWriterWins(m: map<real, Primitive>, ps: seq<Primitive>, k: real)
    ensures k in Record(m, ps) <==> k in m || exists i :: 0 <= i < |ps| && ps[i].startStation == k
    ensures (forall i :: 0 <= i < |ps| ==> ps[i].startStation != k) && k in m ==> Record(m, ps)[k] == m[k]
    ensures forall i :: (0 <= i < |ps| && ps[i].startStation == k &&
                         (forall j :: i < j < |ps| ==> ps[j].startStation != k)) ==>
                        Record(m, ps)[k] == ps[i]
    decreases ps
  {
    if ps != [] {
      var m' := m[ps[0].startStation := ps[0]];
      RecordLastWriterWins(m', ps[1..], k);
      forall i | 1 <= i < |ps| ensures ps[i] == ps[1..][i - 1] { }
      if exists i :: 0 <= i < |ps[1..]| && ps[1..][i].startStation == k {
        var i :| 0 <= i < |ps[1..]| && ps[1..][i].startStation == k;
        assert ps[i + 1].startStation == k;
      }
    }
  }

  /** What flattening promises: the dictionary's keys are exactly the starting
      stations of the parts of recognised entities, each part is stored under its
      own starting station, and a later part with the same starting station
      replaces an earlier one. */
  lemma EntityMapContents(es: seq<Entity>)
    ensures forall k :: k in EntityMap(es) <==> exists p :: p in Flatten(es) && p.startStation == k
    ensures forall k :: k in EntityMap(es) ==> EntityMap(es)[k].startStation == k && EntityMap(es)[k] in Flatten(es)
    ensures forall i :: (0 <= i < |Flatten(es)| &&
                         (forall j :: i < j < |Flatten(es)| ==> Flatten(es)[j].startStation != Flatten(es)[i].startStation)) ==>
                        Flatten(es)[i].startStation in EntityMap(es) &&
                        EntityMap(es)[Flatten(es)[i].startStation] == Flatten(es)[i]
  {
    var ps := Flatten(es);
    forall k ensures k in EntityMap(es) <==> exists i :: 0 <= i < |ps| && ps[i].startStation == k {
      RecordLastWriterWins(map[], ps, k);
    }
    forall k | k in EntityMap(es)
      ensures EntityMap(es)[k].startStation == k && EntityMap(es)[k] in ps
    {
      RecordLastWriterWins(map[], ps, k);
      var i :| 0 <= i < |ps| && ps[i].startStation == k;
      var last := LastWithStart(ps, k, i);
      assert EntityMap(es)[k] == ps[last];
    }
    forall i | 0 <= i < |ps| && (forall j :: i < j < |ps| ==> ps[j].startStation != ps[i].startStation)
      ensures EntityMap(es)[ps[i].startStation] == ps[i]
    {
      RecordLastWriterWins(map[], ps, ps[i].startStation);
    }
  }

  /** The index of the last part starting at `k`, given that some part at or after `i` does. */
  lemma LastWithStart(ps: seq<Primitive>, k: real, i: nat) returns (last: nat)
    requires i < |ps| && ps[i].startStation == k
    ensures last < |ps| && ps[last].startStation == k
    ensures forall j :: last < j < |ps| ==> ps[j].startStation != k
    decreases |ps| - i
  {
    if exists j :: i < j < |ps| && ps[j].startStation == k {
      var j :| i < j < |ps| && ps[j].startStation == k;
      last := LastWithStart(ps, k, j);
    } else {
      last := i;
    }
  }

  /** Recording up to three parts is the same as storing them one by one. */
  lemma RecordFew(m: map<real, Primitive>, ps: seq<Primitive>)
    ensures |ps| == 0 ==> Record(m, ps) == m
    ensures |ps| == 1 ==> Record(m, ps) == m[ps[0].startStation := ps[0]]
    ensures |ps| == 2 ==> Record(m, ps) == m[ps[0].startStation := ps[0]][ps[1].startStation := ps[1]]
    ensures |ps| == 3 ==>
      Record(m, ps) == m[ps[0].startStation := ps[0]][ps[1].startStation := ps[1]][ps[2].startStation := ps[2]]
  {
    if |ps| >= 1 {
      var m1 := m[ps[0].startStation := ps[0]];
      assert Record(m, ps) == Record(m1, ps[1..]);
      if |ps| >= 2 {
        var m2 := m1[ps[1].startStation := ps[1]];
        assert ps[1..][1..] == ps[2..];
        assert Record(m1, ps[1..]) == Record(m2, ps[2..]);
        if |ps| == 3 {
          var m3 := m2[ps[2].startStation := ps[2]];
          assert ps[2..][1..] == [];
          assert Record(m2, ps[2..]) == Record(m3, []);
        }
      }
    }
  }

  /** The dictionary-filling loop of the script (lines 36-59): each recognised
      entity stores its parts under their starting stations, in the order the
      script assigns them. */
  method CollectEntities(es: seq<Entity>) returns (entities: map<real, Primitive>)
    ensures entities == EntityMap(es)
    ensures forall k :: k in entities ==> entities[k].startStation == k
  {
    entities := map[];
    for n := 0 to |es|
      invariant entities == Record(map[], Flatten(es[..n]))
    {
      var ent := es[n];
      ghost var before := entities;
      match ent {
        case Single(p) =>
          entities := entities[p.startStation := p];
        case SpiralCurveSpiralGroup(si, a, so) =>
          entities := entities[si.startStation := si];
          entities := entities[a.startStation := a];
          entities := entities[so.startStation := so];
        case SpiralTangentSpiralGroup(si, t, so) =>
          entities := entities[si.startStation := si];
          entities := entities[t.startStation := t];
          entities := entities[so.startStation := so];
        case SpiralTangentGroup(si, t) =>
          entities := entities[si.startStation := si];
          entities := entities[t.startStation := t];
        case TangentSpiralGroup(t, so) =>
          entities := entities[t.startStation := t];
          entities := entities[so.startStation := so];
        case SpiralCurveGroup(si, a) =>
          entities := entities[si.startStation := si];
          entities := entities[a.startStation := a];
        case TCurveSpiralGroup(a, so) =>
          entities := entities[a.startStation := a];
          entities := entities[so.startStation := so];
        case Unrecognised =>
      }
      RecordFew(before, Parts(ent));
      assert entities == Record(before, Parts(ent));
      FlattenStep(es, n);
      RecordAppend(map[], Flatten(es[..n]), Parts(ent));
    }
    assert es[..|es|] == es;
    EntityMapContents(es);
  }

  /** `OrderedDict(sorted(entities.items(), key=...))` followed by `keys()` and
      `values()` (lines 62, 65, 70): the keys in strictly ascending order and the
      entity stored under each. */
  method OrderEntities(entities: map<real, Primitive>) returns (keys: seq<real>, values: seq<Primitive>)
    ensures StrictlyAscending(keys)
    ensures forall k :: k in keys <==> k in entities
    ensures |values| == |keys|
    ensures forall i :: 0 <= i < |keys| ==> keys[i] in entities && values[i] == entities[keys[i]]
  {
    keys, values := [], [];
    var remaining := entities.Keys;
    while remaining != {}
      invariant remaining <= entities.Keys
      invariant StrictlyAscending(keys)
      invariant |values| == |keys|
      invariant forall i :: 0 <= i < |keys| ==> keys[i] in entities && keys[i] !in remaining
      invariant forall i :: 0 <= i < |keys| ==> values[i] == entities[keys[i]]
      invariant forall k :: k in entities && k !in remaining ==> k in keys
      invariant forall i, k :: 0 <= i < |keys| && k in remaining ==> keys[i] < k
      decreases remaining
    {
      ghost var least := Least(remaining);
      var k :| k in remaining && forall j :: j in remaining ==> k <= j;
      AscendingStep(keys, remaining, k);
      keys, values := keys + [k], values + [entities[k]];
      remaining := remaining - {k};
    }
  }

  /** Appending the least of the remaining keys keeps the key list strictly
      ascending and below every key still remaining. */
  lemma AscendingStep(keys: seq<real>, remaining: set<real>, k: real)
    requires StrictlyAscending(keys)
    requires forall i, j :: 0 <= i < |keys| && j in remaining ==> keys[i] < j
    requires k in remaining && forall j :: j in remaining ==> k <= j
    ensures StrictlyAscending(keys + [k])
    ensures forall i, j :: 0 <= i < |keys + [k]| && j in remaining - {k} ==> (keys + [k])[i] < j
  {
    var t := keys + [k];
    forall i, j | 0 <= i < |t| && j in remaining - {k} ensures t[i] < j {
      if i < |keys| {
        assert t[i] == keys[i];
      }
    }
  }

  /** Each part ends exactly where the next one starts. */
  predicate Continuous(parts: seq<Primitive>) {
    forall i :: 0 <= i < |parts| - 1 ==> parts[i].endStation == parts[i + 1].startStation
  }

  /** The `assert` loop of lines 65-67: `None` when the check passes, otherwise
      `Some(i)` for the first pair whose exact end-to-start equality fails (the
      place where the script raises `AssertionError`). */
  method CheckContinuity(parts: seq<Primitive>) returns (broken: Option<nat>)
    ensures broken.None? <==> Continuous(parts)
    ensures broken.Some? ==>
      broken.value + 1 < |parts| &&
      parts[broken.value].endStation != parts[broken.value + 1].startStation &&
      Continuous(parts[..broken.value + 1])
  {
    var i := 0;
    while i < |parts| - 1
      invariant 0 <= i <= if |parts| == 0 then 0 else |parts| - 1
      invariant forall j :: 0 <= j < i ==> parts[j].endStation == parts[j + 1].startStation
    {
      if parts[i].endStation != parts[i + 1].startStation {
        return Some(i);
      }
      i := i + 1;
    }
    return None;
  }

  /** `b` directly follows `a` among the dictionary's starting stations. */
  predicate Consecutive(m: map<real, Primitive>, a: real, b: real) {
    a in m && b in m && a < b && forall k :: k in m ==> !(a < k < b)
  }

  /** Ordered by starting station, each entity ends where the next one starts. */
  predicate ChainsUp(m: map<real, Primitive>) {
    forall a, b :: a in m && b in m && Consecutive(m, a, b) ==> m[a].endStation == m[b].startStation
  }

  /** In a strictly ascending list, a smaller value comes at an earlier position. */
  lemma AscendingIndex(keys: seq<real>, p: nat, q: nat)
    requires StrictlyAscending(keys) && p < |keys| && q < |keys|
    ensures keys[p] < keys[q] ==> p < q
    ensures keys[p] <= keys[q] ==> p <= q
  {
  }

  /** In a strictly ascending list of exactly the dictionary's keys, neighbours
      are consecutive keys and consecutive keys are neighbours. */
  lemma OrderedConsecutive(m: map<real, Primitive>, keys: seq<real>, a: real, b: real)
    requires StrictlyAscending(keys)
    requires forall k :: k in keys <==> k in m
    ensures Consecutive(m, a, b) <==> exists i :: 0 <= i < |keys| - 1 && keys[i] == a && keys[i + 1] == b
  {
    if Consecutive(m, a, b) {
      var i :| 0 <= i < |keys| && keys[i] == a;
      var j :| 0 <= j < |keys| && keys[j] == b;
      AscendingIndex(keys, i, j);
      assert keys[i + 1] in m && keys[i] < keys[i + 1];
      AscendingIndex(keys, j, i + 1);
    }
    if exists i :: 0 <= i < |keys| - 1 && keys[i] == a && keys[i + 1] == b {
      var i :| 0 <= i < |keys| - 1 && keys[i] == a && keys[i + 1] == b;
      forall k | k in m ensures !(a < k < b) {
        var j :| 0 <= j < |keys| && keys[j] == k;
        AscendingIndex(keys, i, j);
        assert a < k ==> keys[i + 1] <= keys[j];
      }
    }
  }

  /** The continuity check over the ordered values passes exactly when the
      dictionary chains up. */
  lemma OrderedContinuity(m: map<real, Primitive>, keys: seq<real>, values: seq<Primitive>)
    requires StrictlyAscending(keys)
    requires forall k :: k in keys <==> k in m
    requires |values| == |keys|
    requires forall i :: 0 <= i < |keys| ==> keys[i] in m && values[i] == m[keys[i]]
    ensures Continuous(values) <==> ChainsUp(m)
  {
    if Continuous(values) {
      forall a, b | Consecutive(m, a, b) ensures m[a].endStation == m[b].startStation {
        OrderedConsecutive(m, keys, a, b);
        var i :| 0 <= i < |keys| - 1 && keys[i] == a && keys[i + 1] == b;
        assert values[i].endStation == values[i + 1].startStation;
      }
    }
    if ChainsUp(m) {
      forall i | 0 <= i < |values| - 1 ensures values[i].endStation == values[i + 1].startStation {
        OrderedConsecutive(m, keys, keys[i], keys[i + 1]);
      }
    }
  }
}
