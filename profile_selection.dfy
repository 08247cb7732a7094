/** Choosing the alignment's profile (measureAlignment.py lines 74-84): the only
    profile when there is exactly one; otherwise the user is asked for a
    profile name until an answer names one. The user's answers are the
    parameter `answers`, so a finite run of answers that never names a profile
    ends with no profile, where the source keeps asking. */
module ProfileSelection {
  import opened Wrappers

  /** A vertical profile of the alignment: its name, the stations of its
      points of vertical intersection, and its elevation lookup, which answers
      `None` where Civil 3D raises `COMError`. */
  datatype Profile = Profile(name: string, pviStations: seq<real>, elevationAt: real -> Option<real>)

  /** `dict([(i.Name, i) for i in alignment.Profiles])` (line 78): a later
      profile with the same name replaces an earlier one. */
  function ByName(ps: seq<Profile>): map<string, Profile>
    decreases |ps|
  {
    if ps == [] then map[] else ByName(ps[..|ps| - 1])[ps[|ps| - 1].name := ps[|ps| - 1]]
  }

  /** The names in the dictionary are exactly the profiles' names. */
  lemma {:induction false} ByNameKeys(ps: seq<Profile>, name: string)
    ensures name in ByName(ps) <==> exists i :: 0 <= i < |ps| && ps[i].name == name
    decreases |ps|
  {
    if ps != [] {
      var init := ps[..|ps| - 1];
      ByNameKeys(init, name);
      if exists i :: 0 <= i < |ps| && ps[i].name == name {
        var i :| 0 <= i < |ps| && ps[i].name == name;
        assert i == |ps| - 1 || init[i] == ps[i];
      }
      if exists i :: 0 <= i < |init| && init[i].name == name {
        var i :| 0 <= i < |init| && init[i].name == name;
        assert ps[i] == init[i];
      }
    }
  }

  /** Each name is mapped to the last profile that carries it. */
  lemma {:induction false} ByNameLastWins(ps: seq<Profile>, name: string)
    requires name in ByName(ps)
    ensures exists i :: (0 <= i < |ps| && ByName(ps)[name] == ps[i] && ps[i].name == name
                          && forall j :: i < j < |ps| ==> ps[j].name != name)
    decreases |ps|
  {
    var init, last := ps[..|ps| - 1], ps[|ps| - 1];
    if last.name == name {
      assert ByName(ps)[name] == ps[|ps| - 1];
    } else {
      ByNameLastWins(init, name);
      var i :| 0 <= i < |init| && ByName(init)[name] == init[i]
        && init[i].name == name && (forall j :: i < j < |init| ==> init[j].name != name);
      assert ps[i] == init[i];
    }
  }

  /** Every answer before position `n` fails to name a profile. */
  predicate NoneKnownBefore(answers: seq<string>, table: map<string, Profile>, n: nat) {
    forall j :: 0 <= j < n && j < |answers| ==> answers[j] !in table
  }

  /** The prompt loop of lines 75-84. On success `asked` is the position of the
      accepted answer, so `asked + 1` answers were read; otherwise it is the
      number of answers. */
  method SelectProfile(profiles: seq<Profile>, answers: seq<string>) returns (chosen: Option<Profile>, asked: nat)
    ensures |profiles| == 1 ==> chosen == Some(profiles[0]) && asked == 0
    ensures |profiles| != 1 ==>
      (chosen.Some? <==> (exists i :: 0 <= i < |answers| && answers[i] in ByName(profiles)))
    ensures |profiles| != 1 && chosen.Some? ==>
      && asked < |answers| && answers[asked] in ByName(profiles)
      && chosen.value == ByName(profiles)[answers[asked]]
      && NoneKnownBefore(answers, ByName(profiles), asked)
    ensures chosen.Some? ==> exists i :: 0 <= i < |profiles| && chosen.value == profiles[i]
    ensures profiles == [] ==> chosen.None?
  {
    if |profiles| == 1 {
      return Some(profiles[0]), 0;
    }
    var table := ByName(profiles);
    asked := 0;
    while asked < |answers|
      invariant asked <= |answers|
      invariant NoneKnownBefore(answers, table, asked)
    {
      var answer := answers[asked];
      if answer in table {
        chosen := Some(table[answer]);
        ByNameLastWins(profiles, answer);
        return;
      }
      asked := asked + 1;
    }
    chosen := None;
  }
}
