/** The client's two ways to ask for flags: one flag by key, or all of them. */
module FlagClient {
  import opened Wrappers
  import opened FeatureFlags

  /** A loaded flag. groupIndex: the flag is evaluated for a group instead of a person. */
  datatype LoadedFlag = LoadedFlag(flag: Flag, continuity: bool, active: bool, groupIndex: Option<int>)

  /** Whom and what a flag is asked for. */
  datatype Query = Query(
    distinctId: string,
    groups: map<string, string>,
    personProperties: Properties,
    groupProperties: map<string, Properties>)

  function ComputeFlagLocally(lib: Library, groupTypes: map<int, string>, f: LoadedFlag, q: Query): Verdict {
    if f.continuity then Undecided
    else if !f.active then Decided(Off)
    else if f.groupIndex.None? then EvaluateFlag(lib, f.flag, q.distinctId, q.personProperties)
    else if f.groupIndex.value !in groupTypes || groupTypes[f.groupIndex.value] == "" then Undecided
    else
      var group := groupTypes[f.groupIndex.value];
      if group !in q.groups then Decided(Off)
      else if group !in q.groupProperties then Raised
      else EvaluateFlag(lib, f.flag, q.groups[group], q.groupProperties[group])
  }

  /** The verdict on every loaded flag, with its key. */
  datatype Keyed = Keyed(key: string, verdict: Verdict)

  function Verdicts(lib: Library, groupTypes: map<int, string>, flags: seq<LoadedFlag>, q: Query): seq<Keyed> {
    seq(|flags|, i requires 0 <= i < |flags| =>
      Keyed(flags[i].flag.key, ComputeFlagLocally(lib, groupTypes, flags[i], q)))
  }

  // ----- specification -----

  /** The last definite answer for a key; several flags may share one. */
  function LocalAnswer(vs: seq<Keyed>, key: string): Option<Answer>
    decreases |vs|
  {
    if vs == [] then None else
    var last := vs[|vs| - 1];
    if last.key == key && last.verdict.Decided? then Some(last.verdict.answer) else LocalAnswer(vs[..|vs| - 1], key)
  }

  /** Some flag has to be asked for elsewhere. */
  predicate NeedsFallback(vs: seq<Keyed>) {
    vs == [] || exists i | 0 <= i < |vs| :: !vs[i].verdict.Decided?
  }

  function Lookup(answers: map<string, Answer>, key: string): Option<Answer> {
    if key in answers then Some(answers[key]) else None
  }

  /** The answer to a question for one flag; remote is what the server would say, if it could be asked. */
  function OneAnswer(vs: seq<Keyed>, key: string, onlyLocally: bool, remote: Option<map<string, Answer>>)
    : Option<Answer>
  {
    var here := LocalAnswer(vs, key);
    if here.Some? || onlyLocally || remote.None? then here else Some(Lookup(remote.value, key).GetOr(Off))
  }

  /** What the answer to a question for all flags says about one. */
  function AllAnswer(vs: seq<Keyed>, key: string, onlyLocally: bool, remote: Option<map<string, Answer>>)
    : Option<Answer>
  {
    if NeedsFallback(vs) && !onlyLocally && remote.Some? && key in remote.value then Some(remote.value[key])
    else LocalAnswer(vs, key)
  }

  // ----- what a verdict is -----

  /** A flag that is kept for users across identification, and an active flag for a type of group that is not
      known, are never decided here. */
  lemma NeverDecidedHere(lib: Library, groupTypes: map<int, string>, f: LoadedFlag, q: Query)
    requires f.continuity || (f.active && UnknownGroupType(groupTypes, f))
    ensures ComputeFlagLocally(lib, groupTypes, f, q) == Undecided
  {
  }

  predicate UnknownGroupType(groupTypes: map<int, string>, f: LoadedFlag) {
    f.groupIndex.Some? && (f.groupIndex.value !in groupTypes || groupTypes[f.groupIndex.value] == "")
  }

  /** The flag is for a known type of group, and no such group was passed. */
  predicate GroupNotPassed(groupTypes: map<int, string>, f: LoadedFlag, q: Query) {
    f.groupIndex.Some? && !UnknownGroupType(groupTypes, f) && groupTypes[f.groupIndex.value] !in q.groups
  }

  /** Otherwise an inactive flag is off for everybody, whatever its conditions; and so is a group flag for who
      passes no such group. */
  lemma OffForEverybody(lib: Library, groupTypes: map<int, string>, f: LoadedFlag, q: Query)
    requires !f.continuity && (!f.active || GroupNotPassed(groupTypes, f, q))
    ensures ComputeFlagLocally(lib, groupTypes, f, q) == Decided(Off)
  {
  }

  /** An active flag is evaluated for the person and with the person's properties, unless it is for a group;
      then it is what it would be for a person with the group's key and properties. */
  lemma EvaluatedForWhom(lib: Library, groupTypes: map<int, string>, f: LoadedFlag, q: Query)
    requires f.active && !f.continuity
    ensures f.groupIndex.None? ==>
              ComputeFlagLocally(lib, groupTypes, f, q) == EvaluateFlag(lib, f.flag, q.distinctId, q.personProperties)
    ensures f.groupIndex.Some? && !UnknownGroupType(groupTypes, f) && !GroupNotPassed(groupTypes, f, q) ==>
              var group := groupTypes[f.groupIndex.value];
              ComputeFlagLocally(lib, groupTypes, f, q) ==
              if group !in q.groupProperties then Raised
              else ComputeFlagLocally(lib, groupTypes, f.(groupIndex := None),
                     q.(distinctId := q.groups[group], personProperties := q.groupProperties[group]))
  {
  }

  /** So a group flag does not depend on the person, and a person flag not on the groups. */
  lemma IndependentOfOthers(lib: Library, groupTypes: map<int, string>, f: LoadedFlag, q: Query, other: Query)
    requires if f.groupIndex.Some? then q.groups == other.groups && q.groupProperties == other.groupProperties
             else q.distinctId == other.distinctId && q.personProperties == other.personProperties
    ensures ComputeFlagLocally(lib, groupTypes, f, q) == ComputeFlagLocally(lib, groupTypes, f, other)
  {
  }

  /** The i-th of the loaded flags is the only one with this key. */
  predicate Sole(flags: seq<LoadedFlag>, key: string, i: nat) {
    && i < |flags| && flags[i].flag.key == key
    && forall j | 0 <= j < |flags| :: flags[j].flag.key == key ==> j == i
  }

  /** The i-th verdict is the last definite one for the key. */
  predicate LastDefinite(vs: seq<Keyed>, key: string, i: nat) {
    && i < |vs| && vs[i].key == key && vs[i].verdict.Decided?
    && forall j | i < j < |vs| :: vs[j].key == key ==> !vs[j].verdict.Decided?
  }

  lemma {:induction false} LastDefiniteCounts(vs: seq<Keyed>, key: string, i: nat)
    requires LastDefinite(vs, key, i)
    ensures LocalAnswer(vs, key) == Some(vs[i].verdict.answer)
    decreases |vs|
  {
    if i == |vs| - 1 {
    } else {
      var init := vs[..|vs| - 1];
      assert vs[|vs| - 1].key == key ==> !vs[|vs| - 1].verdict.Decided?;
      assert forall j | i < j < |init| :: init[j] == vs[j];
      LastDefiniteCounts(init, key, i);
    }
  }

  lemma {:induction false} NoneDefinite(vs: seq<Keyed>, key: string)
    requires forall j | 0 <= j < |vs| :: vs[j].key == key ==> !vs[j].verdict.Decided?
    ensures LocalAnswer(vs, key) == None
    decreases |vs|
  {
    if vs == [] {
    } else {
      assert vs[|vs| - 1].key == key ==> !vs[|vs| - 1].verdict.Decided?;
      assert forall j | 0 <= j < |vs| - 1 :: vs[..|vs| - 1][j] == vs[j];
      NoneDefinite(vs[..|vs| - 1], key);
    }
  }

  lemma SoleAnswer(lib: Library, groupTypes: map<int, string>, flags: seq<LoadedFlag>, q: Query, key: string, i: nat)
    requires Sole(flags, key, i)
    ensures var verdict := ComputeFlagLocally(lib, groupTypes, flags[i], q);
            LocalAnswer(Verdicts(lib, groupTypes, flags, q), key) ==
            if verdict.Decided? then Some(verdict.answer) else None
  {
    var vs := Verdicts(lib, groupTypes, flags, q);
    if vs[i].verdict.Decided? {
      assert forall j | i < j < |vs| :: vs[j].key != key;
      LastDefiniteCounts(vs, key, i);
    } else {
      assert forall j | 0 <= j < |vs| :: vs[j].key == key ==> vs[j] == vs[i];
      NoneDefinite(vs, key);
    }
  }

  // ----- do they agree? -----

  predicate IsLoaded(vs: seq<Keyed>, key: string) {
    exists i | 0 <= i < |vs| :: vs[i].key == key
  }

  lemma {:induction false} UndecidedNeedsFallback(vs: seq<Keyed>, key: string)
    requires IsLoaded(vs, key) && LocalAnswer(vs, key).None?
    ensures NeedsFallback(vs)
    decreases |vs|
  {
    var last, init := vs[|vs| - 1], vs[..|vs| - 1];
    if last.key != key {
      var i :| 0 <= i < |vs| && vs[i].key == key;
      assert init[i].key == key;
      UndecidedNeedsFallback(init, key);
      if init != [] {
        var j :| 0 <= j < |init| && !init[j].verdict.Decided?;
        assert !vs[j].verdict.Decided?;
      }
    } else {
      assert !vs[|vs| - 1].verdict.Decided?;
    }
  }

  /** With a given answer of the server, they agree on a loaded key in exactly these cases: the server
      cannot be asked; or the key has a local answer and no flag forces the fallback, or the server does
      not know the key or says the same; or the key has no local answer and the server knows it. */
  lemma AgreeWithServer(vs: seq<Keyed>, key: string, remote: Option<map<string, Answer>>)
    requires IsLoaded(vs, key)
    ensures AllAnswer(vs, key, false, remote) == OneAnswer(vs, key, false, remote) <==>
            || remote.None?
            || (if LocalAnswer(vs, key).Some?
                then !NeedsFallback(vs) || key !in remote.value || Some(remote.value[key]) == LocalAnswer(vs, key)
                else key in remote.value)
  {
    if LocalAnswer(vs, key).None? {
      UndecidedNeedsFallback(vs, key);
    }
  }

  /** An answer of the server that the two ways of asking treat differently. */
  function Disagreeing(vs: seq<Keyed>, key: string): map<string, Answer> {
    match LocalAnswer(vs, key)
    case None => map[]
    case Some(answer) => map[key := if answer.On? then Off else On]
  }

  /** Whatever the server would say, they agree on a loaded key: if and only if all loaded flags can be
      decided locally. */
  lemma AgreeExactly(vs: seq<Keyed>, key: string)
    requires IsLoaded(vs, key)
    ensures (forall remote :: AllAnswer(vs, key, false, remote) == OneAnswer(vs, key, false, remote)) <==>
            !NeedsFallback(vs)
  {
    if NeedsFallback(vs) {
      var remote := Some(Disagreeing(vs, key));
      assert AllAnswer(vs, key, false, remote) != OneAnswer(vs, key, false, remote);
    } else {
      forall remote
        ensures AllAnswer(vs, key, false, remote) == OneAnswer(vs, key, false, remote)
      {
        AgreeWithServer(vs, key, remote);
        if LocalAnswer(vs, key).None? {
          UndecidedNeedsFallback(vs, key);
        }
      }
    }
  }

  /** A flag that is on here and off on the server, beside one that cannot be decided: asked for alone it is
      on, asked for with all others it is off. */
  lemma ServerOverridesAnswer(key: string, other: string)
    requires key != other
    ensures var vs := [Keyed(key, Decided(On)), Keyed(other, Undecided)];
            var remote := Some(map[key := Off]);
            OneAnswer(vs, key, false, remote) == Some(On) && AllAnswer(vs, key, false, remote) == Some(Off)
  {
    var vs := [Keyed(key, Decided(On)), Keyed(other, Undecided)];
    assert vs[..1] == [Keyed(key, Decided(On))];
    assert LocalAnswer(vs, key) == LocalAnswer(vs[..1], key) == Some(On);
    assert !vs[1].verdict.Decided?;
  }

  // ----- the client -----

  class Client {
    var featureFlags: seq<LoadedFlag>
    var groupTypeMapping: map<int, string>

    constructor (featureFlags: seq<LoadedFlag>, groupTypeMapping: map<int, string>)
      ensures this.featureFlags == featureFlags && this.groupTypeMapping == groupTypeMapping
    {
      this.featureFlags, this.groupTypeMapping := featureFlags, groupTypeMapping;
    }

    method GetFeatureFlag(lib: Library, key: string, q: Query, onlyLocally: bool, remote: Option<map<string, Answer>>)
      returns (response: Option<Answer>)
      ensures response == OneAnswer(Verdicts(lib, groupTypeMapping, featureFlags, q), key, onlyLocally, remote)
      ensures var here := LocalAnswer(Verdicts(lib, groupTypeMapping, featureFlags, q), key);
              && (here.Some? || onlyLocally || remote.None? ==> response == here)
              && (here.None? && !onlyLocally && remote.Some? ==>
                    response == Some(if key in remote.value then remote.value[key] else Off))
    {
      response := None;
      ghost var vs := Verdicts(lib, groupTypeMapping, featureFlags, q);
      for i := 0 to |featureFlags|
        invariant response == LocalAnswer(vs[..i], key)
      {
        assert vs[..i + 1][..i] == vs[..i];
        if featureFlags[i].flag.key == key {
          var v := ComputeFlagLocally(lib, groupTypeMapping, featureFlags[i], q);
          if v.Decided? {
            response := Some(v.answer);
          }
        }
      }
      assert vs[..|featureFlags|] == vs;
      if response.None? && !onlyLocally && remote.Some? {
        response := Some(Lookup(remote.value, key).GetOr(Off));
      }
    }

    method GetAllFlags(lib: Library, q: Query, onlyLocally: bool, remote: Option<map<string, Answer>>)
      returns (response: map<string, Answer>)
      ensures var vs := Verdicts(lib, groupTypeMapping, featureFlags, q);
              forall key :: Lookup(response, key) == AllAnswer(vs, key, onlyLocally, remote)
      ensures featureFlags == [] ==> response == if onlyLocally || remote.None? then map[] else remote.value
    {
      response := map[];
      var fallbackToDecide := featureFlags == [];
      ghost var vs := Verdicts(lib, groupTypeMapping, featureFlags, q);
      for i := 0 to |featureFlags|
        invariant forall key :: Lookup(response, key) == LocalAnswer(vs[..i], key)
        invariant featureFlags == [] ==> response == map[]
        invariant fallbackToDecide <==> featureFlags == [] || exists j | 0 <= j < i :: !vs[j].verdict.Decided?
      {
        assert vs[..i + 1][..i] == vs[..i];
        var v := ComputeFlagLocally(lib, groupTypeMapping, featureFlags[i], q);
        assert vs[i].verdict == v;
        if v.Decided? {
          response := response[featureFlags[i].flag.key := v.answer];
        } else {
          fallbackToDecide := true;
        }
      }
      assert vs[..|featureFlags|] == vs;
      if fallbackToDecide && !onlyLocally && remote.Some? {
        assert map[] + remote.value == remote.value;
        response := response + remote.value;
      }
    }

    /** The same question asked in both ways. Evaluated locally, the answers agree on every key; otherwise
        on every loaded key if all loaded flags can be decided. */
    method AskBothWays(lib: Library, key: string, q: Query, onlyLocally: bool, remote: Option<map<string, Answer>>)
      returns (one: Option<Answer>, all: map<string, Answer>)
      ensures var vs := Verdicts(lib, groupTypeMapping, featureFlags, q);
              onlyLocally || (IsLoaded(vs, key) && !NeedsFallback(vs)) ==> one == Lookup(all, key)
    {
      one := GetFeatureFlag(lib, key, q, onlyLocally, remote);
      all := GetAllFlags(lib, q, onlyLocally, remote);
      ghost var vs := Verdicts(lib, groupTypeMapping, featureFlags, q);
      assert Lookup(all, key) == AllAnswer(vs, key, onlyLocally, remote);
      if !onlyLocally && IsLoaded(vs, key) {
        AgreeExactly(vs, key);
      }
    }

    /** Ask for a key that only the i-th flag has, in both ways. */
    method AskForSoleFlag(
      lib: Library, key: string, ghost i: nat, q: Query, onlyLocally: bool, remote: Option<map<string, Answer>>)
      returns (one: Option<Answer>, all: map<string, Answer>)
      requires Sole(featureFlags, key, i)
      // The flag is off, and the server is not asked for it alone.
      ensures var f := featureFlags[i];
              !f.continuity && (!f.active || GroupNotPassed(groupTypeMapping, f, q)) ==>
                && one == Some(Off)
                && (onlyLocally || remote.None? || key !in remote.value ==> Lookup(all, key) == Some(Off))
      // Only the server can answer.
      ensures var f := featureFlags[i];
              f.continuity || (f.active && UnknownGroupType(groupTypeMapping, f)) ==>
                if onlyLocally || remote.None? then one == None && key !in all
                else one == Some(Lookup(remote.value, key).GetOr(Off)) && Lookup(all, key) == Lookup(remote.value, key)
      // The flag is evaluated for the person.
      ensures var f := featureFlags[i];
              var verdict := EvaluateFlag(lib, f.flag, q.distinctId, q.personProperties);
              f.active && !f.continuity && f.groupIndex.None? && verdict.Decided? ==>
                && one == Some(verdict.answer)
                && (onlyLocally || remote.None? || key !in remote.value ==> Lookup(all, key) == Some(verdict.answer))
    {
      one := GetFeatureFlag(lib, key, q, onlyLocally, remote);
      all := GetAllFlags(lib, q, onlyLocally, remote);
      ghost var f, vs := featureFlags[i], Verdicts(lib, groupTypeMapping, featureFlags, q);
      SoleAnswer(lib, groupTypeMapping, featureFlags, q, key, i);
      assert Lookup(all, key) == AllAnswer(vs, key, onlyLocally, remote);
      assert vs[i].key == key && vs[i].verdict == ComputeFlagLocally(lib, groupTypeMapping, f, q);
      if f.continuity || (f.active && UnknownGroupType(groupTypeMapping, f)) {
        NeverDecidedHere(lib, groupTypeMapping, f, q);
        UndecidedNeedsFallback(vs, key);
      } else if !f.active || GroupNotPassed(groupTypeMapping, f, q) {
        OffForEverybody(lib, groupTypeMapping, f, q);
      } else {
        EvaluatedForWhom(lib, groupTypeMapping, f, q);
      }
    }
  }
}
