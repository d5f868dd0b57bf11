/**
 * The variable diff of `PreReleaseHook.migrateEnvironmentVariables` and
 * `PreReleaseHook.migrateRepositoryVariables` (src/pre-release-hook.ts).
 * The remote calls are returned as records, in the order the code issues
 * them, instead of being sent.
 */
module VariableDiff {
  import opened Wrappers
  import opened Lodash

  /** A deployment or pipeline variable as the API lists it; a secured variable comes back without a value. */
  datatype Variable = Variable(key: string, value: Option<string>, secured: bool, uuid: string)

  /** `createDeploymentVariable(slug, env, key, value, secured)`. */
  datatype CreateCall = CreateVariable(key: string, value: string, secured: bool)

  /** `updateDeploymentVariable(slug, env, uuid, key, value, secured)`. */
  datatype UpdateCall = UpdateVariable(uuid: string, key: string, value: string, secured: bool)

  /** `deleteDeploymentVariable(slug, env, uuid)`. */
  datatype DeleteCall = DeleteVariable(uuid: string)

  /** The three batches `migrateEnvironmentVariables` issues, one after the other. */
  datatype Plan = Plan(creates: seq<CreateCall>, updates: seq<UpdateCall>, deletes: seq<DeleteCall>)

  /** `createPipelineVariable(target, key, value, secured)`: the value is passed on as it is. */
  datatype PipelineCreateCall = CreatePipelineVariable(key: string, value: Option<string>, secured: bool)

  /** The value written when a variable has none. */
  const Placeholder: string := "dummy"

  /** The keys of a variable list. */
  function Keys(vs: seq<Variable>): set<string>
  {
    set v | v in vs :: v.key
  }

  /** `value || ""`: a missing or empty value is the empty string. */
  function Normalized(value: Option<string>): string
  {
    match value
    case None => ""
    case Some(s) => s
  }

  /** `value || "dummy"`: the value sent to the API. */
  function SentValue(value: Option<string>): (r: string)
    ensures r != ""
    ensures Normalized(value) != "" ==> r == Normalized(value)
    ensures Normalized(value) == "" ==> r == Placeholder
  {
    if Normalized(value) == "" then Placeholder else Normalized(value)
  }

  /** `createComparator` and `deleteComparator`: equal keys. */
  predicate SameKey(a: Variable, b: Variable)
  {
    a.key == b.key
  }

  /** `updateComparator`: equal keys and equal normalised values (`localeCompare` returning 0). */
  predicate SameKeyAndValue(a: Variable, b: Variable)
  {
    a.key == b.key && Normalized(a.value) == Normalized(b.value)
  }

  /** `uniqueVarsToCreate`: source variables whose key is not in the target. */
  function VarsToCreate(source: seq<Variable>, target: seq<Variable>): seq<Variable>
  {
    DifferenceWith(source, target, SameKey)
  }

  /** `uniqueVarsToUpdate`: target variables that no source variable matches by key and value. */
  function VarsToUpdate(source: seq<Variable>, target: seq<Variable>): seq<Variable>
  {
    DifferenceWith(target, source, SameKeyAndValue)
  }

  /** `uniqueVarsToDelete`: target variables whose key is not in the source. */
  function VarsToDelete(source: seq<Variable>, target: seq<Variable>): seq<Variable>
  {
    DifferenceWith(target, source, SameKey)
  }

  function CreateCallFor(v: Variable): CreateCall
  {
    CreateVariable(v.key, SentValue(v.value), v.secured)
  }

  function UpdateCallFor(v: Variable): UpdateCall
  {
    UpdateVariable(v.uuid, v.key, SentValue(v.value), v.secured)
  }

  /**
   * `migrateEnvironmentVariables` after the target environment is resolved:
   * `source` is the parsed snapshot (`originalVars`), `target` the live list
   * (`currentVars.values`).
   */
  function MigrateEnvironmentVariables(source: seq<Variable>, target: seq<Variable>, deleteInTarget: bool): (p: Plan)
    ensures |p.creates| <= |source| && |p.updates| <= |target|
    ensures |p.deletes| <= (if deleteInTarget then |target| else 0)
  {
    var creates := VarsToCreate(source, target);
    var updates := VarsToUpdate(source, target);
    var deletes := if deleteInTarget then VarsToDelete(source, target) else [];
    Plan(seq(|creates|, i requires 0 <= i < |creates| => CreateCallFor(creates[i])),
         seq(|updates|, i requires 0 <= i < |updates| => UpdateCallFor(updates[i])),
         seq(|deletes|, i requires 0 <= i < |deletes| => DeleteVariable(deletes[i].uuid)))
  }

  /** `migrateRepositoryVariables`: create the unsecured source variables whose key the target lacks. */
  function MigrateRepositoryVariables(source: seq<Variable>, target: seq<Variable>): seq<PipelineCreateCall>
  {
    var unsecured := Filter(DifferenceWith(source, target, SameKey), (v: Variable) => !v.secured);
    seq(|unsecured|, i requires 0 <= i < |unsecured| =>
      CreatePipelineVariable(unsecured[i].key, unsecured[i].value, unsecured[i].secured))
  }

  /** A key comparator matches exactly when the key is among the other list's keys. */
  lemma KeyMatch(v: Variable, vs: seq<Variable>)
    ensures HasMatch(v, vs, SameKey) <==> v.key in Keys(vs)
  {
    if v.key in Keys(vs) {
      var w :| w in vs && w.key == v.key;
      var i :| 0 <= i < |vs| && vs[i] == w;
      assert SameKey(v, vs[i]);
    }
  }

  /** The update comparator matches exactly when some variable has the same key and normalised value. */
  lemma KeyAndValueMatch(v: Variable, vs: seq<Variable>)
    ensures HasMatch(v, vs, SameKeyAndValue) <==>
            exists w :: w in vs && w.key == v.key && Normalized(w.value) == Normalized(v.value)
  {
    if exists w :: w in vs && w.key == v.key && Normalized(w.value) == Normalized(v.value) {
      var w :| w in vs && w.key == v.key && Normalized(w.value) == Normalized(v.value);
      var i :| 0 <= i < |vs| && vs[i] == w;
      assert SameKeyAndValue(v, vs[i]);
    }
  }

  /** The create set is the source variables whose key the target lacks, in source order. */
  lemma CreateSetIsMissingKeys(source: seq<Variable>, target: seq<Variable>)
    ensures forall v :: v in VarsToCreate(source, target) <==> v in source && v.key !in Keys(target)
    ensures forall s1, s2 :: VarsToCreate(s1 + s2, target) == VarsToCreate(s1, target) + VarsToCreate(s2, target)
  {
    forall v | v in source
      ensures v in VarsToCreate(source, target) <==> v.key !in Keys(target)
    {
      KeyMatch(v, target);
    }
    forall s1, s2
      ensures VarsToCreate(s1 + s2, target) == VarsToCreate(s1, target) + VarsToCreate(s2, target)
    {
      DifferenceWithAppend(s1, s2, target, SameKey);
    }
  }

  /**
   * Each create call carries the key and `secured` flag of a source variable
   * whose key the target lacks, and its value when that is non-empty, else
   * the placeholder; every such source variable gets its call.
   */
  lemma CreateCallsCarrySourceFields(source: seq<Variable>, target: seq<Variable>, deleteInTarget: bool)
    ensures var p := MigrateEnvironmentVariables(source, target, deleteInTarget);
      forall c :: c in p.creates ==>
        exists v :: v in source && v.key !in Keys(target) &&
          c.key == v.key && c.secured == v.secured &&
          (Normalized(v.value) != "" ==> c.value == Normalized(v.value)) &&
          (Normalized(v.value) == "" ==> c.value == Placeholder)
    ensures var p := MigrateEnvironmentVariables(source, target, deleteInTarget);
      forall v :: v in source && v.key !in Keys(target) ==>
        CreateVariable(v.key, SentValue(v.value), v.secured) in p.creates
  {
    var p := MigrateEnvironmentVariables(source, target, deleteInTarget);
    var creates := VarsToCreate(source, target);
    CreateSetIsMissingKeys(source, target);
    forall c | c in p.creates
      ensures exists v :: (v in source && v.key !in Keys(target) &&
          c.key == v.key && c.secured == v.secured &&
          (Normalized(v.value) != "" ==> c.value == Normalized(v.value)) &&
          (Normalized(v.value) == "" ==> c.value == Placeholder))
    {
      var i :| 0 <= i < |p.creates| && p.creates[i] == c;
      assert creates[i] in creates;
    }
    forall v | v in source && v.key !in Keys(target)
      ensures CreateVariable(v.key, SentValue(v.value), v.secured) in p.creates
    {
      var i :| 0 <= i < |creates| && creates[i] == v;
      assert p.creates[i] == CreateCallFor(v);
    }
  }

  /**
   * The update set is every target variable that no source variable matches
   * by key and normalised value; in particular it holds every target
   * variable whose key the source lacks.
   */
  lemma UpdateSetIsUnmatchedTarget(source: seq<Variable>, target: seq<Variable>)
    ensures forall t :: t in VarsToUpdate(source, target) <==>
      t in target && !exists s :: s in source && s.key == t.key && Normalized(s.value) == Normalized(t.value)
    ensures forall t :: t in target && t.key !in Keys(source) ==> t in VarsToUpdate(source, target)
  {
    forall t | t in target
      ensures t in VarsToUpdate(source, target) <==>
        !exists s :: s in source && s.key == t.key && Normalized(s.value) == Normalized(t.value)
    {
      KeyAndValueMatch(t, source);
    }
  }

  /**
   * Each update call sends a target variable's own uuid, key, `secured` flag
   * and value (the placeholder when empty), never a source value; every
   * variable of the update set gets its call.
   */
  lemma UpdateCallsSendTargetValues(source: seq<Variable>, target: seq<Variable>, deleteInTarget: bool)
    ensures var p := MigrateEnvironmentVariables(source, target, deleteInTarget);
      forall u :: u in p.updates ==>
        exists t :: t in target && u == UpdateVariable(t.uuid, t.key, SentValue(t.value), t.secured)
    ensures var p := MigrateEnvironmentVariables(source, target, deleteInTarget);
      forall t :: t in VarsToUpdate(source, target) ==>
        UpdateVariable(t.uuid, t.key, SentValue(t.value), t.secured) in p.updates
  {
    var p := MigrateEnvironmentVariables(source, target, deleteInTarget);
    var updates := VarsToUpdate(source, target);
    forall u | u in p.updates
      ensures exists t :: t in target && u == UpdateVariable(t.uuid, t.key, SentValue(t.value), t.secured)
    {
      var i :| 0 <= i < |p.updates| && p.updates[i] == u;
      assert updates[i] in updates;
    }
    forall t | t in updates
      ensures UpdateVariable(t.uuid, t.key, SentValue(t.value), t.secured) in p.updates
    {
      var i :| 0 <= i < |updates| && updates[i] == t;
      assert p.updates[i] == UpdateCallFor(t);
    }
  }

  /**
   * Deletes happen only when `deleteInTarget` is set; then they are exactly
   * the uuids of the target variables whose key the source lacks, and each of
   * those variables is also in the update set.
   */
  lemma DeletesAreTargetOnlyKeys(source: seq<Variable>, target: seq<Variable>, deleteInTarget: bool)
    ensures var p := MigrateEnvironmentVariables(source, target, deleteInTarget);
      !deleteInTarget ==> p.deletes == []
    ensures var p := MigrateEnvironmentVariables(source, target, deleteInTarget);
      deleteInTarget ==> forall d :: d in p.deletes <==>
        exists t :: t in target && t.key !in Keys(source) && d == DeleteVariable(t.uuid)
    ensures forall t :: t in VarsToDelete(source, target) <==> t in target && t.key !in Keys(source)
    ensures forall t :: t in VarsToDelete(source, target) ==> t in VarsToUpdate(source, target)
  {
    var p := MigrateEnvironmentVariables(source, target, deleteInTarget);
    var deletes := VarsToDelete(source, target);
    forall t | t in target
      ensures t in deletes <==> t.key !in Keys(source)
    {
      KeyMatch(t, source);
    }
    UpdateSetIsUnmatchedTarget(source, target);
    if deleteInTarget {
      forall d | d in p.deletes
        ensures exists t :: t in target && t.key !in Keys(source) && d == DeleteVariable(t.uuid)
      {
        var i :| 0 <= i < |p.deletes| && p.deletes[i] == d;
        assert deletes[i] in deletes;
      }
      forall t | t in target && t.key !in Keys(source)
        ensures DeleteVariable(t.uuid) in p.deletes
      {
        var i :| 0 <= i < |deletes| && deletes[i] == t;
        assert p.deletes[i] == DeleteVariable(t.uuid);
      }
    }
  }

  /**
   * No key is both created and deleted, and a target variable with the same
   * key and normalised value as some source variable is in no set.
   */
  lemma UnchangedVariablesUntouched(source: seq<Variable>, target: seq<Variable>)
    ensures Keys(VarsToCreate(source, target)) !! Keys(VarsToDelete(source, target))
    ensures forall s, t :: s in source && t in target && s.key == t.key && Normalized(s.value) == Normalized(t.value) ==>
      t !in VarsToUpdate(source, target) && t !in VarsToDelete(source, target) &&
      t.key !in Keys(VarsToCreate(source, target))
  {
    CreateSetIsMissingKeys(source, target);
    UpdateSetIsUnmatchedTarget(source, target);
    DeletesAreTargetOnlyKeys(source, target, true);
  }

  /**
   * A key already present in the target is never written with a source
   * value: no create names it, and every update for it sends the target
   * variable's own value, or the placeholder when it has none.
   */
  lemma ExistingKeysGetNoSourceValue(source: seq<Variable>, target: seq<Variable>, deleteInTarget: bool)
    ensures var p := MigrateEnvironmentVariables(source, target, deleteInTarget);
      forall c :: c in p.creates ==> c.key !in Keys(target)
    ensures var p := MigrateEnvironmentVariables(source, target, deleteInTarget);
      forall u :: u in p.updates ==> exists t :: t in target && t.key == u.key && u.value == SentValue(t.value)
  {
    CreateCallsCarrySourceFields(source, target, deleteInTarget);
    UpdateCallsSendTargetValues(source, target, deleteInTarget);
  }

  /**
   * A target variable without a value (as the API lists a secured one) that
   * no source variable of its key matches is overwritten with the
   * placeholder, whether or not the source holds a value for that key and
   * whether or not deletion is on.
   */
  lemma ValuelessTargetOverwritten(source: seq<Variable>, target: seq<Variable>, deleteInTarget: bool, t: Variable)
    requires t in target && Normalized(t.value) == ""
    requires forall s :: s in source && s.key == t.key ==> Normalized(s.value) != ""
    ensures UpdateVariable(t.uuid, t.key, Placeholder, t.secured) in MigrateEnvironmentVariables(source, target, deleteInTarget).updates
  {
    UpdateSetIsUnmatchedTarget(source, target);
    UpdateCallsSendTargetValues(source, target, deleteInTarget);
  }

  /**
   * A secured target variable T, listed without a value, is updated to
   * "dummy" both when the source lacks T and when the source holds T = "x".
   */
  lemma SecuredTargetOverwrittenWithPlaceholder()
    ensures MigrateEnvironmentVariables([], [Variable("T", None, true, "tt")], false)
         == Plan([], [UpdateVariable("tt", "T", "dummy", true)], [])
    ensures MigrateEnvironmentVariables([Variable("T", Some("x"), true, "st")], [Variable("T", None, true, "tt")], false)
         == Plan([], [UpdateVariable("tt", "T", "dummy", true)], [])
  {
    var secret := Variable("T", None, true, "tt");
    var source := [Variable("T", Some("x"), true, "st")];
    assert !HasMatch(secret, [], SameKeyAndValue);
    assert VarsToUpdate([], [secret]) == [secret];
    assert HasMatch(source[0], [secret], SameKey) by { assert SameKey(source[0], [secret][0]); }
    assert VarsToCreate(source, [secret]) == [];
    assert !HasMatch(secret, source, SameKeyAndValue);
    assert VarsToUpdate(source, [secret]) == [secret];
  }

  /**
   * The update batch the documentation of `overwriteSecuredVariables`
   * (src/pre-release-hook.ts:28-31) and the comment at :100 describe. A
   * source variable whose key the target holds with another value updates
   * that target variable. An unsecured pair gets the source's value. When
   * either side is secured, the update is skipped unless
   * `overwriteSecuredVariables` is set, and then it sends the placeholder.
   */
  function GuardedUpdates(source: seq<Variable>, target: seq<Variable>, overwriteSecured: bool): (r: seq<UpdateCall>)
    ensures |r| <= |source|
  {
    if |source| == 0 then []
    else
      var rest := GuardedUpdates(source[1..], target, overwriteSecured);
      match GuardedFrom(source[0], target, overwriteSecured)
      case None => rest
      case Some(u) => [u] + rest
  }

  /** The guarded update source variable `s` makes to the first target variable of its key, if any. */
  function GuardedFrom(s: Variable, target: seq<Variable>, overwriteSecured: bool): Option<UpdateCall>
  {
    match FirstWithKey(target, s.key)
    case None => None
    case Some(t) => GuardedUpdate(s, t, overwriteSecured)
  }

  /** Every guarded update is the one some source variable makes. */
  lemma {:induction false} GuardedUpdatesOrigin(source: seq<Variable>, target: seq<Variable>, overwriteSecured: bool)
    ensures forall u :: u in GuardedUpdates(source, target, overwriteSecured) ==>
      exists i :: 0 <= i < |source| && GuardedFrom(source[i], target, overwriteSecured) == Some(u)
  {
    if |source| > 0 {
      var rest := GuardedUpdates(source[1..], target, overwriteSecured);
      GuardedUpdatesOrigin(source[1..], target, overwriteSecured);
      forall u | u in GuardedUpdates(source, target, overwriteSecured)
        ensures exists i :: 0 <= i < |source| && GuardedFrom(source[i], target, overwriteSecured) == Some(u)
      {
        if u in rest {
          var i :| 0 <= i < |source[1..]| && GuardedFrom(source[1..][i], target, overwriteSecured) == Some(u);
          assert source[i + 1] == source[1..][i];
        } else {
          assert GuardedFrom(source[0], target, overwriteSecured) == Some(u);
        }
      }
    }
  }

  /**
   * Each guarded update names a target variable of its key and comes from a
   * source variable of that key. It is secured when either of them is, and
   * then exists only with `overwriteSecuredVariables` set and sends the
   * placeholder. Otherwise it sends an unsecured source variable's value.
   */
  lemma GuardedUpdatesSound(source: seq<Variable>, target: seq<Variable>, overwriteSecured: bool)
    ensures var r := GuardedUpdates(source, target, overwriteSecured);
      forall u :: u in r ==>
        exists t :: t in target && t.uuid == u.uuid && t.key == u.key && (t.secured ==> u.secured)
    ensures var r := GuardedUpdates(source, target, overwriteSecured);
      forall u :: u in r ==> exists s :: s in source && s.key == u.key && (s.secured ==> u.secured)
    ensures var r := GuardedUpdates(source, target, overwriteSecured);
      forall u :: u in r && u.secured ==> overwriteSecured && u.value == Placeholder
    ensures var r := GuardedUpdates(source, target, overwriteSecured);
      forall u :: u in r && !u.secured ==>
        exists s :: s in source && !s.secured && s.key == u.key && u.value == SentValue(s.value)
  {
    GuardedUpdatesOrigin(source, target, overwriteSecured);
    forall u | u in GuardedUpdates(source, target, overwriteSecured)
      ensures (exists t :: t in target && t.uuid == u.uuid && t.key == u.key && (t.secured ==> u.secured)) &&
              (exists s :: s in source && s.key == u.key && (s.secured ==> u.secured)) &&
              (u.secured ==> overwriteSecured && u.value == Placeholder) &&
              (!u.secured ==> exists s :: s in source && !s.secured && s.key == u.key && u.value == SentValue(s.value))
    {
      var i :| 0 <= i < |source| && GuardedFrom(source[i], target, overwriteSecured) == Some(u);
      var s := source[i];
      var t := FirstWithKey(target, s.key).value;
      assert t in target && t.key == s.key;
      assert GuardedUpdate(s, t, overwriteSecured) == Some(u);
    }
  }

  /** The guarded update of target variable `t` from source variable `s` of the same key, if any. */
  function GuardedUpdate(s: Variable, t: Variable, overwriteSecured: bool): (r: Option<UpdateCall>)
    ensures r.Some? <==> Normalized(t.value) != Normalized(s.value) && (overwriteSecured || !(s.secured || t.secured))
    ensures r.Some? ==> r.value.key == s.key && r.value.uuid == t.uuid && r.value.secured == (s.secured || t.secured)
    ensures r.Some? && r.value.secured ==> r.value.value == Placeholder
    ensures r.Some? && !r.value.secured ==> r.value.value == SentValue(s.value)
  {
    if Normalized(t.value) == Normalized(s.value) then None
    else if s.secured || t.secured then
      if overwriteSecured then Some(UpdateVariable(t.uuid, s.key, Placeholder, true)) else None
    else Some(UpdateVariable(t.uuid, s.key, SentValue(s.value), false))
  }

  /**
   * With unique target keys, a source variable whose key the target holds
   * with another value gets its guarded update. It carries the source value
   * when neither side is secured, and the placeholder when one is and
   * `overwriteSecuredVariables` is set.
   */
  lemma {:induction false} GuardedUpdatesComplete(source: seq<Variable>, target: seq<Variable>, overwriteSecured: bool, s: Variable, t: Variable)
    requires UniqueKeys(target)
    requires s in source && t in target && s.key == t.key && Normalized(s.value) != Normalized(t.value)
    ensures !s.secured && !t.secured ==>
      UpdateVariable(t.uuid, s.key, SentValue(s.value), false) in GuardedUpdates(source, target, overwriteSecured)
    ensures (s.secured || t.secured) && overwriteSecured ==>
      UpdateVariable(t.uuid, s.key, Placeholder, true) in GuardedUpdates(source, target, overwriteSecured)
  {
    var f := FirstWithKey(target, s.key);
    assert f == Some(t) by {
      var i :| 0 <= i < |target| && target[i] == f.value;
      var j :| 0 <= j < |target| && target[j] == t;
      assert i == j;
    }
    if source[0] != s {
      GuardedUpdatesComplete(source[1..], target, overwriteSecured, s, t);
    }
  }

  /**
   * With unique target keys and `overwriteSecuredVariables` off, no update
   * names the key of a secured target variable: its secret is kept.
   */
  lemma GuardedUpdatesKeepSecrets(source: seq<Variable>, target: seq<Variable>, t: Variable)
    requires UniqueKeys(target) && t in target && t.secured
    ensures forall u :: u in GuardedUpdates(source, target, false) ==> u.key != t.key && !u.secured
  {
    GuardedUpdatesSound(source, target, false);
    forall u | u in GuardedUpdates(source, target, false)
      ensures u.key != t.key
    {
      var w :| w in target && w.uuid == u.uuid && w.key == u.key && (w.secured ==> u.secured);
      var i :| 0 <= i < |target| && target[i] == w;
      var j :| 0 <= j < |target| && target[j] == t;
      assert i != j;
      assert target[i].key != target[j].key;
    }
  }

  /**
   * On a secured target T listed without a value, against source T = "x",
   * the guarded batch leaves T alone with the option off and writes "dummy"
   * with it on. A secured source value "secret" is never copied onto an
   * unsecured target.
   */
  lemma GuardedUpdatesOnSecret()
    ensures GuardedUpdates([Variable("T", Some("x"), true, "st")], [Variable("T", None, true, "tt")], false) == []
    ensures GuardedUpdates([Variable("T", Some("x"), true, "st")], [Variable("T", None, true, "tt")], true)
         == [UpdateVariable("tt", "T", "dummy", true)]
    ensures GuardedUpdates([Variable("K", Some("secret"), true, "s")], [Variable("K", Some("old"), false, "t")], false) == []
    ensures GuardedUpdates([Variable("K", Some("secret"), true, "s")], [Variable("K", Some("old"), false, "t")], true)
         == [UpdateVariable("t", "K", "dummy", true)]
  {
    var secret := Variable("T", None, true, "tt");
    var source := [Variable("T", Some("x"), true, "st")];
    assert FirstWithKey([secret], "T") == Some(secret);
    assert source[1..] == [];
    var plain := Variable("K", Some("old"), false, "t");
    var hidden := [Variable("K", Some("secret"), true, "s")];
    assert FirstWithKey([plain], "K") == Some(plain);
    assert hidden[1..] == [];
  }

  /** `migrateRepositoryVariables` creates exactly the unsecured source variables whose key the target lacks. */
  lemma RepositoryCreatesUnsecuredMissing(source: seq<Variable>, target: seq<Variable>)
    ensures forall c :: c in MigrateRepositoryVariables(source, target) <==>
      exists v :: v in source && !v.secured && v.key !in Keys(target) && c == CreatePipelineVariable(v.key, v.value, false)
  {
    var missing := DifferenceWith(source, target, SameKey);
    var unsecured := Filter(missing, (v: Variable) => !v.secured);
    var calls := MigrateRepositoryVariables(source, target);
    forall v | v in source
      ensures v in missing <==> v.key !in Keys(target)
    {
      KeyMatch(v, target);
    }
    forall c | c in calls
      ensures exists v :: v in source && !v.secured && v.key !in Keys(target) && c == CreatePipelineVariable(v.key, v.value, false)
    {
      var i :| 0 <= i < |calls| && calls[i] == c;
      assert unsecured[i] in unsecured;
    }
    forall v | v in source && !v.secured && v.key !in Keys(target)
      ensures CreatePipelineVariable(v.key, v.value, false) in calls
    {
      assert v in unsecured;
      var i :| 0 <= i < |unsecured| && unsecured[i] == v;
      assert calls[i] == CreatePipelineVariable(v.key, v.value, false);
    }
  }

  /**
   * Source A=1, B=2 (secured) against target A=1, C=9 with deletion on: the
   * unchanged A is left alone, the secured B is created with its value "2"
   * (the placeholder depends on the value being empty, not on `secured`),
   * and C, absent from the source, is both updated with its own value and
   * deleted.
   */
  lemma SecuredValueKeptScenario()
    ensures MigrateEnvironmentVariables(
              [Variable("A", Some("1"), false, "sa"), Variable("B", Some("2"), true, "sb")],
              [Variable("A", Some("1"), false, "ta"), Variable("C", Some("9"), false, "tc")],
              true)
         == Plan([CreateVariable("B", "2", true)], [UpdateVariable("tc", "C", "9", false)], [DeleteVariable("tc")])
  {
    var source := [Variable("A", Some("1"), false, "sa"), Variable("B", Some("2"), true, "sb")];
    var target := [Variable("A", Some("1"), false, "ta"), Variable("C", Some("9"), false, "tc")];
    assert HasMatch(source[0], target, SameKey) by { assert SameKey(source[0], target[0]); }
    assert !HasMatch(source[1], target, SameKey);
    assert VarsToCreate(source, target) == [source[1]] by {
      assert source[1..][1..] == [];
    }
    assert HasMatch(target[0], source, SameKeyAndValue) by { assert SameKeyAndValue(target[0], source[0]); }
    assert !HasMatch(target[1], source, SameKeyAndValue);
    assert VarsToUpdate(source, target) == [target[1]] by {
      assert target[1..][1..] == [];
    }
    assert !HasMatch(target[1], source, SameKey);
    assert VarsToDelete(source, target) == [target[1]] by {
      assert target[1..][1..] == [];
    }
  }

  /**
   * The update of a changed value sends the target's old value back: with
   * source A="new" and target A="old", the only call is an update of A to "old".
   */
  lemma ChangedValueUpdatedToOldValue()
    ensures MigrateEnvironmentVariables([Variable("A", Some("new"), false, "sa")],
                                        [Variable("A", Some("old"), false, "ta")], false)
         == Plan([], [UpdateVariable("ta", "A", "old", false)], [])
  {
    var source := [Variable("A", Some("new"), false, "sa")];
    var target := [Variable("A", Some("old"), false, "ta")];
    assert HasMatch(source[0], target, SameKey) by { assert SameKey(source[0], target[0]); }
    assert VarsToCreate(source, target) == [];
    assert !HasMatch(target[0], source, SameKeyAndValue);
    assert VarsToUpdate(source, target) == [target[0]];
  }

  /** Keys are unique within a list, as the API keeps them within one environment. */
  ghost predicate UniqueKeys(vs: seq<Variable>)
  {
    forall i, j :: 0 <= i < j < |vs| ==> vs[i].key != vs[j].key
  }

  /** The first variable of `vs` with key `key`, if any. */
  function FirstWithKey(vs: seq<Variable>, key: string): (r: Option<Variable>)
    ensures r.None? <==> key !in Keys(vs)
    ensures r.Some? ==> exists k :: 0 <= k < |vs| && vs[k] == r.value && r.value.key == key &&
                                    forall j :: 0 <= j < k ==> vs[j].key != key
  {
    if |vs| == 0 then None
    else if vs[0].key == key then Some(vs[0])
    else
      assert forall v :: v in vs ==> v == vs[0] || v in vs[1..];
      var r := FirstWithKey(vs[1..], key);
      if r.Some? then
        var k :| 0 <= k < |vs[1..]| && vs[1..][k] == r.value && r.value.key == key &&
                 forall j :: 0 <= j < k ==> vs[1..][j].key != key;
        assert vs[k + 1] == r.value && forall j :: 0 <= j < k + 1 ==> vs[j].key != key;
        r
      else r
  }

  /**
   * The update batch as evidently intended: for each source variable whose
   * key the target already has with a different normalised value, update
   * that target variable (its uuid) to the source's value.
   */
  function IntendedUpdates(source: seq<Variable>, target: seq<Variable>): (r: seq<UpdateCall>)
    ensures forall u :: u in r ==>
      exists s :: s in source && u.key == s.key && u.value == SentValue(s.value) && u.secured == s.secured
    ensures forall u :: u in r ==> exists t :: t in target && t.uuid == u.uuid && t.key == u.key
  {
    if |source| == 0 then []
    else
      var s := source[0];
      var rest := IntendedUpdates(source[1..], target);
      assert forall v :: v in source[1..] ==> v in source;
      match FirstWithKey(target, s.key)
      case None => rest
      case Some(t) =>
        if Normalized(t.value) == Normalized(s.value) then rest
        else [UpdateVariable(t.uuid, s.key, SentValue(s.value), s.secured)] + rest
  }

  /**
   * With unique target keys, a source variable whose key the target has with
   * a different value gets an update carrying the source value.
   */
  lemma {:induction false} IntendedUpdatesComplete(source: seq<Variable>, target: seq<Variable>, s: Variable, t: Variable)
    requires UniqueKeys(target)
    requires s in source && t in target && s.key == t.key && Normalized(s.value) != Normalized(t.value)
    ensures UpdateVariable(t.uuid, s.key, SentValue(s.value), s.secured) in IntendedUpdates(source, target)
  {
    var f := FirstWithKey(target, s.key);
    assert f == Some(t) by {
      var i :| 0 <= i < |target| && target[i] == f.value;
      var j :| 0 <= j < |target| && target[j] == t;
      assert i == j;
    }
    if source[0] != s {
      IntendedUpdatesComplete(source[1..], target, s, t);
    }
  }

  /**
   * The intended batches partition the keys: an intended update names a key
   * both lists have, so no key is created and updated, or updated and deleted.
   */
  lemma IntendedUpdatesDisjoint(source: seq<Variable>, target: seq<Variable>)
    ensures forall u :: u in IntendedUpdates(source, target) ==>
      u.key in Keys(source) && u.key in Keys(target) &&
      u.key !in Keys(VarsToCreate(source, target)) && u.key !in Keys(VarsToDelete(source, target))
  {
    CreateSetIsMissingKeys(source, target);
    DeletesAreTargetOnlyKeys(source, target, true);
  }

  /** On the changed-value example the intended update carries the new value. */
  lemma IntendedUpdateSendsNewValue()
    ensures IntendedUpdates([Variable("A", Some("new"), false, "sa")], [Variable("A", Some("old"), false, "ta")])
         == [UpdateVariable("ta", "A", "new", false)]
  {
    var source := [Variable("A", Some("new"), false, "sa")];
    var target := [Variable("A", Some("old"), false, "ta")];
    assert FirstWithKey(target, "A") == Some(target[0]);
    assert source[1..] == [];
  }
}
