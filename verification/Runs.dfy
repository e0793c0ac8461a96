/** Every run of a store: any number of open transactions, staged, validated,
    committed and rolled back in any interleaving. */
module Runs {
  import opened Wrappers
  import opened Values
  import opened Facts
  import opened Policy
  import opened Sequences
  import opened Resolver
  import opened Governed
  import opened Store
  import ResolverLaws

  datatype Step =
    | BeginStep
    | StageStep(tx: nat, op: Op)
    | ValidateStep(tx: nat)
    | CommitStep(tx: nat)
    | RollbackStep(tx: nat)

  datatype System = System(changes: Overlay, txs: seq<Staged>)

  /** One call; a transaction that was never begun cannot be called. */
  function Do(g: Governance, sys: System, step: Step): System {
    match step
    case BeginStep => sys.(txs := sys.txs + [NOTHING_STAGED])
    case StageStep(i, op) => if i < |sys.txs| then sys.(txs := sys.txs[i := Stage(sys.txs[i], op)]) else sys
    case ValidateStep(_) => sys
    case CommitStep(i) => if i < |sys.txs| then sys.(changes := Committed(g, sys.txs[i], sys.changes)) else sys
    case RollbackStep(i) => if i < |sys.txs| then sys.(txs := sys.txs[i := NOTHING_STAGED]) else sys
  }

  function Run(g: Governance, steps: seq<Step>): System {
    if steps == [] then System(NO_CHANGES, [])
    else Do(g, Run(g, steps[..|steps| - 1]), steps[|steps| - 1])
  }

  // ---- what every run keeps ----

  /** Overrides and erases stay apart, concern mutable keys only, and every override
      meets its key's policy. */
  predicate OverlayGoverned(g: Governance, o: Overlay) {
    o.Disjoint() &&
    (forall k :: k in o.overrides ==>
       IsRuntimeMutable(g.access, k) && Meets(PolicyFor(g.policies, k), o.overrides[k])) &&
    (forall k :: k in o.erases ==> IsRuntimeMutable(g.access, k))
  }

  predicate Invariant(g: Governance, sys: System) {
    OverlayGoverned(g, sys.changes) && forall i :: 0 <= i < |sys.txs| ==> sys.txs[i].Apart()
  }

  lemma CommitKeepsGoverned(g: Governance, s: Staged, o: Overlay)
    requires s.Apart() && OverlayGoverned(g, o)
    ensures OverlayGoverned(g, Committed(g, s, o))
  {
    var o' := Committed(g, s, o);
    CommitDisjoint(g, s, o);
    forall k
      ensures k in o'.overrides ==>
                IsRuntimeMutable(g.access, k) && Meets(PolicyFor(g.policies, k), o'.overrides[k])
      ensures k in o'.erases ==> IsRuntimeMutable(g.access, k)
    {
      CommitSlot(g, s, o, k);
      if Validates(g, s) && StagedAt(s, k).Some? {
        OpsOfMembers(s, StagedAt(s, k).value);
        assert Allowed(g, StagedAt(s, k).value);
      }
      assert SlotAt(o', k).Overridden? <==> k in o'.overrides;
    }
  }

  lemma StageKeepsApart(s: Staged, op: Op)
    requires s.Apart()
    ensures Stage(s, op).Apart()
  {}

  lemma {:induction false} RunInvariant(g: Governance, steps: seq<Step>)
    ensures Invariant(g, Run(g, steps))
  {
    if steps != [] {
      var before, step := Run(g, steps[..|steps| - 1]), steps[|steps| - 1];
      RunInvariant(g, steps[..|steps| - 1]);
      match step {
        case BeginStep =>
        case StageStep(i, op) => if i < |before.txs| { StageKeepsApart(before.txs[i], op); }
        case ValidateStep(_) =>
        case CommitStep(i) => if i < |before.txs| { CommitKeepsGoverned(g, before.txs[i], before.changes); }
        case RollbackStep(_) =>
      }
    }
  }

  lemma BaseMeetsPolicy(facts: seq<Fact>, p: Policies, key: string)
    requires key in Resolve(facts, p).config
    ensures Meets(PolicyFor(p, key), Resolve(facts, p).config[key].value)
  {
    ResolverLaws.ConfigKeys(facts, p);
    ChosenKey(facts, p, key);
  }

  lemma ValuesMeetPolicy(g: Governance, steps: seq<Step>, key: string)
    requires key in g.base ==> Meets(PolicyFor(g.policies, key), g.base[key].value)
    ensures var v := GetValue(g, Run(g, steps).changes, key);
            v.Some? ==> Meets(PolicyFor(g.policies, key), v.value)
  {
    RunInvariant(g, steps);
  }

  /** From raw facts to every reachable runtime value: whatever a store built from a
      resolution hands out, in any state of any run, meets its key's policy. */
  lemma EveryValueMeetsPolicy(facts: seq<Fact>, p: Policies, access: AccessRules,
                              steps: seq<Step>, key: string)
    ensures var g := GovernanceOf(Resolve(facts, p), p, access);
            var v := GetValue(g, Run(g, steps).changes, key);
            v.Some? ==> Meets(PolicyFor(p, key), v.value)
  {
    if key in Resolve(facts, p).config { BaseMeetsPolicy(facts, p, key); }
    ValuesMeetPolicy(GovernanceOf(Resolve(facts, p), p, access), steps, key);
  }

  /** A key that is not runtime-mutable never has a runtime change: it reads as its base value. */
  lemma LockedKeysNeverChange(g: Governance, steps: seq<Step>, key: string)
    requires !IsRuntimeMutable(g.access, key)
    ensures !HasRuntimeChange(Run(g, steps).changes, key)
    ensures GetValue(g, Run(g, steps).changes, key) == GetEntryValue(g.base, key)
  {
    RunInvariant(g, steps);
  }

  // ---- staging in a run refines the call history ----

  function Begun(steps: seq<Step>): nat {
    if steps == [] then 0
    else Begun(steps[..|steps| - 1]) + if steps[|steps| - 1].BeginStep? then 1 else 0
  }

  /** The operations staged on a transaction since its last rollback, in call order. */
  function History(steps: seq<Step>, tx: nat): seq<Op> {
    if steps == [] then []
    else
      var front, last := steps[..|steps| - 1], steps[|steps| - 1];
      if last == RollbackStep(tx) then []
      else if last.StageStep? && last.tx == tx && tx < Begun(front) then History(front, tx) + [last.op]
      else History(front, tx)
  }

  lemma {:induction false} StagedIsHistory(g: Governance, steps: seq<Step>, tx: nat)
    ensures |Run(g, steps).txs| == Begun(steps)
    ensures tx >= Begun(steps) ==> History(steps, tx) == []
    ensures tx < Begun(steps) ==> Run(g, steps).txs[tx] == StageAll(History(steps, tx))
  {
    if steps != [] {
      var front, last := steps[..|steps| - 1], steps[|steps| - 1];
      StagedIsHistory(g, front, tx);
      if last.StageStep? && last.tx == tx && tx < Begun(front) {
        var h := History(front, tx);
        assert (h + [last.op])[..|h|] == h;
      }
    }
  }

  lemma RunStep(g: Governance, steps: seq<Step>, step: Step)
    ensures Run(g, steps + [step]) == Do(g, Run(g, steps), step)
  {}

  /** In any run, a commit that validates has the effect of performing all that was
      staged since the last rollback one by one; one that does not has none. */
  lemma CommitReplaysHistory(g: Governance, steps: seq<Step>, tx: nat, before: System, after: System)
    requires tx < Begun(steps)
    requires before == Run(g, steps) && after == Run(g, steps + [CommitStep(tx)])
    ensures after.txs == before.txs
    ensures after.changes ==
              if Validates(g, StageAll(History(steps, tx)))
              then Replay(g, History(steps, tx), before.changes) else before.changes
  {
    RunStep(g, steps, CommitStep(tx));
    RunInvariant(g, steps);
    StagedIsHistory(g, steps, tx);
    if Validates(g, StageAll(History(steps, tx))) {
      CommitRefinesReplay(g, History(steps, tx), before.changes);
    }
  }

  predicate Touches(step: Step, tx: nat) { (step.StageStep? || step.RollbackStep?) && step.tx == tx }

  lemma DoKeepsOthers(g: Governance, sys: System, step: Step, tx: nat)
    requires tx < |sys.txs| && !Touches(step, tx)
    ensures tx < |Do(g, sys, step).txs| && Do(g, sys, step).txs[tx] == sys.txs[tx]
  {}

  lemma {:induction false} RunKeepsOthers(g: Governance, steps: seq<Step>, others: seq<Step>, tx: nat)
    requires tx < |Run(g, steps).txs|
    requires forall step :: step in others ==> !Touches(step, tx)
    ensures tx < |Run(g, steps + others).txs| && Run(g, steps + others).txs[tx] == Run(g, steps).txs[tx]
  {
    if others == [] {
      assert steps + others == steps;
    } else {
      var front, last := others[..|others| - 1], others[|others| - 1];
      assert others == front + [last];
      RunKeepsOthers(g, steps, front, tx);
      assert steps + others == (steps + front) + [last];
      RunStep(g, steps + front, last);
      DoKeepsOthers(g, Run(g, steps + front), last, tx);
    }
  }

  /** Whatever happens elsewhere, other transactions' commits included, a transaction's
      verdict stays what it was. */
  lemma VerdictIsStable(g: Governance, steps: seq<Step>, others: seq<Step>, tx: nat)
    requires tx < |Run(g, steps).txs|
    requires forall step :: step in others ==> !Touches(step, tx)
    ensures tx < |Run(g, steps + others).txs|
    ensures Validates(g, Run(g, steps + others).txs[tx]) == Validates(g, Run(g, steps).txs[tx])
  {
    RunKeepsOthers(g, steps, others, tx);
  }

  /** In any run, committing a transaction again at once changes nothing. */
  lemma RecommitChangesNothing(g: Governance, steps: seq<Step>, i: nat)
    requires i < |Run(g, steps).txs|
    ensures Run(g, steps + [CommitStep(i)] + [CommitStep(i)]) == Run(g, steps + [CommitStep(i)])
  {
    RunInvariant(g, steps);
    RunStep(g, steps, CommitStep(i));
    RunStep(g, steps + [CommitStep(i)], CommitStep(i));
    CommitIdempotent(g, Run(g, steps).txs[i], Run(g, steps).changes);
  }

  /** In any run, commits of transactions on disjoint keys commute. */
  lemma CommitsCommuteInRuns(g: Governance, steps: seq<Step>, i: nat, j: nat)
    requires i < |Run(g, steps).txs| && j < |Run(g, steps).txs|
    requires DisjointKeys(Run(g, steps).txs[i], Run(g, steps).txs[j])
    ensures Run(g, steps + [CommitStep(i)] + [CommitStep(j)]) == Run(g, steps + [CommitStep(j)] + [CommitStep(i)])
  {
    var sys := Run(g, steps);
    RunInvariant(g, steps);
    RunStep(g, steps, CommitStep(i));
    RunStep(g, steps, CommitStep(j));
    RunStep(g, steps + [CommitStep(i)], CommitStep(j));
    RunStep(g, steps + [CommitStep(j)], CommitStep(i));
    CommitsCommute(g, sys.txs[i], sys.txs[j], sys.changes);
  }

  /** A key whose rule has the mutability flag off cannot be changed in any run, and nothing
      that would give it a value or take it away validates. */
  lemma FlagOffLocks(g: Governance, steps: seq<Step>, s: Staged, key: string)
    requires key in g.access && !g.access[key].runtimeMutable && s.Apart()
    ensures key !in Run(g, steps).changes.overrides && key !in Run(g, steps).changes.erases
    ensures key in s.sets || key in s.erases || key in s.resetDefault ==> !Validates(g, s)
  {
    LockedKeysNeverChange(g, steps, key);
    ValidatesByKey(g, s);
    if key in s.sets || key in s.erases || key in s.resetDefault {
      assert StagedAt(s, key).Some? && !Allowed(g, StagedAt(s, key).value);
    }
  }

  // ---- one change, and required keys at runtime ----

  /** A run that stages one operation and commits it. */
  function OneChange(op: Op): seq<Step> { [BeginStep, StageStep(0, op), CommitStep(0)] }

  lemma OneStagedValidates(g: Governance, op: Op)
    ensures StageAll([op]) == Stage(NOTHING_STAGED, op) && StageAll([op]).Apart()
    ensures Validates(g, StageAll([op])) <==> Allowed(g, op)
  {
    assert [op][..0] == [];
    StagedApart([op]);
    ValidatesByKey(g, StageAll([op]));
    assert StagedAt(Stage(NOTHING_STAGED, op), op.key) == Some(op);
  }

  lemma OneChangeRun(g: Governance, op: Op)
    ensures Run(g, OneChange(op)).changes == if Allowed(g, op) then ReplayOp(g, op, NO_CHANGES) else NO_CHANGES
  {
    RunStep(g, [], BeginStep);
    RunStep(g, [BeginStep], StageStep(0, op));
    RunStep(g, [BeginStep, StageStep(0, op)], CommitStep(0));
    assert [] + [BeginStep] == [BeginStep];
    assert [BeginStep, StageStep(0, op)] + [CommitStep(0)] == OneChange(op);
    OneStagedValidates(g, op);
    if Allowed(g, op) {
      CommitRefinesReplay(g, [op], NO_CHANGES);
      assert [op][..0] == [];
    }
  }

  /** With the flag on, or without a rule, a set that meets the policy and an erase do take
      effect; a reset to base asks for the reset flag alone. */
  lemma FlagOnUnlocks(g: Governance, key: string, v: Value)
    requires key in g.access ==> g.access[key].runtimeMutable
    ensures Meets(PolicyFor(g.policies, key), v) ==>
              GetValue(g, Run(g, OneChange(SetOp(key, v))).changes, key) == Some(v)
    ensures GetValue(g, Run(g, OneChange(EraseOp(key))).changes, key) == None
  {
    OneChangeRun(g, SetOp(key, v));
    OneChangeRun(g, EraseOp(key));
  }

  /** A reset takes back what was set exactly when the rule's reset flag is on or there is no
      rule; otherwise the transaction is refused. */
  lemma ResetByFlag(g: Governance, s: Staged, o: Overlay, key: string)
    requires s == Stage(NOTHING_STAGED, ResetBaseOp(key)) && o.Disjoint()
    ensures Validates(g, s) <==> (key in g.access ==> g.access[key].resettable)
    ensures Validates(g, s) ==> GetValue(g, Committed(g, s, o), key) == GetEntryValue(g.base, key)
    ensures !Validates(g, s) ==> Committed(g, s, o) == o
  {
    OneStagedValidates(g, ResetBaseOp(key));
    assert [ResetBaseOp(key)][..0] == [];
    StagedApart([ResetBaseOp(key)]);
    CommitSlot(g, s, o, key);
    CommitDisjoint(g, s, o);
  }

  /** A key that reads as some value in every reachable state. */
  ghost predicate AlwaysReads(g: Governance, key: string) {
    forall steps :: GetValue(g, Run(g, steps).changes, key).Some?
  }

  /** An erase asks only whether the key may be changed, so that one committed erase takes
      any mutable key away, a Required one included. */
  lemma MutableKeyCanBeErased(g: Governance, key: string)
    requires IsRuntimeMutable(g.access, key)
    ensures GetValue(g, Run(g, OneChange(EraseOp(key))).changes, key).None?
  {
    OneChangeRun(g, EraseOp(key));
  }

  lemma StaysPresentExactly(g: Governance, key: string)
    requires key in g.base
    ensures AlwaysReads(g, key) <==> !IsRuntimeMutable(g.access, key)
  {
    if IsRuntimeMutable(g.access, key) {
      MutableKeyCanBeErased(g, key);
    } else {
      forall steps ensures GetValue(g, Run(g, steps).changes, key).Some? {
        LockedKeysNeverChange(g, steps, key);
      }
    }
  }

  /** In a store built from an ok resolution a required key stays present in every run
      exactly when it is not runtime-mutable. */
  lemma RequiredStaysPresentExactly(facts: seq<Fact>, p: Policies, access: AccessRules, key: string)
    requires Resolve(facts, p).Ok()
    requires key in p.keys && p.keys[key].missing.Required?
    ensures AlwaysReads(GovernanceOf(Resolve(facts, p), p, access), key) <==> !IsRuntimeMutable(access, key)
  {
    ResolverLaws.OkConfigKeys(facts, p);
    StaysPresentExactly(GovernanceOf(Resolve(facts, p), p, access), key);
  }

  predicate NeverErases(steps: seq<Step>, key: string) {
    forall step :: step in steps && step.StageStep? ==> step.op != EraseOp(key)
  }

  /** Nothing but an erase of the key itself takes a base key away: not a rejected commit,
      a reset, or anything done to other keys. */
  lemma {:induction false} OnlyItsEraseRemoves(g: Governance, steps: seq<Step>, key: string)
    requires NeverErases(steps, key)
    ensures key !in Run(g, steps).changes.erases
    ensures forall i :: 0 <= i < |Run(g, steps).txs| ==> key !in Run(g, steps).txs[i].erases
    ensures key in g.base ==> GetValue(g, Run(g, steps).changes, key).Some?
  {
    if steps != [] {
      var front, last := steps[..|steps| - 1], steps[|steps| - 1];
      assert last in steps;
      OnlyItsEraseRemoves(g, front, key);
      RunInvariant(g, front);
      var before := Run(g, front);
      if last.CommitStep? && last.tx < |before.txs| {
        CommitSlot(g, before.txs[last.tx], before.changes, key);
        assert SlotAt(Committed(g, before.txs[last.tx], before.changes), key) != Erased;
        CommitDisjoint(g, before.txs[last.tx], before.changes);
      }
    }
  }

  // ---- the objects run as the values do ----

  /** The store and the transactions begun on it, all different objects, are in this state. */
  ghost predicate Shows(store: ConfigStore, txs: seq<ConfigTransaction>, sys: System)
    reads store, txs
  {
    store.Changes() == sys.changes && |txs| == |sys.txs| &&
    (forall i :: 0 <= i < |txs| ==> txs[i].store == store && txs[i].Pending() == sys.txs[i]) &&
    (forall i, j :: 0 <= i < j < |txs| ==> txs[i] != txs[j])
  }

  method StageOn(tx: ConfigTransaction, op: Op)
    modifies tx`stagedSets, tx`stagedErases, tx`stagedResetBase, tx`stagedResetDefault
    ensures tx.Pending() == Stage(old(tx.Pending()), op)
  {
    match op
    case SetOp(k, v) => tx.SetValue(k, v);
    case EraseOp(k) => tx.Erase(k);
    case ResetBaseOp(k) => tx.ResetToBase(k);
    case ResetDefaultOp(k) => tx.ResetToDefault(k);
  }

  // One call on one transaction.
  method CallOn(tx: ConfigTransaction, step: Step)
    requires !step.BeginStep?
    modifies tx, tx.store
    ensures System(tx.store.Changes(), [tx.Pending()]) ==
            Do(tx.store.Rules(), System(old(tx.store.Changes()), [old(tx.Pending())]), step.(tx := 0))
  {
    match step
    case StageStep(_, op) => StageOn(tx, op);
    case ValidateStep(_) => var _ := tx.Validate();
    case CommitStep(_) => var _ := tx.Commit();
    case RollbackStep(_) => tx.Rollback();
  }

  lemma DoOnOne(g: Governance, sys: System, step: Step)
    requires !step.BeginStep? && step.tx < |sys.txs|
    ensures var one := Do(g, System(sys.changes, [sys.txs[step.tx]]), step.(tx := 0));
            |one.txs| == 1 && Do(g, sys, step) == System(one.changes, sys.txs[step.tx := one.txs[0]])
  {}

  // One call on the objects.
  method Call(store: ConfigStore, txs: seq<ConfigTransaction>, step: Step, ghost sys: System)
    returns (txs': seq<ConfigTransaction>)
    requires Shows(store, txs, sys)
    modifies store, txs
    ensures Shows(store, txs', Do(store.Rules(), sys, step))
    ensures txs <= txs' && fresh(txs'[|txs|..])
  {
    txs' := txs;
    if step == BeginStep {
      var tx := store.BeginTransaction();
      txs' := txs + [tx];
    } else if step.tx < |txs| {
      DoOnOne(store.Rules(), sys, step);
      CallOn(txs[step.tx], step);
    }
  }

  /** Driving real objects through any interleaving of calls ends in the state that Run
      says, so every law of runs is a law of the objects. */
  method Perform(store: ConfigStore, steps: seq<Step>) returns (txs: seq<ConfigTransaction>)
    requires store.Changes() == NO_CHANGES
    modifies store
    ensures Shows(store, txs, Run(store.Rules(), steps))
    ensures fresh(txs)
  {
    txs := [];
    for i := 0 to |steps|
      invariant Shows(store, txs, Run(store.Rules(), steps[..i]))
      invariant fresh(txs)
    {
      PrefixStep(steps, i);
      RunStep(store.Rules(), steps[..i], steps[i]);
      var before := txs;
      txs := Call(store, before, steps[i], Run(store.Rules(), steps[..i]));
      assert txs == before + txs[|before|..];
    }
    assert steps[..|steps|] == steps;
  }
}
