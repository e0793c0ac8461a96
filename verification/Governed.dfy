/** The governed store as values: what a store is ruled by, its runtime overlay,
    the operations a transaction stages and what they do. */
module Governed {
  import opened Wrappers
  import opened Values
  import opened Sources
  import opened Diagnostics
  import opened Policy
  import opened Ordering
  import opened Sequences
  import opened Resolver
  import Facts

  datatype AccessRule = AccessRule(runtimeMutable: bool, exportable: bool, secret: bool, resettable: bool)

  type AccessRules = map<string, AccessRule>

  predicate IsRuntimeMutable(a: AccessRules, key: string) { key !in a || a[key].runtimeMutable }
  predicate IsExportable(a: AccessRules, key: string) { key !in a || a[key].exportable }
  predicate IsSecret(a: AccessRules, key: string) { key in a && a[key].secret }
  predicate IsResettable(a: AccessRules, key: string) { key !in a || a[key].resettable }

  /** The parts of a store that never change. */
  datatype Governance = Governance(
    base: map<string, Entry>,
    defaults: map<string, Entry>,
    policies: Policies,
    access: AccessRules)

  /** The parts that do. */
  datatype Overlay = Overlay(overrides: map<string, Value>, erases: set<string>) {
    predicate Disjoint() { overrides.Keys !! erases }
  }

  const NO_CHANGES := Overlay(map[], {})

  function GetValue(g: Governance, o: Overlay, key: string): Option<Value> {
    if key in o.overrides then Some(o.overrides[key])
    else if key in o.erases then None
    else GetEntryValue(g.base, key)
  }

  predicate HasRuntimeChange(o: Overlay, key: string) { key in o.overrides || key in o.erases }

  datatype Op =
    | SetOp(key: string, value: Value)
    | EraseOp(key: string)
    | ResetBaseOp(key: string)
    | ResetDefaultOp(key: string)

  // ---- what one operation does, and whether it may ----

  function ReplayOp(g: Governance, op: Op, o: Overlay): Overlay {
    match op
    case SetOp(k, v) => Overlay(o.overrides[k := v], o.erases - {k})
    case EraseOp(k) => Overlay(o.overrides - {k}, o.erases + {k})
    case ResetBaseOp(k) => Overlay(o.overrides - {k}, o.erases - {k})
    case ResetDefaultOp(k) =>
      if k in g.defaults then Overlay(o.overrides[k := g.defaults[k].value], o.erases - {k}) else o
  }

  /** Performing operations one by one in order. */
  function Replay(g: Governance, ops: seq<Op>, o: Overlay): Overlay {
    if ops == [] then o
    else ReplayOp(g, ops[|ops| - 1], Replay(g, ops[..|ops| - 1], o))
  }

  function TxError(code: string, key: string): Diagnostic {
    Diagnostic(Error, code, key, Source(Runtime, "transaction"))
  }

  /** validate_policy_value. */
  function PolicyDiags(policy: Option<KeyPolicy>, key: string, v: Value): seq<Diagnostic> {
    if policy.None? then [] else
    (if policy.value.expected.Some? && v.Type() != policy.value.expected.value
     then [TxError("CONFIG_STORE_TYPE_MISMATCH", key)] else []) +
    (if policy.value.allowed != {} && v.Str? && v.s !in policy.value.allowed
     then [TxError("CONFIG_STORE_STRING_NOT_ALLOWED", key)] else []) +
    (if v.Int? && policy.value.min.Some? && v.n < policy.value.min.value
     then [TxError("CONFIG_STORE_INT_TOO_SMALL", key)] else []) +
    (if v.Int? && policy.value.max.Some? && v.n > policy.value.max.value
     then [TxError("CONFIG_STORE_INT_TOO_LARGE", key)] else [])
  }

  function MutationDiags(g: Governance, key: string, v: Option<Value>): seq<Diagnostic> {
    (if IsRuntimeMutable(g.access, key) then [] else [TxError("CONFIG_STORE_MUTATION_DENIED", key)]) +
    (if v.None? then [] else PolicyDiags(FindKeyPolicy(g.policies, key), key, v.value))
  }

  function ResetDiags(g: Governance, key: string): seq<Diagnostic> {
    if IsResettable(g.access, key) then [] else [TxError("CONFIG_STORE_RESET_DENIED", key)]
  }

  function DefaultDiags(g: Governance, key: string): seq<Diagnostic> {
    if key !in g.defaults then [TxError("CONFIG_STORE_DEFAULT_MISSING", key)]
    else MutationDiags(g, key, Some(g.defaults[key].value))
  }

  function OpDiags(g: Governance, op: Op): seq<Diagnostic> {
    match op
    case SetOp(k, v) => MutationDiags(g, k, Some(v))
    case EraseOp(k) => MutationDiags(g, k, None)
    case ResetBaseOp(k) => ResetDiags(g, k)
    case ResetDefaultOp(k) => ResetDiags(g, k) + DefaultDiags(g, k)
  }

  function AllOpDiags(g: Governance, ops: seq<Op>): seq<Diagnostic> {
    if ops == [] then [] else AllOpDiags(g, ops[..|ops| - 1]) + OpDiags(g, ops[|ops| - 1])
  }

  /** What the governance lets a transaction do. */
  predicate Allowed(g: Governance, op: Op) {
    match op
    case SetOp(k, v) => IsRuntimeMutable(g.access, k) && Meets(PolicyFor(g.policies, k), v)
    case EraseOp(k) => IsRuntimeMutable(g.access, k)
    case ResetBaseOp(k) => IsResettable(g.access, k)
    case ResetDefaultOp(k) =>
      IsResettable(g.access, k) && k in g.defaults &&
      IsRuntimeMutable(g.access, k) && Meets(PolicyFor(g.policies, k), g.defaults[k].value)
  }

  predicate AllAllowed(g: Governance, ops: seq<Op>) { forall op :: op in ops ==> Allowed(g, op) }

  /** The store's validator and the resolver's are one predicate. */
  lemma ValidatorsAgree(p: Policies, f: Facts.Fact)
    ensures PolicyDiags(FindKeyPolicy(p, f.key), f.key, f.value) == [] <==>
            FactDiags(PolicyFor(p, f.key), f) == []
    ensures FactDiags(PolicyFor(p, f.key), f) == [] <==> Meets(PolicyFor(p, f.key), f.value)
  {}

  lemma PolicyDiagsExact(p: Policies, key: string, v: Value)
    ensures PolicyDiags(FindKeyPolicy(p, key), key, v) == [] <==> Meets(PolicyFor(p, key), v)
    ensures AllErrors(PolicyDiags(FindKeyPolicy(p, key), key, v))
  {}

  lemma OpDiagsExact(g: Governance, op: Op)
    ensures OpDiags(g, op) == [] <==> Allowed(g, op)
    ensures AllErrors(OpDiags(g, op))
  {
    if op.SetOp? || (op.ResetDefaultOp? && op.key in g.defaults) {
      var v := if op.SetOp? then op.value else g.defaults[op.key].value;
      PolicyDiagsExact(g.policies, op.key, v);
    }
  }

  lemma AllOpStep(g: Governance, before: seq<Op>, op: Op)
    ensures AllOpDiags(g, before + [op]) == AllOpDiags(g, before) + OpDiags(g, op)
    ensures AllAllowed(g, before + [op]) <==> AllAllowed(g, before) && Allowed(g, op)
    ensures AllErrors(AllOpDiags(g, before)) && AllErrors(OpDiags(g, op)) ==> AllErrors(AllOpDiags(g, before + [op]))
  {}

  lemma {:induction false} AllOpDiagsExact(g: Governance, ops: seq<Op>)
    ensures AllOpDiags(g, ops) == [] <==> AllAllowed(g, ops)
    ensures AllErrors(AllOpDiags(g, ops))
  {
    if ops != [] {
      var front, last := ops[..|ops| - 1], ops[|ops| - 1];
      assert ops == front + [last];
      AllOpDiagsExact(g, front);
      OpDiagsExact(g, last);
      AllOpStep(g, front, last);
    }
  }

  lemma {:induction false} AllOpDiagsConcat(g: Governance, a: seq<Op>, b: seq<Op>)
    ensures AllOpDiags(g, a + b) == AllOpDiags(g, a) + AllOpDiags(g, b)
  {
    if b == [] {
      assert a + b == a;
    } else {
      var front := b[..|b| - 1];
      AllOpDiagsConcat(g, a, front);
      assert (a + b)[..|a + b| - 1] == a + front;
      Reassociate(AllOpDiags(g, a), AllOpDiags(g, front), OpDiags(g, b[|b| - 1]));
    }
  }

  lemma {:induction false} ReplayConcat(g: Governance, a: seq<Op>, b: seq<Op>, o: Overlay)
    ensures Replay(g, a + b, o) == Replay(g, b, Replay(g, a, o))
  {
    if b == [] {
      assert a + b == a;
    } else {
      ReplayConcat(g, a, b[..|b| - 1], o);
      assert (a + b)[..|a + b| - 1] == a + b[..|b| - 1];
    }
  }

  // ---- the four staged collections ----

  datatype Staged = Staged(
    sets: map<string, Value>,
    erases: set<string>,
    resetBase: set<string>,
    resetDefault: set<string>)
  {
    /** Every key is in at most one collection. */
    predicate Apart() {
      sets.Keys !! erases && sets.Keys !! resetBase && sets.Keys !! resetDefault &&
      erases !! resetBase && erases !! resetDefault && resetBase !! resetDefault
    }
  }

  const NOTHING_STAGED := Staged(map[], {}, {}, {})

  function Stage(s: Staged, op: Op): Staged {
    match op
    case SetOp(k, v) => Staged(s.sets[k := v], s.erases - {k}, s.resetBase - {k}, s.resetDefault - {k})
    case EraseOp(k) => Staged(s.sets - {k}, s.erases + {k}, s.resetBase - {k}, s.resetDefault - {k})
    case ResetBaseOp(k) => Staged(s.sets - {k}, s.erases - {k}, s.resetBase + {k}, s.resetDefault - {k})
    case ResetDefaultOp(k) => Staged(s.sets - {k}, s.erases - {k}, s.resetBase - {k}, s.resetDefault + {k})
  }

  function StageAll(ops: seq<Op>): Staged {
    if ops == [] then NOTHING_STAGED else Stage(StageAll(ops[..|ops| - 1]), ops[|ops| - 1])
  }

  lemma {:induction false} StagedApart(ops: seq<Op>)
    ensures StageAll(ops).Apart()
  {
    if ops != [] { StagedApart(ops[..|ops| - 1]); }
  }

  function SetOps(sets: map<string, Value>, keys: seq<string>): seq<Op>
    requires forall k :: k in keys ==> k in sets
  {
    seq(|keys|, i requires 0 <= i < |keys| => SetOp(keys[i], sets[keys[i]]))
  }

  function EraseOps(keys: seq<string>): seq<Op> {
    seq(|keys|, i requires 0 <= i < |keys| => EraseOp(keys[i]))
  }

  function ResetBaseOps(keys: seq<string>): seq<Op> {
    seq(|keys|, i requires 0 <= i < |keys| => ResetBaseOp(keys[i]))
  }

  function ResetDefaultOps(keys: seq<string>): seq<Op> {
    seq(|keys|, i requires 0 <= i < |keys| => ResetDefaultOp(keys[i]))
  }

  /** The staged operations in the order in which validation and application visit them. */
  function OpsOf(s: Staged): seq<Op> {
    SortedKeysExact(s.sets.Keys);
    SetOps(s.sets, SortedKeys(s.sets.Keys)) + EraseOps(SortedKeys(s.erases)) +
    ResetBaseOps(SortedKeys(s.resetBase)) + ResetDefaultOps(SortedKeys(s.resetDefault))
  }

  predicate Validates(g: Governance, s: Staged) { AllAllowed(g, OpsOf(s)) }

  function Apply(g: Governance, s: Staged, o: Overlay): Overlay { Replay(g, OpsOf(s), o) }

  /** A whole commit: nothing happens unless all that is staged is allowed. */
  function Committed(g: Governance, s: Staged, o: Overlay): Overlay {
    if Validates(g, s) then Apply(g, s, o) else o
  }

  // ---- one key at a time ----

  datatype Slot = Untouched | Overridden(value: Value) | Erased

  function SlotAt(o: Overlay, key: string): Slot {
    if key in o.overrides then Overridden(o.overrides[key])
    else if key in o.erases then Erased
    else Untouched
  }

  lemma SlotsDecide(a: Overlay, b: Overlay)
    requires a.Disjoint() && b.Disjoint()
    requires forall k :: SlotAt(a, k) == SlotAt(b, k)
    ensures a == b
  {
    forall k ensures k in a.overrides <==> k in b.overrides { assert SlotAt(a, k) == SlotAt(b, k); }
    forall k ensures k in a.erases <==> k in b.erases { assert SlotAt(a, k) == SlotAt(b, k); }
    assert a.overrides.Keys == b.overrides.Keys;
    forall k | k in a.overrides ensures a.overrides[k] == b.overrides[k] {
      assert SlotAt(a, k) == SlotAt(b, k);
    }
    assert a.overrides == b.overrides;
  }

  /** What an operation leaves at its key; None when it does nothing. */
  function SlotOf(g: Governance, op: Op): Option<Slot> {
    match op
    case SetOp(_, v) => Some(Overridden(v))
    case EraseOp(_) => Some(Erased)
    case ResetBaseOp(_) => Some(Untouched)
    case ResetDefaultOp(k) => if k in g.defaults then Some(Overridden(g.defaults[k].value)) else None
  }

  lemma ReplayOpSlot(g: Governance, op: Op, o: Overlay, key: string)
    requires o.Disjoint()
    ensures ReplayOp(g, op, o).Disjoint()
    ensures SlotAt(ReplayOp(g, op, o), key) ==
            if key == op.key && SlotOf(g, op).Some? then SlotOf(g, op).value else SlotAt(o, key)
  {}

  lemma {:induction false} ReplayDisjoint(g: Governance, ops: seq<Op>, o: Overlay)
    requires o.Disjoint()
    ensures Replay(g, ops, o).Disjoint()
  {
    if ops != [] {
      ReplayDisjoint(g, ops[..|ops| - 1], o);
      ReplayOpSlot(g, ops[|ops| - 1], Replay(g, ops[..|ops| - 1], o), "");
    }
  }

  /** The last operation on a key. */
  function LastAt(ops: seq<Op>, key: string): Option<Op> {
    if ops == [] then None
    else if ops[|ops| - 1].key == key then Some(ops[|ops| - 1])
    else LastAt(ops[..|ops| - 1], key)
  }

  /** Replaying leaves at a key what the last operation on it says. */
  lemma {:induction false} ReplaySlot(g: Governance, ops: seq<Op>, o: Overlay, key: string)
    requires o.Disjoint()
    requires LastAt(ops, key).Some? ==> SlotOf(g, LastAt(ops, key).value).Some?
    ensures SlotAt(Replay(g, ops, o), key) ==
            if LastAt(ops, key).Some? then SlotOf(g, LastAt(ops, key).value).value else SlotAt(o, key)
  {
    if ops != [] {
      var front, last := ops[..|ops| - 1], ops[|ops| - 1];
      ReplayDisjoint(g, front, o);
      ReplayOpSlot(g, last, Replay(g, front, o), key);
      if last.key != key { ReplaySlot(g, front, o, key); }
    }
  }

  lemma {:induction false} LastAtIn(ops: seq<Op>, key: string)
    ensures LastAt(ops, key).Some? ==> LastAt(ops, key).value in ops && LastAt(ops, key).value.key == key
    ensures LastAt(ops, key).None? ==> forall op :: op in ops ==> op.key != key
  {
    if ops != [] {
      LastAtIn(ops[..|ops| - 1], key);
      assert ops == ops[..|ops| - 1] + [ops[|ops| - 1]];
    }
  }

  // ---- staging refines the plain list of operations ----

  /** The operation the four collections hold for a key. */
  function StagedAt(s: Staged, key: string): Option<Op> {
    if key in s.sets then Some(SetOp(key, s.sets[key]))
    else if key in s.erases then Some(EraseOp(key))
    else if key in s.resetBase then Some(ResetBaseOp(key))
    else if key in s.resetDefault then Some(ResetDefaultOp(key))
    else None
  }

  lemma {:induction false} StagedIsLast(ops: seq<Op>, key: string)
    ensures StagedAt(StageAll(ops), key) == LastAt(ops, key)
  {
    if ops != [] { StagedIsLast(ops[..|ops| - 1], key); }
  }

  lemma HasOpAt(ops: seq<Op>, keys: seq<string>, key: string)
    requires |ops| == |keys| && forall i :: 0 <= i < |keys| ==> ops[i].key == keys[i]
    ensures key in keys <==> exists op :: op in ops && op.key == key
  {}

  lemma OpsOfMembers(s: Staged, op: Op)
    requires s.Apart()
    ensures op in OpsOf(s) <==> StagedAt(s, op.key) == Some(op)
  {
    SortedKeysExact(s.sets.Keys);
    SortedKeysExact(s.erases);
    SortedKeysExact(s.resetBase);
    SortedKeysExact(s.resetDefault);
    var sets, erases := SortedKeys(s.sets.Keys), SortedKeys(s.erases);
    var resets, defaultResets := SortedKeys(s.resetBase), SortedKeys(s.resetDefault);
    HasOpAt(SetOps(s.sets, sets), sets, op.key);
    HasOpAt(EraseOps(erases), erases, op.key);
    HasOpAt(ResetBaseOps(resets), resets, op.key);
    HasOpAt(ResetDefaultOps(defaultResets), defaultResets, op.key);
  }

  function Loop(op: Op): nat {
    match op
    case SetOp(_, _) => 0
    case EraseOp(_) => 1
    case ResetBaseOp(_) => 2
    case ResetDefaultOp(_) => 3
  }

  /** The visit: sets, erases, base resets, default resets, each in key order. */
  lemma OpsOfOrder(s: Staged, i: nat, j: nat)
    requires i < j < |OpsOf(s)|
    ensures var a, b := OpsOf(s)[i], OpsOf(s)[j];
            Loop(a) < Loop(b) || (Loop(a) == Loop(b) && DictionaryBefore(a.key, b.key))
  {
    SortedKeysExact(s.sets.Keys);
    SortedKeysExact(s.erases);
    SortedKeysExact(s.resetBase);
    SortedKeysExact(s.resetDefault);
    LessIsDictionary(OpsOf(s)[i].key, OpsOf(s)[j].key);
  }

  /** A transaction validates exactly when, at every key, what is staged there is allowed. */
  lemma ValidatesByKey(g: Governance, s: Staged)
    requires s.Apart()
    ensures Validates(g, s) <==> forall k :: StagedAt(s, k).Some? ==> Allowed(g, StagedAt(s, k).value)
  {
    forall k | StagedAt(s, k).Some? ensures StagedAt(s, k).value in OpsOf(s) {
      OpsOfMembers(s, StagedAt(s, k).value);
    }
    forall op | op in OpsOf(s) ensures StagedAt(s, op.key) == Some(op) { OpsOfMembers(s, op); }
  }

  /** A list with exactly the staged operations has each as the last one at its key. */
  lemma LastOfStaged(s: Staged, ops: seq<Op>, key: string)
    requires s.Apart()
    requires forall op :: op in ops <==> op in OpsOf(s)
    ensures LastAt(ops, key) == StagedAt(s, key)
  {
    LastAtIn(ops, key);
    if LastAt(ops, key).Some? { OpsOfMembers(s, LastAt(ops, key).value); }
    if StagedAt(s, key).Some? { OpsOfMembers(s, StagedAt(s, key).value); }
  }

  lemma AllowedHasSlot(g: Governance, s: Staged, key: string)
    requires s.Apart() && Validates(g, s) && StagedAt(s, key).Some?
    ensures SlotOf(g, StagedAt(s, key).value).Some?
  {
    OpsOfMembers(s, StagedAt(s, key).value);
    assert Allowed(g, StagedAt(s, key).value);
  }

  lemma ApplySlot(g: Governance, s: Staged, o: Overlay, key: string)
    requires s.Apart() && o.Disjoint() && Validates(g, s)
    ensures if StagedAt(s, key).None? then SlotAt(Apply(g, s, o), key) == SlotAt(o, key)
            else SlotOf(g, StagedAt(s, key).value) == Some(SlotAt(Apply(g, s, o), key))
  {
    LastOfStaged(s, OpsOf(s), key);
    if StagedAt(s, key).Some? { AllowedHasSlot(g, s, key); }
    ReplaySlot(g, OpsOf(s), o, key);
  }

  /** A successful commit has the effect of performing every staged operation one by
      one in call order. */
  lemma CommitRefinesReplay(g: Governance, ops: seq<Op>, o: Overlay)
    requires o.Disjoint() && Validates(g, StageAll(ops))
    ensures Apply(g, StageAll(ops), o) == Replay(g, ops, o)
  {
    var s := StageAll(ops);
    StagedApart(ops);
    ReplayDisjoint(g, ops, o);
    ReplayDisjoint(g, OpsOf(s), o);
    forall k ensures SlotAt(Apply(g, s, o), k) == SlotAt(Replay(g, ops, o), k) {
      ApplySlot(g, s, o, k);
      StagedIsLast(ops, k);
      if StagedAt(s, k).Some? { AllowedHasSlot(g, s, k); }
      ReplaySlot(g, ops, o, k);
    }
    SlotsDecide(Apply(g, s, o), Replay(g, ops, o));
  }

  /** The order of the four application loops, and of the keys within them, is immaterial. */
  lemma ApplyOrderImmaterial(g: Governance, s: Staged, reordered: seq<Op>, o: Overlay)
    requires s.Apart() && o.Disjoint() && Validates(g, s)
    requires forall op :: op in reordered <==> op in OpsOf(s)
    ensures Replay(g, reordered, o) == Apply(g, s, o)
  {
    ReplayDisjoint(g, reordered, o);
    ReplayDisjoint(g, OpsOf(s), o);
    forall k ensures SlotAt(Replay(g, reordered, o), k) == SlotAt(Apply(g, s, o), k) {
      ApplySlot(g, s, o, k);
      LastOfStaged(s, reordered, k);
      if StagedAt(s, k).Some? { AllowedHasSlot(g, s, k); }
      ReplaySlot(g, reordered, o, k);
    }
    SlotsDecide(Replay(g, reordered, o), Apply(g, s, o));
  }

  lemma CommitDisjoint(g: Governance, s: Staged, o: Overlay)
    requires o.Disjoint()
    ensures Committed(g, s, o).Disjoint()
  {
    ReplayDisjoint(g, OpsOf(s), o);
  }

  // A commit, key by key.
  lemma CommitSlot(g: Governance, s: Staged, o: Overlay, key: string)
    requires s.Apart() && o.Disjoint()
    ensures if !Validates(g, s) || StagedAt(s, key).None? then SlotAt(Committed(g, s, o), key) == SlotAt(o, key)
            else SlotOf(g, StagedAt(s, key).value) == Some(SlotAt(Committed(g, s, o), key))
  {
    if Validates(g, s) { ApplySlot(g, s, o, key); }
  }

  /** Committing twice in a row equals committing once. */
  lemma CommitIdempotent(g: Governance, s: Staged, o: Overlay)
    requires s.Apart() && o.Disjoint()
    ensures Committed(g, s, Committed(g, s, o)) == Committed(g, s, o)
  {
    var once := Committed(g, s, o);
    CommitDisjoint(g, s, o);
    CommitDisjoint(g, s, once);
    forall k ensures SlotAt(Committed(g, s, once), k) == SlotAt(once, k) {
      CommitSlot(g, s, o, k);
      CommitSlot(g, s, once, k);
    }
    SlotsDecide(Committed(g, s, once), once);
  }

  ghost predicate DisjointKeys(s: Staged, t: Staged) {
    forall k :: StagedAt(s, k).None? || StagedAt(t, k).None?
  }

  /** Transactions on disjoint keys commute, whatever their verdicts. */
  lemma CommitsCommute(g: Governance, s: Staged, t: Staged, o: Overlay)
    requires s.Apart() && t.Apart() && o.Disjoint() && DisjointKeys(s, t)
    ensures Committed(g, t, Committed(g, s, o)) == Committed(g, s, Committed(g, t, o))
  {
    var st, ts := Committed(g, t, Committed(g, s, o)), Committed(g, s, Committed(g, t, o));
    CommitDisjoint(g, s, o);
    CommitDisjoint(g, t, o);
    CommitDisjoint(g, t, Committed(g, s, o));
    CommitDisjoint(g, s, Committed(g, t, o));
    forall k ensures SlotAt(st, k) == SlotAt(ts, k) {
      CommitSlot(g, s, o, k);
      CommitSlot(g, t, o, k);
      CommitSlot(g, t, Committed(g, s, o), k);
      CommitSlot(g, s, Committed(g, t, o), k);
      assert StagedAt(s, k).None? || StagedAt(t, k).None?;
    }
    SlotsDecide(st, ts);
  }
}
