/** The governed store, its access policy and its transactions as objects. */
module Store {
  import opened Wrappers
  import opened Values
  import opened Sources
  import opened Diagnostics
  import opened Facts
  import opened Policy
  import opened Ordering
  import opened Sequences
  import opened Resolver
  import opened Governed

  const DEFAULT_RULE := AccessRule(true, true, false, true)

  class AccessPolicy {
    var rules: map<string, AccessRule>

    constructor ()
      ensures rules == map[]
    {
      rules := map[];
    }

    function RuleOr(key: string): AccessRule
      reads this
    {
      if key in rules then rules[key] else DEFAULT_RULE
    }

    method RuntimeMutable(key: string, value: bool)
      modifies this
      ensures rules == old(rules)[key := old(RuleOr(key)).(runtimeMutable := value)]
      ensures IsRuntimeMutable(rules, key) == value
      ensures forall k :: k != key ==> IsRuntimeMutable(rules, k) == IsRuntimeMutable(old(rules), k)
      ensures forall k :: IsExportable(rules, k) == IsExportable(old(rules), k)
      ensures forall k :: IsSecret(rules, k) == IsSecret(old(rules), k)
      ensures forall k :: IsResettable(rules, k) == IsResettable(old(rules), k)
    {
      rules := rules[key := RuleOr(key).(runtimeMutable := value)];
    }

    method Exportable(key: string, value: bool)
      modifies this
      ensures rules == old(rules)[key := old(RuleOr(key)).(exportable := value)]
      ensures IsExportable(rules, key) == value
      ensures forall k :: k != key ==> IsExportable(rules, k) == IsExportable(old(rules), k)
      ensures forall k :: IsRuntimeMutable(rules, k) == IsRuntimeMutable(old(rules), k)
      ensures forall k :: IsSecret(rules, k) == IsSecret(old(rules), k)
      ensures forall k :: IsResettable(rules, k) == IsResettable(old(rules), k)
    {
      rules := rules[key := RuleOr(key).(exportable := value)];
    }

    method Secret(key: string, value: bool)
      modifies this
      ensures rules.Keys == old(rules).Keys + {key}
      ensures forall k :: k in old(rules) && k != key ==> rules[k] == old(rules)[k]
      ensures IsSecret(rules, key) == value && (value ==> !IsExportable(rules, key))
      ensures IsRuntimeMutable(rules, key) == old(IsRuntimeMutable(rules, key))
      ensures IsResettable(rules, key) == old(IsResettable(rules, key))
      ensures !value ==> IsExportable(rules, key) == old(IsExportable(rules, key))
    {
      var rule := RuleOr(key).(secret := value);
      if value { rule := rule.(exportable := false); }
      rules := rules[key := rule];
    }

    method Resettable(key: string, value: bool)
      modifies this
      ensures rules == old(rules)[key := old(RuleOr(key)).(resettable := value)]
      ensures IsResettable(rules, key) == value
      ensures forall k :: k != key ==> IsResettable(rules, k) == IsResettable(old(rules), k)
      ensures forall k :: IsRuntimeMutable(rules, k) == IsRuntimeMutable(old(rules), k)
      ensures forall k :: IsExportable(rules, k) == IsExportable(old(rules), k)
      ensures forall k :: IsSecret(rules, k) == IsSecret(old(rules), k)
    {
      rules := rules[key := RuleOr(key).(resettable := value)];
    }
  }

  // ---- known defaults ----

  function DefaultEntry(f: Fact): Entry { Entry(f.key, f.value, f.source, [f]) }

  function CandidateDefaults(s: seq<Fact>, known: map<string, Entry>): map<string, Entry> {
    if s == [] then known
    else
      var last := s[|s| - 1];
      var before := CandidateDefaults(s[..|s| - 1], known);
      if last.source.kind.InternalDefault? then before[last.key := DefaultEntry(last)] else before
  }

  function EntryDefaults(e: Entry, known: map<string, Entry>): map<string, Entry> {
    CandidateDefaults(e.candidates, if e.source.kind.InternalDefault? then known[e.key := e] else known)
  }

  function DefaultsOver(base: map<string, Entry>, keys: seq<string>): map<string, Entry>
    requires forall k :: k in keys ==> k in base
  {
    if keys == [] then map[]
    else
      assert keys[|keys| - 1] in keys;
      EntryDefaults(base[keys[|keys| - 1]], DefaultsOver(base, keys[..|keys| - 1]))
  }

  lemma DefaultsStep(base: map<string, Entry>, keys: seq<string>, i: nat)
    requires i < |keys| && forall k :: k in keys ==> k in base
    ensures DefaultsOver(base, keys[..i + 1]) == EntryDefaults(base[keys[i]], DefaultsOver(base, keys[..i]))
  {
    assert keys[..i + 1][..i] == keys[..i];
  }

  function DefaultsOf(base: map<string, Entry>): map<string, Entry> {
    SortedKeysExact(base.Keys);
    DefaultsOver(base, SortedKeys(base.Keys))
  }

  /** What rules a store built from a resolution result. */
  function GovernanceOf(r: ResolveResult, p: Policies, a: AccessRules): Governance {
    Governance(r.config, DefaultsOf(r.config), p, a)
  }

  class ConfigStore {
    const base: map<string, Entry>
    const defaults: map<string, Entry>
    const policies: Policies
    const access: AccessRules
    var runtimeOverrides: map<string, Value>
    var runtimeErases: set<string>
    var diagnostics: seq<Diagnostic>

    function Rules(): Governance { Governance(base, defaults, policies, access) }

    function Changes(): Overlay
      reads this
    {
      Overlay(runtimeOverrides, runtimeErases)
    }

    constructor FromLayers(defaults: map<string, Entry>, base: map<string, Entry>, policies: Policies,
                           access: AccessRules)
      ensures Rules() == Governance(base, defaults, policies, access)
      ensures Changes() == NO_CHANGES && diagnostics == []
    {
      this.base, this.defaults, this.policies, this.access := base, defaults, policies, access;
      runtimeOverrides, runtimeErases, diagnostics := map[], {}, [];
    }

    static method CollectDefaults(e: Entry, defaults: ResolvedConfig)
      modifies defaults
      ensures defaults.entries == EntryDefaults(e, old(defaults.entries))
    {
      if e.source.kind == InternalDefault { defaults.Set(e); }
      ghost var known := defaults.entries;
      for i := 0 to |e.candidates|
        invariant defaults.entries == CandidateDefaults(e.candidates[..i], known)
      {
        var c := e.candidates[i];
        assert e.candidates[..i + 1][..i] == e.candidates[..i];
        if c.source.kind == InternalDefault {
          defaults.Set(Entry(c.key, c.value, c.source, [c]));
        }
      }
      assert e.candidates[..|e.candidates|] == e.candidates;
    }

    static method FromResult(result: ResolveResult, policies: Policies, access: AccessRules)
      returns (store: ConfigStore)
      ensures fresh(store)
      ensures store.Rules() == GovernanceOf(result, policies, access)
      ensures store.Changes() == NO_CHANGES && store.diagnostics == result.diagnostics
    {
      var base := result.config;
      var defaults := new ResolvedConfig();
      var keys := SortedKeys(base.Keys);
      SortedKeysExact(base.Keys);
      for i := 0 to |keys|
        invariant defaults.entries == DefaultsOver(base, keys[..i])
      {
        DefaultsStep(base, keys, i);
        CollectDefaults(base[keys[i]], defaults);
      }
      assert keys[..|keys|] == keys;
      store := new ConfigStore.FromLayers(defaults.entries, base, policies, access);
      store.diagnostics := result.diagnostics;
    }

    function Get(key: string): (v: Option<Value>)
      reads this
      ensures v == GetValue(Rules(), Changes(), key)
    {
      if key in runtimeOverrides then Some(runtimeOverrides[key])
      else if key in runtimeErases then None
      else if key in base then Some(base[key].value)
      else None
    }

    method ValidatePolicyValue(policy: Option<KeyPolicy>, key: string, v: Value, log: DiagnosticLog)
      returns (ok: bool)
      modifies log
      ensures log.items == old(log.items) + PolicyDiags(policy, key, v)
      ensures ok <==> PolicyDiags(policy, key, v) == []
    {
      if policy.None? { return true; }
      var kp := policy.value;
      ok := true;
      if kp.expected.Some? && v.Type() != kp.expected.value {
        log.Add(TxError("CONFIG_STORE_TYPE_MISMATCH", key));
        ok := false;
      }
      if kp.allowed != {} && v.Type() == StringType && v.s !in kp.allowed {
        log.Add(TxError("CONFIG_STORE_STRING_NOT_ALLOWED", key));
        ok := false;
      }
      if v.Type() == IntType {
        if kp.min.Some? && v.n < kp.min.value {
          log.Add(TxError("CONFIG_STORE_INT_TOO_SMALL", key));
          ok := false;
        }
        if kp.max.Some? && v.n > kp.max.value {
          log.Add(TxError("CONFIG_STORE_INT_TOO_LARGE", key));
          ok := false;
        }
      }
    }

    method ValidateMutation(key: string, v: Option<Value>, log: DiagnosticLog) returns (ok: bool)
      modifies log
      ensures log.items == old(log.items) + MutationDiags(Rules(), key, v)
      ensures ok <==> MutationDiags(Rules(), key, v) == []
    {
      ok := true;
      if !IsRuntimeMutable(access, key) {
        log.Add(TxError("CONFIG_STORE_MUTATION_DENIED", key));
        ok := false;
      }
      if v.Some? {
        var meets := ValidatePolicyValue(FindKeyPolicy(policies, key), key, v.value, log);
        ok := meets && ok;
      }
    }

    // One turn of an application loop.
    method ApplyOp(op: Op)
      modifies this`runtimeOverrides, this`runtimeErases
      ensures Changes() == ReplayOp(Rules(), op, old(Changes()))
    {
      match op
      case SetOp(k, v) =>
        runtimeOverrides := runtimeOverrides[k := v];
        runtimeErases := runtimeErases - {k};
      case EraseOp(k) =>
        runtimeOverrides := runtimeOverrides - {k};
        runtimeErases := runtimeErases + {k};
      case ResetBaseOp(k) =>
        runtimeOverrides := runtimeOverrides - {k};
        runtimeErases := runtimeErases - {k};
      case ResetDefaultOp(k) =>
        if k in defaults {
          runtimeOverrides := runtimeOverrides[k := defaults[k].value];
          runtimeErases := runtimeErases - {k};
        }
    }

    method ApplyEach(ops: seq<Op>)
      modifies this`runtimeOverrides, this`runtimeErases
      ensures Changes() == Replay(Rules(), ops, old(Changes()))
    {
      for i := 0 to |ops|
        invariant Changes() == Replay(Rules(), ops[..i], old(Changes()))
      {
        assert ops[..i + 1][..i] == ops[..i];
        ApplyOp(ops[i]);
      }
      assert ops[..|ops|] == ops;
    }

    method ApplyTransaction(s: Staged)
      modifies this`runtimeOverrides, this`runtimeErases
      ensures Changes() == Apply(Rules(), s, old(Changes()))
    {
      SortedKeysExact(s.sets.Keys);
      var sets := SetOps(s.sets, SortedKeys(s.sets.Keys));
      var erases := EraseOps(SortedKeys(s.erases));
      var resets := ResetBaseOps(SortedKeys(s.resetBase));
      var defaultResets := ResetDefaultOps(SortedKeys(s.resetDefault));
      ReplayConcat(Rules(), sets, erases, Changes());
      ReplayConcat(Rules(), sets + erases, resets, Changes());
      ReplayConcat(Rules(), sets + erases + resets, defaultResets, Changes());
      ApplyEach(sets);
      ApplyEach(erases);
      ApplyEach(resets);
      ApplyEach(defaultResets);
    }

    method BeginTransaction() returns (tx: ConfigTransaction)
      ensures fresh(tx) && tx.store == this && tx.Pending() == NOTHING_STAGED
    {
      tx := new ConfigTransaction(this);
    }
  }

  class ConfigTransaction {
    const store: ConfigStore
    var stagedSets: map<string, Value>
    var stagedErases: set<string>
    var stagedResetBase: set<string>
    var stagedResetDefault: set<string>
    var diagnostics: DiagnosticLog

    function Pending(): Staged
      reads this
    {
      Staged(stagedSets, stagedErases, stagedResetBase, stagedResetDefault)
    }

    constructor (store: ConfigStore)
      ensures this.store == store && Pending() == NOTHING_STAGED && fresh(diagnostics)
    {
      this.store := store;
      stagedSets, stagedErases, stagedResetBase, stagedResetDefault := map[], {}, {}, {};
      diagnostics := new DiagnosticLog();
    }

    method SetValue(key: string, value: Value)
      modifies this`stagedSets, this`stagedErases, this`stagedResetBase, this`stagedResetDefault
      ensures Pending() == Stage(old(Pending()), SetOp(key, value))
    {
      stagedSets := stagedSets[key := value];
      stagedErases := stagedErases - {key};
      stagedResetBase := stagedResetBase - {key};
      stagedResetDefault := stagedResetDefault - {key};
    }

    method Erase(key: string)
      modifies this`stagedSets, this`stagedErases, this`stagedResetBase, this`stagedResetDefault
      ensures Pending() == Stage(old(Pending()), EraseOp(key))
    {
      stagedSets := stagedSets - {key};
      stagedErases := stagedErases + {key};
      stagedResetBase := stagedResetBase - {key};
      stagedResetDefault := stagedResetDefault - {key};
    }

    method ResetToBase(key: string)
      modifies this`stagedSets, this`stagedErases, this`stagedResetBase, this`stagedResetDefault
      ensures Pending() == Stage(old(Pending()), ResetBaseOp(key))
    {
      stagedSets := stagedSets - {key};
      stagedErases := stagedErases - {key};
      stagedResetDefault := stagedResetDefault - {key};
      stagedResetBase := stagedResetBase + {key};
    }

    method ResetToDefault(key: string)
      modifies this`stagedSets, this`stagedErases, this`stagedResetBase, this`stagedResetDefault
      ensures Pending() == Stage(old(Pending()), ResetDefaultOp(key))
    {
      stagedSets := stagedSets - {key};
      stagedErases := stagedErases - {key};
      stagedResetBase := stagedResetBase - {key};
      stagedResetDefault := stagedResetDefault + {key};
    }

    // One turn of a validation loop.
    method ValidateOp(op: Op, log: DiagnosticLog) returns (ok: bool)
      modifies log
      ensures log.items == old(log.items) + OpDiags(store.Rules(), op)
      ensures ok <==> Allowed(store.Rules(), op)
    {
      OpDiagsExact(store.Rules(), op);
      ok := true;
      match op
      case SetOp(k, v) => ok := store.ValidateMutation(k, Some(v), log);
      case EraseOp(k) => ok := store.ValidateMutation(k, None, log);
      case ResetBaseOp(k) =>
        if !IsResettable(store.access, k) {
          log.Add(TxError("CONFIG_STORE_RESET_DENIED", k));
          ok := false;
        }
      case ResetDefaultOp(k) => ok := ValidateResetDefault(k, log);
    }

    method ValidateResetDefault(key: string, log: DiagnosticLog) returns (ok: bool)
      modifies log
      ensures log.items == old(log.items) + OpDiags(store.Rules(), ResetDefaultOp(key))
      ensures ok <==> OpDiags(store.Rules(), ResetDefaultOp(key)) == []
    {
      ghost var rest := DefaultDiags(store.Rules(), key);
      Reassociate(old(log.items), ResetDiags(store.Rules(), key), rest);
      ok := true;
      if !IsResettable(store.access, key) {
        log.Add(TxError("CONFIG_STORE_RESET_DENIED", key));
        ok := false;
      }
      assert log.items == old(log.items) + ResetDiags(store.Rules(), key);
      if key !in store.defaults {
        log.Add(TxError("CONFIG_STORE_DEFAULT_MISSING", key));
        ok := false;
      } else {
        var may := store.ValidateMutation(key, Some(store.defaults[key].value), log);
        ok := may && ok;
      }
    }

    method ValidateEach(ops: seq<Op>, log: DiagnosticLog) returns (ok: bool)
      modifies log
      ensures log.items == old(log.items) + AllOpDiags(store.Rules(), ops)
      ensures ok <==> AllAllowed(store.Rules(), ops)
    {
      ok := true;
      for i := 0 to |ops|
        invariant log.items == old(log.items) + AllOpDiags(store.Rules(), ops[..i])
        invariant ok <==> AllAllowed(store.Rules(), ops[..i])
      {
        var op, before := ops[i], ops[..i];
        PrefixStep(ops, i);
        AllOpStep(store.Rules(), before, op);
        Reassociate(old(log.items), AllOpDiags(store.Rules(), before), OpDiags(store.Rules(), op));
        var one := ValidateOp(op, log);
        ok := one && ok;
      }
      assert ops[..|ops|] == ops;
    }

    method Validate() returns (ok: bool)
      modifies this`diagnostics
      ensures ok <==> Validates(store.Rules(), Pending())
      ensures fresh(diagnostics) && diagnostics.items == AllOpDiags(store.Rules(), OpsOf(Pending()))
    {
      diagnostics := new DiagnosticLog();
      ghost var g := store.Rules();
      SortedKeysExact(stagedSets.Keys);
      var sets := SetOps(stagedSets, SortedKeys(stagedSets.Keys));
      var erases := EraseOps(SortedKeys(stagedErases));
      var resets := ResetBaseOps(SortedKeys(stagedResetBase));
      var defaultResets := ResetDefaultOps(SortedKeys(stagedResetDefault));
      AllOpDiagsConcat(g, sets, erases);
      AllOpDiagsConcat(g, sets + erases, resets);
      AllOpDiagsConcat(g, sets + erases + resets, defaultResets);
      AllOpDiagsExact(g, sets + erases + resets + defaultResets);
      var a := ValidateEach(sets, diagnostics);
      assert diagnostics.items == AllOpDiags(g, sets);
      var b := ValidateEach(erases, diagnostics);
      var c := ValidateEach(resets, diagnostics);
      var d := ValidateEach(defaultResets, diagnostics);
      ok := a && b && c && d && !HasErrors(diagnostics.items);
    }

    method Commit() returns (ok: bool)
      modifies this`diagnostics, store`runtimeOverrides, store`runtimeErases
      ensures ok <==> Validates(store.Rules(), Pending())
      ensures store.Changes() == Committed(store.Rules(), Pending(), old(store.Changes()))
      ensures fresh(diagnostics) && diagnostics.items == AllOpDiags(store.Rules(), OpsOf(Pending()))
    {
      ok := Validate();
      if ok { store.ApplyTransaction(Pending()); }
    }

    method Rollback()
      modifies this
      ensures Pending() == NOTHING_STAGED
      ensures fresh(diagnostics) && diagnostics.items == []
    {
      stagedSets, stagedErases, stagedResetBase, stagedResetDefault := map[], {}, {}, {};
      diagnostics := new DiagnosticLog();
    }
  }
}
