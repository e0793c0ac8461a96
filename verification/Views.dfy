/** The key algebra of scoped views. */
module Prefixes {
  import opened Keys

  function Qualify(prefix: string, local: string): string {
    if prefix == "" then local
    else if local == "" then prefix
    else prefix + "." + local
  }

  predicate Owns(prefix: string, dotted: string) {
    prefix == "" || dotted == prefix || prefix + "." <= dotted
  }

  function Localize(prefix: string, dotted: string): string {
    if prefix == "" then dotted
    else if dotted == prefix then ""
    else if prefix + "." <= dotted then dotted[|prefix| + 1..]
    else dotted
  }

  /** Qualifying through q and then p is qualifying through p.q. */
  lemma QualifyComposes(p: string, q: string, local: string)
    ensures Qualify(p, Qualify(q, local)) == Qualify(Qualify(p, q), local)
  {}

  lemma LocalizeQualify(p: string, local: string)
    ensures Owns(p, Qualify(p, local))
    ensures Localize(p, Qualify(p, local)) == local
  {}

  /** Qualifying a localised key gives back the full key, except for the one ill-formed
      key made of the prefix and a final dot. */
  lemma QualifyLocalize(p: string, full: string)
    requires Owns(p, full)
    ensures Qualify(p, Localize(p, full)) == full <==> !(p != "" && full == p + ".")
    ensures ValidDotted(full) ==> Qualify(p, Localize(p, full)) == full
  {}

  /** p.q owns a full key exactly when p owns it and q owns its localised form. */
  lemma OwnsComposes(p: string, q: string, full: string)
    ensures Owns(Qualify(p, q), full) <==> Owns(p, full) && Owns(q, Localize(p, full))
  {}
}

/** Scoped views: the listing of a view's keys, the view as an object, and its exports. */
module Views {
  import opened Wrappers
  import opened Values
  import opened Facts
  import opened Policy
  import opened Keys
  import opened Ordering
  import opened Resolver
  import opened Governed
  import opened Store
  import opened Runs
  import opened Prefixes
  import opened Exports
  import ResolverLaws

  // ---- listing ----

  function LocalKeys(prefix: string, keys: set<string>): set<string> {
    set k | k in keys && Owns(prefix, k) :: Localize(prefix, k)
  }

  /** The keys a view lists. */
  function Listed(g: Governance, o: Overlay, prefix: string): set<string> {
    LocalKeys(prefix, o.overrides.Keys) + LocalKeys(prefix, g.base.Keys - o.erases) - LocalKeys(prefix, o.erases)
  }

  // ---- the object ----

  /** A read-only view borrows its store. */
  class ConfigView {
    const store: ConfigStore
    const prefix: string

    constructor (store: ConfigStore, prefix: string)
      ensures this.store == store && this.prefix == prefix
    {
      this.store, this.prefix := store, prefix;
    }

    function Get(local: string): (v: Option<Value>)
      reads this, store
      ensures v == GetValue(store.Rules(), store.Changes(), Qualify(prefix, local))
    {
      store.Get(Qualify(prefix, local))
    }

    method Keys() returns (keys: seq<string>)
      ensures keys == SortedKeys(Listed(store.Rules(), store.Changes(), prefix))
    {
      var overrides := CollectLocal(store.runtimeOverrides.Keys, {});
      var kept := CollectLocal(store.base.Keys, store.runtimeErases);
      var erased := CollectLocal(store.runtimeErases, {});
      assert store.runtimeOverrides.Keys - {} == store.runtimeOverrides.Keys;
      assert store.runtimeErases - {} == store.runtimeErases;
      keys := SortedKeys(overrides + kept - erased);
    }

    // One loop of keys(): localise the owned keys that are not skipped.
    method CollectLocal(all: set<string>, skip: set<string>) returns (local: set<string>)
      ensures local == LocalKeys(prefix, all - skip)
    {
      var keys := SortedKeys(all);
      SortedKeysExact(all);
      local := {};
      for i := 0 to |keys|
        invariant local == set k | k in keys[..i] && k !in skip && Owns(prefix, k) :: Localize(prefix, k)
      {
        if Owns(prefix, keys[i]) && keys[i] !in skip {
          local := local + {Localize(prefix, keys[i])};
        }
      }
      assert keys[..|keys|] == keys;
    }

    method ExportConfig(mode: ExportMode) returns (out: seq<ExportEntry>)
      ensures out == ExportIn(store.Rules(), store.Changes(), Scope(prefix, false), mode)
    {
      out := ExportScope(store, Scope(prefix, false), mode);
    }

    method ExportLocalConfig(mode: ExportMode) returns (out: seq<ExportEntry>)
      ensures out == ExportIn(store.Rules(), store.Changes(), Scope(prefix, true), mode)
    {
      out := ExportScope(store, Scope(prefix, true), mode);
    }
  }

  // ---- when a key is listed ----

  predicate Live(g: Governance, o: Overlay, key: string) { GetValue(g, o, key).Some? }

  // The full keys that localise to a given local key.
  lemma LocalKeysMember(prefix: string, keys: set<string>, local: string)
    ensures local in LocalKeys(prefix, keys) <==>
            Qualify(prefix, local) in keys || (local == "" && prefix != "" && prefix + "." in keys)
  {
    LocalizeQualify(prefix, local);
    if local in LocalKeys(prefix, keys) {
      var k :| k in keys && Owns(prefix, k) && Localize(prefix, k) == local;
      QualifyLocalize(prefix, k);
    }
    if local == "" && prefix != "" && prefix + "." in keys {
      assert Owns(prefix, prefix + ".") && Localize(prefix, prefix + ".") == "";
    }
  }

  /** A view lists a local key exactly when it accepts it. The one exception is the empty
      local key, which the ill-formed full key "prefix." can add or take away. */
  lemma ListingExactly(g: Governance, o: Overlay, prefix: string, local: string)
    requires o.Disjoint()
    ensures (local in Listed(g, o, prefix) <==> Live(g, o, Qualify(prefix, local))) <==>
            (local == "" && prefix != "" ==>
               (Live(g, o, prefix + ".") ==> Live(g, o, prefix) || prefix in o.erases) &&
               (Live(g, o, prefix) ==> prefix + "." !in o.erases))
  {
    LocalKeysMember(prefix, o.overrides.Keys, local);
    LocalKeysMember(prefix, g.base.Keys - o.erases, local);
    LocalKeysMember(prefix, o.erases, local);
  }

  predicate AllKeysValid(g: Governance, o: Overlay) {
    (forall k :: k in g.base ==> ValidDotted(k)) &&
    (forall k :: k in o.overrides ==> ValidDotted(k)) &&
    (forall k :: k in o.erases ==> ValidDotted(k))
  }

  /** With valid keys the listing is exact, and each listed key names one effective full
      key inside the prefix. */
  lemma ListingOfValidKeys(g: Governance, o: Overlay, prefix: string, local: string)
    requires o.Disjoint() && AllKeysValid(g, o)
    ensures local in Listed(g, o, prefix) <==> Live(g, o, Qualify(prefix, local))
    ensures local in Listed(g, o, prefix) ==> Owns(prefix, Qualify(prefix, local))
  {
    ListingExactly(g, o, prefix, local);
    LocalizeQualify(prefix, local);
    assert (prefix + ".")[|prefix|] == '.';
  }

  // ---- in every run ----

  predicate StagesValidKeys(steps: seq<Step>) {
    forall step :: step in steps && step.StageStep? ==> ValidDotted(step.op.key)
  }

  predicate StagedKeysValid(s: Staged) {
    (forall k :: k in s.sets ==> ValidDotted(k)) && (forall k :: k in s.erases ==> ValidDotted(k)) &&
    (forall k :: k in s.resetBase ==> ValidDotted(k)) && (forall k :: k in s.resetDefault ==> ValidDotted(k))
  }

  lemma {:induction false} ReplayKeysValid(g: Governance, ops: seq<Op>, o: Overlay)
    requires AllKeysValid(g, o) && forall op :: op in ops ==> ValidDotted(op.key)
    ensures AllKeysValid(g, Replay(g, ops, o))
  {
    if ops != [] {
      assert ops[|ops| - 1] in ops;
      ReplayKeysValid(g, ops[..|ops| - 1], o);
    }
  }

  lemma CommitKeysValid(g: Governance, s: Staged, o: Overlay)
    requires AllKeysValid(g, o) && StagedKeysValid(s) && s.Apart()
    ensures AllKeysValid(g, Committed(g, s, o))
  {
    forall op | op in OpsOf(s) ensures ValidDotted(op.key) { OpsOfMembers(s, op); }
    ReplayKeysValid(g, OpsOf(s), o);
  }

  lemma {:induction false} RunKeysValid(g: Governance, steps: seq<Step>)
    requires AllKeysValid(g, NO_CHANGES) && StagesValidKeys(steps)
    ensures AllKeysValid(g, Run(g, steps).changes)
    ensures forall i :: 0 <= i < |Run(g, steps).txs| ==> StagedKeysValid(Run(g, steps).txs[i])
  {
    if steps != [] {
      var front, last := steps[..|steps| - 1], steps[|steps| - 1];
      assert last in steps;
      RunKeysValid(g, front);
      RunInvariant(g, front);
      var before := Run(g, front);
      if last.CommitStep? && last.tx < |before.txs| {
        CommitKeysValid(g, before.txs[last.tx], before.changes);
      }
    }
  }

  /** A store built from a resolution starts with valid keys only. */
  lemma ResolvedKeysValid(facts: seq<Fact>, p: Policies, access: AccessRules)
    ensures AllKeysValid(GovernanceOf(Resolve(facts, p), p, access), NO_CHANGES)
  {
    ResolverLaws.ConfigKeys(facts, p);
    forall k | k in Resolve(facts, p).config ensures ValidDotted(k) {
      ChosenKey(facts, p, k);
      GroupMembers(facts, p, k);
    }
  }

  /** In every reachable state of a store whose base and staged keys are valid, a view
      lists exactly the local keys it accepts, each naming one key inside the prefix. */
  lemma ListingInEveryRun(g: Governance, steps: seq<Step>, o: Overlay, prefix: string, local: string)
    requires AllKeysValid(g, NO_CHANGES) && StagesValidKeys(steps)
    requires o == Run(g, steps).changes
    ensures local in Listed(g, o, prefix) <==> Live(g, o, Qualify(prefix, local))
    ensures local in Listed(g, o, prefix) ==> Owns(prefix, Qualify(prefix, local))
  {
    RunKeysValid(g, steps);
    RunInvariant(g, steps);
    ListingOfValidKeys(g, o, prefix, local);
  }

  /** The exception is reached: one committed value at "prefix." lists an empty local key
      that the view does not accept, and one committed erase there hides one that it does. */
  lemma DanglingKeyBreaksListing(g: Governance, prefix: string, v: Value)
    requires prefix != "" && IsRuntimeMutable(g.access, prefix + ".")
    ensures prefix !in g.base && Meets(PolicyFor(g.policies, prefix + "."), v) ==>
              var o := Run(g, OneChange(SetOp(prefix + ".", v))).changes;
              "" in Listed(g, o, prefix) && !Live(g, o, Qualify(prefix, ""))
    ensures prefix in g.base ==>
              var o := Run(g, OneChange(EraseOp(prefix + "."))).changes;
              "" !in Listed(g, o, prefix) && Live(g, o, Qualify(prefix, ""))
  {
    if prefix in g.base {
      OneChangeRun(g, EraseOp(prefix + "."));
      ListingExactly(g, Run(g, OneChange(EraseOp(prefix + "."))).changes, prefix, "");
    } else if Meets(PolicyFor(g.policies, prefix + "."), v) {
      OneChangeRun(g, SetOp(prefix + ".", v));
      ListingExactly(g, Run(g, OneChange(SetOp(prefix + ".", v))).changes, prefix, "");
    }
  }

  const EMPTY_STORE := Governance(map[], map[], Policies(map[], map[]), map[])

  lemma EmptyStoreListsDanglingKey(o: Overlay)
    requires o == Run(EMPTY_STORE, [BeginStep, StageStep(0, SetOp("p.", Null)), CommitStep(0)]).changes
    ensures "" in Listed(EMPTY_STORE, o, "p") && !Live(EMPTY_STORE, o, Qualify("p", ""))
  {
    assert "p" + "." == "p.";
    DanglingKeyBreaksListing(EMPTY_STORE, "p", Null);
  }

  /** The listing as a sequence has no duplicates and loses nothing. */
  lemma ListedOnce(g: Governance, o: Overlay, prefix: string)
    ensures var keys := SortedKeys(Listed(g, o, prefix));
            Distinct(keys) && forall local :: local in keys <==> local in Listed(g, o, prefix)
  {
    SortedKeysExact(Listed(g, o, prefix));
  }

  // ---- a view's export is its part of the store's ----

  function Scoped(es: seq<ExportEntry>, scope: Scope): seq<ExportEntry> {
    if es == [] then []
    else
      var before, last := Scoped(es[..|es| - 1], scope), es[|es| - 1];
      if Owns(scope.prefix, last.key) then before + [ExportEntry(scope.Name(last.key), last.shown)] else before
  }

  /** Does the scope give different owned keys different names? */
  predicate Separates(scope: Scope, j: string, k: string) {
    Owns(scope.prefix, j) && Owns(scope.prefix, k) && scope.Name(j) == scope.Name(k) ==> j == k
  }

  lemma {:induction false} ScopedAt(es: seq<ExportEntry>, scope: Scope, key: string)
    requires Owns(scope.prefix, key)
    requires forall e :: e in es ==> Separates(scope, e.key, key)
    ensures EntryAt(Scoped(es, scope), scope.Name(key)) == EntryAt(es, key)
  {
    if es != [] {
      var front, last := es[..|es| - 1], es[|es| - 1];
      assert es == front + [last];
      ScopedAt(front, scope, key);
      assert Separates(scope, last.key, key);
      EntryAtSnoc(Scoped(front, scope), ExportEntry(scope.Name(last.key), last.shown), scope.Name(key));
    }
  }

  lemma {:induction false} EmitAllKeys(a: AccessRules, items: seq<Item>)
    ensures forall e :: e in EmitAll(a, WHOLE_STORE, items) ==> exists x :: x in items && x.key == e.key
  {
    if items != [] {
      EmitAllKeys(a, items[..|items| - 1]);
      assert items == items[..|items| - 1] + [items[|items| - 1]];
    }
  }

  lemma {:induction false} EmitAllScoped(a: AccessRules, scope: Scope, items: seq<Item>)
    requires forall x, y :: x in items && y in items ==> Separates(scope, x.key, y.key)
    ensures EmitAll(a, scope, items) == Scoped(EmitAll(a, WHOLE_STORE, items), scope)
  {
    if items != [] {
      var front, last := items[..|items| - 1], items[|items| - 1];
      assert items == front + [last];
      EmitAllScoped(a, scope, front);
      EmitAllKeys(a, front);
      var es := EmitAll(a, WHOLE_STORE, front);
      if Owns(scope.prefix, last.key) { ScopedAt(es, scope, last.key); }
      var e := ExportEntry(last.key, ShownFor(a, last));
      assert (es + [e])[..|es|] == es;
    }
  }

  lemma {:induction false} ErasedScoped(a: AccessRules, scope: Scope, keys: seq<string>)
    ensures ErasedEntries(a, scope, keys) == Scoped(ErasedEntries(a, WHOLE_STORE, keys), scope)
  {
    if keys != [] {
      var front, last := keys[..|keys| - 1], keys[|keys| - 1];
      ErasedScoped(a, scope, front);
      var es := ErasedEntries(a, WHOLE_STORE, front);
      assert (es + [ExportEntry(last, ErasedMark)])[..|es|] == es;
    }
  }

  lemma {:induction false} ScopedConcat(x: seq<ExportEntry>, y: seq<ExportEntry>, scope: Scope)
    ensures Scoped(x + y, scope) == Scoped(x, scope) + Scoped(y, scope)
  {
    if y == [] {
      assert x + y == x;
    } else {
      assert (x + y)[..|x + y| - 1] == x + y[..|y| - 1];
      ScopedConcat(x, y[..|y| - 1], scope);
    }
  }

  // Where keys are separated, every mode exports the scope's part of the store's export.
  lemma ExportScoped(g: Governance, o: Overlay, scope: Scope, mode: ExportMode)
    requires forall x, y :: x in EffectiveItems(g, o) && y in EffectiveItems(g, o) ==> Separates(scope, x.key, y.key)
    ensures ExportIn(g, o, scope, mode) == Scoped(ExportIn(g, o, WHOLE_STORE, mode), scope)
  {
    assert forall x :: x in Changed(o) ==> x in EffectiveItems(g, o);
    if ChangesOnly(mode) {
      EmitAllScoped(g.access, scope, Changed(o));
      ErasedScoped(g.access, scope, SortedKeys(o.erases));
      ScopedConcat(EmitAll(g.access, WHOLE_STORE, Changed(o)),
                   ErasedEntries(g.access, WHOLE_STORE, SortedKeys(o.erases)), scope);
    } else {
      EmitAllScoped(g.access, scope, EffectiveItems(g, o));
    }
  }

  /** In every mode a view exports exactly the store's entries inside its prefix, in order. */
  lemma ViewExportIsFiltered(g: Governance, o: Overlay, prefix: string, mode: ExportMode)
    ensures ExportIn(g, o, Scope(prefix, false), mode) ==
            Scoped(ExportIn(g, o, WHOLE_STORE, mode), Scope(prefix, false))
  {
    ExportScoped(g, o, Scope(prefix, false), mode);
  }

  lemma {:induction false} BaseItemsKeys(base: map<string, Entry>, o: Overlay, keys: seq<string>)
    requires Filed(base)
    ensures forall x :: x in BaseItems(base, o, keys) ==> x.key in base
  {
    if keys != [] { BaseItemsKeys(base, o, keys[..|keys| - 1]); }
  }

  /** With valid keys, the local export is that list under localised names. */
  lemma LocalExportIsRenamed(g: Governance, o: Overlay, prefix: string, mode: ExportMode)
    requires Filed(g.base) && AllKeysValid(g, o)
    ensures ExportIn(g, o, Scope(prefix, true), mode) ==
            Scoped(ExportIn(g, o, WHOLE_STORE, mode), Scope(prefix, true))
  {
    OverrideItemsKeys(o, SortedKeys(o.overrides.Keys));
    BaseItemsKeys(g.base, o, SortedKeys(g.base.Keys));
    forall x, y | x in EffectiveItems(g, o) && y in EffectiveItems(g, o)
      ensures Separates(Scope(prefix, true), x.key, y.key)
    {
      if Owns(prefix, x.key) { QualifyLocalize(prefix, x.key); }
      if Owns(prefix, y.key) { QualifyLocalize(prefix, y.key); }
    }
    ExportScoped(g, o, Scope(prefix, true), mode);
  }
}
