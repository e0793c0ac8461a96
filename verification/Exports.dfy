/** What stores and views export, as entries; the text is rendered from them. */
module Exports {
  import opened Wrappers
  import opened Values
  import opened Ordering
  import opened Sequences
  import opened Resolver
  import opened Governed
  import opened Store
  import opened Prefixes

  datatype ExportMode =
    | EffectiveMode
    | EffectiveRedacted
    | ChangedOnly
    | ChangedOnlyRedacted
    | RuntimeChangesOnly
    | RuntimeChangesOnlyRedacted

  predicate ChangesOnly(mode: ExportMode) {
    mode.ChangedOnly? || mode.ChangedOnlyRedacted? || mode.RuntimeChangesOnly? || mode.RuntimeChangesOnlyRedacted?
  }

  datatype Shown = Shown(value: Value) | Redacted | ErasedMark

  datatype ExportEntry = ExportEntry(key: string, shown: Shown)

  datatype Item = Item(key: string, value: Value)

  function ShownFor(a: AccessRules, item: Item): Shown {
    if IsSecret(a, item.key) then Redacted else Shown(item.value)
  }

  /** The last entry for a key. */
  function EntryAt(es: seq<ExportEntry>, key: string): Option<Shown> {
    if es == [] then None
    else if es[|es| - 1].key == key then Some(es[|es| - 1].shown)
    else EntryAt(es[..|es| - 1], key)
  }

  /** How a scope names a full key in its export. */
  datatype Scope = Scope(prefix: string, local: bool) {
    function Name(key: string): string { if local then Localize(prefix, key) else key }
  }

  const WHOLE_STORE := Scope("", false)

  /** One call of emit_key: not outside the scope, not twice, not what may not be exported. */
  function EmitOne(a: AccessRules, scope: Scope, out: seq<ExportEntry>, item: Item): seq<ExportEntry> {
    if !Owns(scope.prefix, item.key) || EntryAt(out, scope.Name(item.key)).Some? || !IsExportable(a, item.key)
    then out
    else out + [ExportEntry(scope.Name(item.key), ShownFor(a, item))]
  }

  function EmitAll(a: AccessRules, scope: Scope, items: seq<Item>): seq<ExportEntry> {
    if items == [] then []
    else EmitOne(a, scope, EmitAll(a, scope, items[..|items| - 1]), items[|items| - 1])
  }

  function OverrideItems(o: Overlay, keys: seq<string>): seq<Item> {
    if keys == [] then []
    else
      var last := keys[|keys| - 1];
      var before := OverrideItems(o, keys[..|keys| - 1]);
      if last in o.overrides then before + [Item(last, o.overrides[last])] else before
  }

  function BaseItems(base: map<string, Entry>, o: Overlay, keys: seq<string>): seq<Item> {
    if keys == [] then []
    else
      var last := keys[|keys| - 1];
      var before := BaseItems(base, o, keys[..|keys| - 1]);
      if last in base && last !in o.erases then before + [Item(base[last].key, base[last].value)] else before
  }

  function ErasedEntries(a: AccessRules, scope: Scope, keys: seq<string>): seq<ExportEntry> {
    if keys == [] then []
    else
      var last := keys[|keys| - 1];
      var before := ErasedEntries(a, scope, keys[..|keys| - 1]);
      if Owns(scope.prefix, last) && IsExportable(a, last)
      then before + [ExportEntry(scope.Name(last), ErasedMark)] else before
  }

  function Changed(o: Overlay): seq<Item> { OverrideItems(o, SortedKeys(o.overrides.Keys)) }

  function EffectiveItems(g: Governance, o: Overlay): seq<Item> {
    Changed(o) + BaseItems(g.base, o, SortedKeys(g.base.Keys))
  }

  function ExportIn(g: Governance, o: Overlay, scope: Scope, mode: ExportMode): seq<ExportEntry> {
    if ChangesOnly(mode)
    then EmitAll(g.access, scope, Changed(o)) + ErasedEntries(g.access, scope, SortedKeys(o.erases))
    else EmitAll(g.access, scope, EffectiveItems(g, o))
  }

  // ---- the imperative exporters ----

  lemma EmitStep(a: AccessRules, scope: Scope, before: seq<Item>, item: Item)
    ensures EmitAll(a, scope, before + [item]) == EmitOne(a, scope, EmitAll(a, scope, before), item)
  {}

  // The emit_key lambda with the variables it captures.
  class Emitter {
    const access: AccessRules
    const scope: Scope
    var out: seq<ExportEntry>
    var emitted: set<string>

    ghost predicate Valid()
      reads this
    {
      forall k :: k in emitted <==> EntryAt(out, k).Some?
    }

    constructor (access: AccessRules, scope: Scope)
      ensures Valid() && this.access == access && this.scope == scope && out == []
    {
      this.access, this.scope := access, scope;
      out, emitted := [], {};
    }

    method Emit(item: Item)
      requires Valid()
      modifies this
      ensures Valid() && out == EmitOne(access, scope, old(out), item)
    {
      if !Owns(scope.prefix, item.key) { return; }
      var name := scope.Name(item.key);
      if name in emitted { return; }
      if !IsExportable(access, item.key) { return; }
      assert (out + [ExportEntry(name, ShownFor(access, item))])[..|out|] == out;
      out := out + [ExportEntry(name, ShownFor(access, item))];
      emitted := emitted + {name};
    }

    // The loop over the runtime overrides.
    method EmitOverrides(o: Overlay, keys: seq<string>)
      requires Valid() && out == []
      modifies this
      ensures Valid() && out == EmitAll(access, scope, OverrideItems(o, keys))
    {
      for i := 0 to |keys|
        invariant Valid() && out == EmitAll(access, scope, OverrideItems(o, keys[..i]))
      {
        assert keys[..i + 1][..i] == keys[..i];
        if keys[i] in o.overrides {
          var item := Item(keys[i], o.overrides[keys[i]]);
          EmitStep(access, scope, OverrideItems(o, keys[..i]), item);
          Emit(item);
        }
      }
      assert keys[..|keys|] == keys;
    }

    // The loop over the base entries that are not erased.
    method EmitBase(base: map<string, Entry>, o: Overlay, keys: seq<string>, ghost before: seq<Item>)
      requires Valid() && out == EmitAll(access, scope, before)
      modifies this
      ensures Valid() && out == EmitAll(access, scope, before + BaseItems(base, o, keys))
    {
      assert before + [] == before;
      for i := 0 to |keys|
        invariant Valid() && out == EmitAll(access, scope, before + BaseItems(base, o, keys[..i]))
      {
        assert keys[..i + 1][..i] == keys[..i];
        ghost var sofar := BaseItems(base, o, keys[..i]);
        if keys[i] in base && keys[i] !in o.erases {
          var item := Item(base[keys[i]].key, base[keys[i]].value);
          Reassociate(before, sofar, [item]);
          EmitStep(access, scope, before + sofar, item);
          Emit(item);
        }
      }
      assert keys[..|keys|] == keys;
    }

    // The loop over the erased keys, which writes without asking what was emitted.
    method EmitErased(keys: seq<string>)
      modifies this
      ensures out == old(out) + ErasedEntries(access, scope, keys)
    {
      for i := 0 to |keys|
        invariant out == old(out) + ErasedEntries(access, scope, keys[..i])
      {
        assert keys[..i + 1][..i] == keys[..i];
        if Owns(scope.prefix, keys[i]) && IsExportable(access, keys[i]) {
          out := out + [ExportEntry(scope.Name(keys[i]), ErasedMark)];
        }
      }
      assert keys[..|keys|] == keys;
    }
  }

  // The body that export_config of a store, export_config of a view and
  // export_local_config of a view share.
  method ExportScope(store: ConfigStore, scope: Scope, mode: ExportMode) returns (out: seq<ExportEntry>)
    ensures out == ExportIn(store.Rules(), store.Changes(), scope, mode)
  {
    var o := store.Changes();
    var emitter := new Emitter(store.access, scope);
    emitter.EmitOverrides(o, SortedKeys(o.overrides.Keys));
    if ChangesOnly(mode) {
      emitter.EmitErased(SortedKeys(o.erases));
    } else {
      emitter.EmitBase(store.base, o, SortedKeys(store.base.Keys), Changed(o));
    }
    out := emitter.out;
  }

  method ExportStore(store: ConfigStore, mode: ExportMode) returns (out: seq<ExportEntry>)
    ensures out == ExportIn(store.Rules(), store.Changes(), WHOLE_STORE, mode)
  {
    out := ExportScope(store, WHOLE_STORE, mode);
  }

  // ---- one entry per exportable effective key ----

  /** The first item for a key. */
  function FirstItem(items: seq<Item>, key: string): Option<Value> {
    if items == [] then None
    else
      var before := FirstItem(items[..|items| - 1], key);
      if before.Some? then before
      else if items[|items| - 1].key == key then Some(items[|items| - 1].value)
      else None
  }

  lemma FirstItemSnoc(a: seq<Item>, x: Item, key: string)
    ensures FirstItem(a + [x], key) ==
            if FirstItem(a, key).Some? then FirstItem(a, key) else if x.key == key then Some(x.value) else None
  {}

  lemma {:induction false} FirstItemConcat(a: seq<Item>, b: seq<Item>, key: string)
    ensures FirstItem(a + b, key) == if FirstItem(a, key).Some? then FirstItem(a, key) else FirstItem(b, key)
  {
    if b == [] {
      assert a + b == a;
    } else {
      assert (a + b)[..|a + b| - 1] == a + b[..|b| - 1];
      FirstItemConcat(a, b[..|b| - 1], key);
    }
  }

  lemma {:induction false} OverrideItemsAt(o: Overlay, keys: seq<string>, key: string)
    ensures FirstItem(OverrideItems(o, keys), key) ==
            if key in keys && key in o.overrides then Some(o.overrides[key]) else None
  {
    if keys != [] {
      var front, last := keys[..|keys| - 1], keys[|keys| - 1];
      assert keys == front + [last];
      OverrideItemsAt(o, front, key);
      if last in o.overrides { FirstItemSnoc(OverrideItems(o, front), Item(last, o.overrides[last]), key); }
    }
  }

  /** Entries filed under their own key, as ResolvedConfig.Set files them. */
  predicate Filed(base: map<string, Entry>) { forall k :: k in base ==> base[k].key == k }

  lemma {:induction false} BaseItemsAt(base: map<string, Entry>, o: Overlay, keys: seq<string>, key: string)
    requires Filed(base)
    ensures FirstItem(BaseItems(base, o, keys), key) ==
            if key in keys && key in base && key !in o.erases then Some(base[key].value) else None
  {
    if keys != [] {
      var front, last := keys[..|keys| - 1], keys[|keys| - 1];
      assert keys == front + [last];
      BaseItemsAt(base, o, front, key);
      if last in base && last !in o.erases {
        FirstItemSnoc(BaseItems(base, o, front), Item(base[last].key, base[last].value), key);
      }
    }
  }

  lemma EffectiveAt(g: Governance, o: Overlay, key: string)
    requires Filed(g.base) && o.Disjoint()
    ensures FirstItem(EffectiveItems(g, o), key) == GetValue(g, o, key)
    ensures FirstItem(Changed(o), key) == if key in o.overrides then Some(o.overrides[key]) else None
  {
    SortedKeysExact(o.overrides.Keys);
    SortedKeysExact(g.base.Keys);
    OverrideItemsAt(o, SortedKeys(o.overrides.Keys), key);
    BaseItemsAt(g.base, o, SortedKeys(g.base.Keys), key);
    FirstItemConcat(Changed(o), BaseItems(g.base, o, SortedKeys(g.base.Keys)), key);
  }

  lemma EntryAtSnoc(a: seq<ExportEntry>, e: ExportEntry, key: string)
    ensures EntryAt(a + [e], key) == if e.key == key then Some(e.shown) else EntryAt(a, key)
  {}

  lemma {:induction false} EntryAtConcat(a: seq<ExportEntry>, b: seq<ExportEntry>, key: string)
    ensures EntryAt(a + b, key) == if EntryAt(b, key).Some? then EntryAt(b, key) else EntryAt(a, key)
  {
    if b == [] {
      assert a + b == a;
    } else {
      assert (a + b)[..|a + b| - 1] == a + b[..|b| - 1];
      EntryAtConcat(a, b[..|b| - 1], key);
    }
  }

  lemma {:induction false} EmitAllAt(a: AccessRules, items: seq<Item>, key: string)
    ensures EntryAt(EmitAll(a, WHOLE_STORE, items), key) ==
            if IsExportable(a, key) && FirstItem(items, key).Some?
            then Some(ShownFor(a, Item(key, FirstItem(items, key).value))) else None
  {
    if items != [] {
      var front, last := items[..|items| - 1], items[|items| - 1];
      EmitAllAt(a, front, key);
      EntryAtSnoc(EmitAll(a, WHOLE_STORE, front), ExportEntry(last.key, ShownFor(a, last)), key);
    }
  }

  predicate DistinctEntries(es: seq<ExportEntry>) {
    forall i, j :: 0 <= i < j < |es| ==> es[i].key != es[j].key
  }

  lemma {:induction false} EntryAtIs(es: seq<ExportEntry>, key: string)
    ensures EntryAt(es, key).Some? <==> exists e :: e in es && e.key == key
    ensures EntryAt(es, key).Some? ==> ExportEntry(key, EntryAt(es, key).value) in es
  {
    if es != [] {
      EntryAtIs(es[..|es| - 1], key);
      assert es == es[..|es| - 1] + [es[|es| - 1]];
    }
  }

  lemma {:induction false} EmitAllDistinct(a: AccessRules, scope: Scope, items: seq<Item>)
    ensures DistinctEntries(EmitAll(a, scope, items))
  {
    if items != [] {
      var front, last := items[..|items| - 1], items[|items| - 1];
      EmitAllDistinct(a, scope, front);
      EntryAtIs(EmitAll(a, scope, front), scope.Name(last.key));
    }
  }

  /** The effective export has one entry for each exportable effective key, showing its
      value or that it is redacted, and none for any other. */
  lemma EffectiveExportExactly(g: Governance, o: Overlay, mode: ExportMode, key: string)
    requires Filed(g.base) && o.Disjoint() && !ChangesOnly(mode)
    ensures var es := ExportIn(g, o, WHOLE_STORE, mode);
            DistinctEntries(es) &&
            EntryAt(es, key) ==
              if !IsExportable(g.access, key) || GetValue(g, o, key).None? then None
              else if IsSecret(g.access, key) then Some(Redacted)
              else Some(Shown(GetValue(g, o, key).value))
  {
    EffectiveAt(g, o, key);
    EmitAllAt(g.access, EffectiveItems(g, o), key);
    EmitAllDistinct(g.access, WHOLE_STORE, EffectiveItems(g, o));
  }

  lemma {:induction false} EmitAllOrigin(a: AccessRules, scope: Scope, items: seq<Item>, e: ExportEntry)
    requires e in EmitAll(a, scope, items)
    ensures exists x :: x in items && Owns(scope.prefix, x.key) && IsExportable(a, x.key) &&
                        e == ExportEntry(scope.Name(x.key), ShownFor(a, x))
  {
    var front, last := items[..|items| - 1], items[|items| - 1];
    assert items == front + [last];
    if e in EmitAll(a, scope, front) {
      EmitAllOrigin(a, scope, front, e);
      var x :| x in front && Owns(scope.prefix, x.key) && IsExportable(a, x.key) &&
               e == ExportEntry(scope.Name(x.key), ShownFor(a, x));
      assert x in items;
    }
  }

  lemma {:induction false} ErasedOrigin(a: AccessRules, scope: Scope, keys: seq<string>, e: ExportEntry)
    requires e in ErasedEntries(a, scope, keys)
    ensures exists k :: k in keys && Owns(scope.prefix, k) && IsExportable(a, k) &&
                        e == ExportEntry(scope.Name(k), ErasedMark)
  {
    var front, last := keys[..|keys| - 1], keys[|keys| - 1];
    assert keys == front + [last];
    if e in ErasedEntries(a, scope, front) {
      ErasedOrigin(a, scope, front, e);
      var k :| k in front && Owns(scope.prefix, k) && IsExportable(a, k) &&
               e == ExportEntry(scope.Name(k), ErasedMark);
      assert k in keys;
    }
  }

  lemma {:induction false} ErasedAt(a: AccessRules, keys: seq<string>, key: string)
    ensures EntryAt(ErasedEntries(a, WHOLE_STORE, keys), key) ==
            if key in keys && IsExportable(a, key) then Some(ErasedMark) else None
  {
    if keys != [] {
      var front, last := keys[..|keys| - 1], keys[|keys| - 1];
      assert keys == front + [last];
      ErasedAt(a, front, key);
      EntryAtSnoc(ErasedEntries(a, WHOLE_STORE, front), ExportEntry(last, ErasedMark), key);
    }
  }

  lemma {:induction false} ErasedDistinct(a: AccessRules, keys: seq<string>)
    requires Distinct(keys)
    ensures DistinctEntries(ErasedEntries(a, WHOLE_STORE, keys))
  {
    if keys != [] {
      var front, last := keys[..|keys| - 1], keys[|keys| - 1];
      ErasedDistinct(a, front);
      forall e | e in ErasedEntries(a, WHOLE_STORE, front) ensures e.key != last {
        ErasedOrigin(a, WHOLE_STORE, front, e);
      }
    }
  }

  lemma {:induction false} OverrideItemsKeys(o: Overlay, keys: seq<string>)
    ensures forall x :: x in OverrideItems(o, keys) ==> x.key in o.overrides
  {
    if keys != [] { OverrideItemsKeys(o, keys[..|keys| - 1]); }
  }

  lemma ChangedDistinct(g: Governance, o: Overlay, mode: ExportMode)
    requires o.Disjoint() && ChangesOnly(mode)
    ensures DistinctEntries(ExportIn(g, o, WHOLE_STORE, mode))
  {
    var overridden, erased := EmitAll(g.access, WHOLE_STORE, Changed(o)),
                        ErasedEntries(g.access, WHOLE_STORE, SortedKeys(o.erases));
    SortedKeysExact(o.erases);
    EmitAllDistinct(g.access, WHOLE_STORE, Changed(o));
    ErasedDistinct(g.access, SortedKeys(o.erases));
    OverrideItemsKeys(o, SortedKeys(o.overrides.Keys));
    forall e, f | e in overridden && f in erased ensures e.key != f.key {
      EmitAllOrigin(g.access, WHOLE_STORE, Changed(o), e);
      ErasedOrigin(g.access, WHOLE_STORE, SortedKeys(o.erases), f);
    }
  }

  /** The changed-only export names each exportable key with a runtime change once, with its
      override or its erasure, and no other key. */
  lemma ChangedExportAt(g: Governance, o: Overlay, mode: ExportMode, key: string)
    requires Filed(g.base) && o.Disjoint() && ChangesOnly(mode)
    ensures DistinctEntries(ExportIn(g, o, WHOLE_STORE, mode))
    ensures EntryAt(ExportIn(g, o, WHOLE_STORE, mode), key) ==
            if !IsExportable(g.access, key) then None
            else if key in o.erases then Some(ErasedMark)
            else if key in o.overrides then Some(ShownFor(g.access, Item(key, o.overrides[key])))
            else None
  {
    ChangedDistinct(g, o, mode);
    EffectiveAt(g, o, key);
    EmitAllAt(g.access, Changed(o), key);
    SortedKeysExact(o.erases);
    ErasedAt(g.access, SortedKeys(o.erases), key);
    EntryAtConcat(EmitAll(g.access, WHOLE_STORE, Changed(o)),
                  ErasedEntries(g.access, WHOLE_STORE, SortedKeys(o.erases)), key);
  }

  /** Mode by mode, on the rules' flags: the four change modes name exactly the exportable keys
      with a runtime change, the two effective ones exactly the exportable keys that read as
      some value; a key without a rule is exportable, and only a secret one is redacted. */
  lemma ModesShow(g: Governance, o: Overlay, key: string)
    requires Filed(g.base) && o.Disjoint()
    ensures var exportable, secret := key !in g.access || g.access[key].exportable,
                                      key in g.access && g.access[key].secret;
            (forall mode ::
               mode in {ChangedOnly, ChangedOnlyRedacted, RuntimeChangesOnly, RuntimeChangesOnlyRedacted} ==>
               EntryAt(ExportIn(g, o, WHOLE_STORE, mode), key) ==
                 if exportable && key in o.erases then Some(ErasedMark)
                 else if exportable && key in o.overrides
                 then Some(if secret then Redacted else Shown(o.overrides[key]))
                 else None) &&
            (forall mode :: mode in {EffectiveMode, EffectiveRedacted} ==>
               EntryAt(ExportIn(g, o, WHOLE_STORE, mode), key) ==
                 if exportable && GetValue(g, o, key).Some?
                 then Some(if secret then Redacted else Shown(GetValue(g, o, key).value))
                 else None)
  {
    ChangedExportAt(g, o, ChangedOnly, key);
    ChangedExportAt(g, o, ChangedOnlyRedacted, key);
    ChangedExportAt(g, o, RuntimeChangesOnly, key);
    ChangedExportAt(g, o, RuntimeChangesOnlyRedacted, key);
    EffectiveExportExactly(g, o, EffectiveMode, key);
    EffectiveExportExactly(g, o, EffectiveRedacted, key);
  }

  /** In every scope there are just two exports: redaction is the access rules' affair, not
      the mode's. */
  lemma ModesAlike(g: Governance, o: Overlay, scope: Scope)
    ensures ExportIn(g, o, scope, ChangedOnly) == ExportIn(g, o, scope, ChangedOnlyRedacted)
         == ExportIn(g, o, scope, RuntimeChangesOnly) == ExportIn(g, o, scope, RuntimeChangesOnlyRedacted)
    ensures ExportIn(g, o, scope, EffectiveMode) == ExportIn(g, o, scope, EffectiveRedacted)
  {}

  // ---- in which order ----

  predicate InOrder(es: seq<ExportEntry>) {
    forall i, j :: 0 <= i < j < |es| ==> DictionaryBefore(es[i].key, es[j].key)
  }

  lemma EmitOneInOrder(a: AccessRules, out: seq<ExportEntry>, item: Item, front: seq<string>)
    requires InOrder(out) && forall e :: e in out ==> e.key in front
    requires forall k :: k in front ==> Less(k, item.key)
    ensures InOrder(EmitOne(a, WHOLE_STORE, out, item))
  {
    forall k | k in front ensures DictionaryBefore(k, item.key) { LessIsDictionary(k, item.key); }
  }

  lemma {:induction false} EmittedInOrder(a: AccessRules, o: Overlay, keys: seq<string>)
    requires StrictlySorted(keys)
    ensures var es := EmitAll(a, WHOLE_STORE, OverrideItems(o, keys));
            InOrder(es) && forall e :: e in es ==> e.key in keys && !e.shown.ErasedMark?
  {
    if keys != [] {
      var front, last := keys[..|keys| - 1], keys[|keys| - 1];
      EmittedInOrder(a, o, front);
      var items := OverrideItems(o, front);
      if last in o.overrides {
        EmitStep(a, WHOLE_STORE, items, Item(last, o.overrides[last]));
        EmitOneInOrder(a, EmitAll(a, WHOLE_STORE, items), Item(last, o.overrides[last]), front);
      }
    }
  }

  lemma {:induction false} ErasedInOrder(a: AccessRules, keys: seq<string>)
    requires StrictlySorted(keys)
    ensures var es := ErasedEntries(a, WHOLE_STORE, keys);
            InOrder(es) && forall e :: e in es ==> e.key in keys && e.shown.ErasedMark?
  {
    if keys != [] {
      var front, last := keys[..|keys| - 1], keys[|keys| - 1];
      ErasedInOrder(a, front);
      forall k | k in front ensures DictionaryBefore(k, last) { LessIsDictionary(k, last); }
    }
  }

  /** A changed-only export lists the overridden keys in key order, then the erased ones in
      key order. */
  lemma ChangedInOrder(g: Governance, o: Overlay, i: nat, j: nat)
    requires i < j < |ExportIn(g, o, WHOLE_STORE, ChangedOnly)|
    ensures var a, b := ExportIn(g, o, WHOLE_STORE, ChangedOnly)[i], ExportIn(g, o, WHOLE_STORE, ChangedOnly)[j];
            if a.shown.ErasedMark? == b.shown.ErasedMark? then DictionaryBefore(a.key, b.key)
            else b.shown.ErasedMark?
  {
    SortedKeysExact(o.overrides.Keys);
    SortedKeysExact(o.erases);
    EmittedInOrder(g.access, o, SortedKeys(o.overrides.Keys));
    ErasedInOrder(g.access, SortedKeys(o.erases));
  }

  // One more item after some entries, the later of which are in order.
  lemma EmitAfter(a: AccessRules, head: seq<ExportEntry>, tail: seq<ExportEntry>, item: Item, front: seq<string>)
    returns (tail': seq<ExportEntry>)
    requires InOrder(tail) && forall e :: e in tail ==> e.key in front
    requires forall k :: k in front ==> Less(k, item.key)
    ensures EmitOne(a, WHOLE_STORE, head + tail, item) == head + tail'
    ensures InOrder(tail') && forall e :: e in tail' ==> e.key in front + [item.key]
  {
    tail' := tail;
    if EmitOne(a, WHOLE_STORE, head + tail, item) != head + tail {
      EmitOneInOrder(a, tail, item, front);
      EntryAtConcat(head, tail, item.key);
      tail' := tail + [ExportEntry(item.key, ShownFor(a, item))];
      Reassociate(head, tail, [ExportEntry(item.key, ShownFor(a, item))]);
    }
  }

  lemma {:induction false} BaseEmittedInOrder(a: AccessRules, items: seq<Item>, base: map<string, Entry>, o: Overlay,
                                              keys: seq<string>)
    returns (tail: seq<ExportEntry>)
    requires Filed(base) && StrictlySorted(keys)
    ensures EmitAll(a, WHOLE_STORE, items + BaseItems(base, o, keys)) == EmitAll(a, WHOLE_STORE, items) + tail
    ensures InOrder(tail) && forall e :: e in tail ==> e.key in keys
  {
    if keys == [] {
      assert items + [] == items;
      tail := [];
    } else {
      var front, last := keys[..|keys| - 1], keys[|keys| - 1];
      assert keys == front + [last];
      tail := BaseEmittedInOrder(a, items, base, o, front);
      if last in base && last !in o.erases {
        var sofar, item := BaseItems(base, o, front), Item(base[last].key, base[last].value);
        Reassociate(items, sofar, [item]);
        EmitStep(a, WHOLE_STORE, items + sofar, item);
        tail := EmitAfter(a, EmitAll(a, WHOLE_STORE, items), tail, item, front);
      }
    }
  }

  lemma TwoParts(a: seq<ExportEntry>, b: seq<ExportEntry>)
    ensures (a + b)[..|a|] == a && (a + b)[|a|..] == b
  {}

  /** An effective export lists the overridden keys in key order, then base keys in key order. */
  lemma EffectiveInOrder(g: Governance, o: Overlay) returns (n: nat)
    requires Filed(g.base)
    ensures var es := ExportIn(g, o, WHOLE_STORE, EffectiveMode);
            n <= |es| && InOrder(es[..n]) && InOrder(es[n..]) &&
            (forall e :: e in es[..n] ==> e.key in o.overrides) && (forall e :: e in es[n..] ==> e.key in g.base)
  {
    SortedKeysExact(o.overrides.Keys);
    SortedKeysExact(g.base.Keys);
    EmittedInOrder(g.access, o, SortedKeys(o.overrides.Keys));
    var tail := BaseEmittedInOrder(g.access, Changed(o), g.base, o, SortedKeys(g.base.Keys));
    var first := EmitAll(g.access, WHOLE_STORE, Changed(o));
    n := |first|;
    TwoParts(first, tail);
    assert ExportIn(g, o, WHOLE_STORE, EffectiveMode) == first + tail;
  }

  /** Applying exported entries to a table one by one. */
  function Patch(table: map<string, Shown>, es: seq<ExportEntry>): map<string, Shown> {
    if es == [] then table
    else
      var before, e := Patch(table, es[..|es| - 1]), es[|es| - 1];
      if e.shown.ErasedMark? then before - {e.key} else before[e.key := e.shown]
  }

  lemma {:induction false} PatchAt(table: map<string, Shown>, es: seq<ExportEntry>, key: string)
    ensures var after := Patch(table, es);
            match EntryAt(es, key)
            case None => (key in after <==> key in table) && (key in table ==> after[key] == table[key])
            case Some(shown) => if shown.ErasedMark? then key !in after else key in after && after[key] == shown
  {
    if es != [] { PatchAt(table, es[..|es| - 1], key); }
  }

  /** Patching what the untouched store exports with the changed-only export gives the
      effective export. */
  lemma PatchedBaseIsEffective(g: Governance, o: Overlay, changed: ExportMode, full: ExportMode)
    requires Filed(g.base) && o.Disjoint() && ChangesOnly(changed) && !ChangesOnly(full)
    ensures Patch(Patch(map[], ExportIn(g, NO_CHANGES, WHOLE_STORE, full)), ExportIn(g, o, WHOLE_STORE, changed))
            == Patch(map[], ExportIn(g, o, WHOLE_STORE, full))
  {
    var base := Patch(map[], ExportIn(g, NO_CHANGES, WHOLE_STORE, full));
    var a, b := Patch(base, ExportIn(g, o, WHOLE_STORE, changed)), Patch(map[], ExportIn(g, o, WHOLE_STORE, full));
    forall k ensures k in a <==> k in b ensures k in a ==> a[k] == b[k] {
      EffectiveExportExactly(g, NO_CHANGES, full, k);
      EffectiveExportExactly(g, o, full, k);
      ChangedExportAt(g, o, changed, k);
      PatchAt(map[], ExportIn(g, NO_CHANGES, WHOLE_STORE, full), k);
      PatchAt(base, ExportIn(g, o, WHOLE_STORE, changed), k);
      PatchAt(map[], ExportIn(g, o, WHOLE_STORE, full), k);
    }
    assert a.Keys == b.Keys;
  }

  // ---- nothing leaks ----

  /** May this entry appear? It names an exportable key inside the scope; it shows that
      key's value only if the key is not secret, and its erasure only if it is erased. */
  predicate Publishes(g: Governance, o: Overlay, scope: Scope, key: string, e: ExportEntry) {
    Owns(scope.prefix, key) && IsExportable(g.access, key) && e.key == scope.Name(key) &&
    match e.shown
    case Shown(v) => !IsSecret(g.access, key) && Item(key, v) in EffectiveItems(g, o)
    case Redacted => IsSecret(g.access, key)
    case ErasedMark => key in o.erases
  }

  /** Whatever the scope and the mode, every entry, redacted or erased ones included, is that
      of an exportable key inside the scope, and a value is shown only if it is not secret. */
  lemma OnlyPublicKeysNamed(g: Governance, o: Overlay, scope: Scope, mode: ExportMode, e: ExportEntry)
    requires e in ExportIn(g, o, scope, mode)
    ensures exists key :: Publishes(g, o, scope, key, e)
  {
    var items := if ChangesOnly(mode) then Changed(o) else EffectiveItems(g, o);
    assert forall x :: x in Changed(o) ==> x in EffectiveItems(g, o);
    if e in EmitAll(g.access, scope, items) {
      EmitAllOrigin(g.access, scope, items, e);
      var x :| x in items && Owns(scope.prefix, x.key) && IsExportable(g.access, x.key) &&
               e == ExportEntry(scope.Name(x.key), ShownFor(g.access, x));
      assert Item(x.key, x.value) == x;
      assert Publishes(g, o, scope, x.key, e);
    } else {
      SortedKeysExact(o.erases);
      ErasedOrigin(g.access, scope, SortedKeys(o.erases), e);
      var k :| k in SortedKeys(o.erases) && Owns(scope.prefix, k) && IsExportable(g.access, k) &&
               e == ExportEntry(scope.Name(k), ErasedMark);
      assert Publishes(g, o, scope, k, e);
    }
  }

  // ---- what is hidden has no influence ----

  /** What an export may depend on: exportable keys, and of the secret ones no value. */
  function Public(a: AccessRules, items: seq<Item>): seq<Item> {
    if items == [] then []
    else
      var before, last := Public(a, items[..|items| - 1]), items[|items| - 1];
      if IsExportable(a, last.key)
      then before + [if IsSecret(a, last.key) then Item(last.key, Null) else last] else before
  }

  lemma {:induction false} PublicConcat(a: AccessRules, x: seq<Item>, y: seq<Item>)
    ensures Public(a, x + y) == Public(a, x) + Public(a, y)
  {
    if y == [] {
      assert x + y == x;
    } else {
      assert (x + y)[..|x + y| - 1] == x + y[..|y| - 1];
      PublicConcat(a, x, y[..|y| - 1]);
    }
  }

  lemma {:induction false} EmitAllPublic(a: AccessRules, scope: Scope, items: seq<Item>)
    ensures EmitAll(a, scope, items) == EmitAll(a, scope, Public(a, items))
  {
    if items != [] {
      var front, last := items[..|items| - 1], items[|items| - 1];
      EmitAllPublic(a, scope, front);
      if IsExportable(a, last.key) {
        EmitStep(a, scope, Public(a, front), if IsSecret(a, last.key) then Item(last.key, Null) else last);
      }
    }
  }

  /** The exportable ones among the keys, in order. */
  function Exportable(a: AccessRules, keys: seq<string>): seq<string> {
    if keys == [] then []
    else
      var before, last := Exportable(a, keys[..|keys| - 1]), keys[|keys| - 1];
      if IsExportable(a, last) then before + [last] else before
  }

  lemma {:induction false} ExportableExactly(a: AccessRules, keys: seq<string>)
    requires StrictlySorted(keys)
    ensures StrictlySorted(Exportable(a, keys))
    ensures forall k :: k in Exportable(a, keys) <==> k in keys && IsExportable(a, k)
  {
    if keys != [] {
      var front, last := keys[..|keys| - 1], keys[|keys| - 1];
      assert keys == front + [last];
      ExportableExactly(a, front);
      SortedSnoc(Exportable(a, front), last);
    }
  }

  // Sets with the same exportable keys list these in the same order.
  lemma ExportableSame(a: AccessRules, s: set<string>, t: set<string>)
    requires forall k :: IsExportable(a, k) ==> (k in s <==> k in t)
    ensures Exportable(a, SortedKeys(s)) == Exportable(a, SortedKeys(t))
    ensures forall k :: k in Exportable(a, SortedKeys(s)) ==> IsExportable(a, k) && k in s
  {
    SortedKeysExact(s);
    SortedKeysExact(t);
    ExportableExactly(a, SortedKeys(s));
    ExportableExactly(a, SortedKeys(t));
    StrictlySortedUnique(Exportable(a, SortedKeys(s)), Exportable(a, SortedKeys(t)));
  }

  /** Stores that differ only in what their access rules hide: which keys that may not be
      exported there are and what they hold, and what the secret ones hold. */
  ghost predicate PubliclySame(g: Governance, o: Overlay, g': Governance, o': Overlay) {
    g.access == g'.access &&
    forall k :: IsExportable(g.access, k) ==>
      (k in o.erases <==> k in o'.erases) &&
      (k in o.overrides <==> k in o'.overrides) && (k in g.base <==> k in g'.base) &&
      (!IsSecret(g.access, k) ==>
         (k in o.overrides ==> o.overrides[k] == o'.overrides[k]) &&
         (k in g.base ==> g.base[k].value == g'.base[k].value))
  }

  lemma {:induction false} OverridesOfExportable(a: AccessRules, o: Overlay, keys: seq<string>)
    ensures Public(a, OverrideItems(o, keys)) == Public(a, OverrideItems(o, Exportable(a, keys)))
  {
    if keys != [] { OverridesOfExportable(a, o, keys[..|keys| - 1]); }
  }

  lemma {:induction false} BaseOfExportable(a: AccessRules, base: map<string, Entry>, o: Overlay, keys: seq<string>)
    requires Filed(base)
    ensures Public(a, BaseItems(base, o, keys)) == Public(a, BaseItems(base, o, Exportable(a, keys)))
  {
    if keys != [] { BaseOfExportable(a, base, o, keys[..|keys| - 1]); }
  }

  lemma {:induction false} ErasedOfExportable(a: AccessRules, scope: Scope, keys: seq<string>)
    ensures ErasedEntries(a, scope, keys) == ErasedEntries(a, scope, Exportable(a, keys))
  {
    if keys != [] { ErasedOfExportable(a, scope, keys[..|keys| - 1]); }
  }

  lemma {:induction false} SameOverrides(g: Governance, o: Overlay, g': Governance, o': Overlay, keys: seq<string>)
    requires PubliclySame(g, o, g', o') && forall k :: k in keys ==> IsExportable(g.access, k)
    ensures Public(g.access, OverrideItems(o, keys)) == Public(g.access, OverrideItems(o', keys))
  {
    if keys != [] {
      assert keys[|keys| - 1] in keys;
      SameOverrides(g, o, g', o', keys[..|keys| - 1]);
    }
  }

  lemma {:induction false} SameBase(g: Governance, o: Overlay, g': Governance, o': Overlay, keys: seq<string>)
    requires PubliclySame(g, o, g', o') && Filed(g.base) && Filed(g'.base)
    requires forall k :: k in keys ==> IsExportable(g.access, k)
    ensures Public(g.access, BaseItems(g.base, o, keys)) == Public(g.access, BaseItems(g'.base, o', keys))
  {
    if keys != [] {
      assert keys[|keys| - 1] in keys;
      SameBase(g, o, g', o', keys[..|keys| - 1]);
    }
  }

  lemma PublicChangedSame(g: Governance, o: Overlay, g': Governance, o': Overlay)
    requires PubliclySame(g, o, g', o')
    ensures Public(g.access, Changed(o)) == Public(g.access, Changed(o'))
  {
    var a := g.access;
    OverridesOfExportable(a, o, SortedKeys(o.overrides.Keys));
    OverridesOfExportable(a, o', SortedKeys(o'.overrides.Keys));
    ExportableSame(a, o.overrides.Keys, o'.overrides.Keys);
    SameOverrides(g, o, g', o', Exportable(a, SortedKeys(o.overrides.Keys)));
  }

  lemma PublicBaseSame(g: Governance, o: Overlay, g': Governance, o': Overlay)
    requires PubliclySame(g, o, g', o') && Filed(g.base) && Filed(g'.base)
    ensures Public(g.access, BaseItems(g.base, o, SortedKeys(g.base.Keys))) ==
            Public(g.access, BaseItems(g'.base, o', SortedKeys(g'.base.Keys)))
  {
    var a := g.access;
    BaseOfExportable(a, g.base, o, SortedKeys(g.base.Keys));
    BaseOfExportable(a, g'.base, o', SortedKeys(g'.base.Keys));
    ExportableSame(a, g.base.Keys, g'.base.Keys);
    SameBase(g, o, g', o', Exportable(a, SortedKeys(g.base.Keys)));
  }

  /** Stores that differ only in what their access rules hide export the same entries in the
      same order, in every scope and mode: nothing hidden can be told from any export. */
  lemma HiddenNeverMatters(g: Governance, o: Overlay, g': Governance, o': Overlay, scope: Scope, mode: ExportMode)
    requires PubliclySame(g, o, g', o') && Filed(g.base) && Filed(g'.base)
    ensures ExportIn(g, o, scope, mode) == ExportIn(g', o', scope, mode)
  {
    var a := g.access;
    PublicChangedSame(g, o, g', o');
    if ChangesOnly(mode) {
      EmitAllPublic(a, scope, Changed(o));
      EmitAllPublic(a, scope, Changed(o'));
      ErasedOfExportable(a, scope, SortedKeys(o.erases));
      ErasedOfExportable(a, scope, SortedKeys(o'.erases));
      ExportableSame(a, o.erases, o'.erases);
    } else {
      PublicBaseSame(g, o, g', o');
      PublicConcat(a, Changed(o), BaseItems(g.base, o, SortedKeys(g.base.Keys)));
      PublicConcat(a, Changed(o'), BaseItems(g'.base, o', SortedKeys(g'.base.Keys)));
      EmitAllPublic(a, scope, EffectiveItems(g, o));
      EmitAllPublic(a, scope, EffectiveItems(g', o'));
    }
  }
}
