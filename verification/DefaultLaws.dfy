/** The defaults a store knows, and what resetting to one gives. */
module DefaultLaws {
  import opened Wrappers
  import opened Values
  import opened Sources
  import opened Facts
  import opened Policy
  import opened Keys
  import opened Ordering
  import opened Resolver
  import opened Governed
  import opened Store
  import opened Runs
  import opened ResolverLaws
  import opened OrderLaws

  // ---- which default is known ----

  /** The last internal-default candidate. */
  function LastDefault(s: seq<Fact>): Option<Fact> {
    if s == [] then None
    else if s[|s| - 1].source.kind.InternalDefault? then Some(s[|s| - 1])
    else LastDefault(s[..|s| - 1])
  }

  lemma {:induction false} LastDefaultIs(s: seq<Fact>)
    requires Increasing(s)
    ensures LastDefault(s).None? ==> forall f :: f in s ==> !f.source.kind.InternalDefault?
    ensures LastDefault(s).Some? ==>
              LastDefault(s).value in s && LastDefault(s).value.source.kind.InternalDefault? &&
              forall f :: f in s && f.source.kind.InternalDefault? ==> f.order <= LastDefault(s).value.order
  {
    if s != [] {
      LastDefaultIs(s[..|s| - 1]);
      assert s == s[..|s| - 1] + [s[|s| - 1]];
    }
  }

  lemma {:induction false} CandidateDefaultsAt(s: seq<Fact>, key: string, known: map<string, Entry>, k: string)
    requires forall f :: f in s ==> f.key == key
    ensures var after := CandidateDefaults(s, known);
            if k == key && LastDefault(s).Some?
            then k in after && after[k] == DefaultEntry(LastDefault(s).value)
            else (k in after <==> k in known) && (k in known ==> after[k] == known[k])
  {
    if s != [] {
      CandidateDefaultsAt(s[..|s| - 1], key, known, k);
      assert s[|s| - 1] in s;
    }
  }

  /** An entry as resolution makes it. */
  predicate WellMade(base: map<string, Entry>, key: string) {
    key in base && base[key].key == key && (forall f :: f in base[key].candidates ==> f.key == key) &&
    (base[key].source.kind.InternalDefault? ==> LastDefault(base[key].candidates).Some?)
  }

  lemma {:induction false} DefaultsOverAt(base: map<string, Entry>, keys: seq<string>, k: string)
    requires forall j :: j in keys ==> j in base && WellMade(base, j)
    ensures var known := DefaultsOver(base, keys);
            if k in keys && LastDefault(base[k].candidates).Some?
            then k in known && known[k] == DefaultEntry(LastDefault(base[k].candidates).value)
            else k !in known
  {
    if keys != [] {
      var front, last := keys[..|keys| - 1], keys[|keys| - 1];
      assert keys == front + [last];
      assert last in keys;
      DefaultsOverAt(base, front, k);
      var e, known := base[last], DefaultsOver(base, front);
      CandidateDefaultsAt(e.candidates, last, if e.source.kind.InternalDefault? then known[e.key := e] else known, k);
    }
  }

  lemma ValidAtKey(facts: seq<Fact>, p: Policies, key: string)
    ensures forall f :: f in Valid(facts, p, key) ==> f.key == key && Meets(PolicyFor(p, key), f.value)
  {
    ConformingMembers(PolicyFor(p, key), Group(facts, p, key));
    GroupMembers(facts, p, key);
  }

  lemma ResolvedWellMade(facts: seq<Fact>, p: Policies, key: string)
    requires Stamped(facts) && key in Resolve(facts, p).config
    ensures WellMade(Resolve(facts, p).config, key)
  {
    ConfigKeys(facts, p);
    ChosenKey(facts, p, key);
    ValidAtKey(facts, p, key);
    ChooseIn(Valid(facts, p, key), PolicyFor(p, key).conflict);
    ValidIncreasing(facts, p, key);
    LastDefaultIs(Valid(facts, p, key));
  }

  /** A key has a known default exactly when one of its conforming facts is an internal
      default; the last inserted of these is it. */
  lemma KnownDefaultsExactly(facts: seq<Fact>, p: Policies, access: AccessRules, key: string)
    requires Stamped(facts)
    ensures var known := GovernanceOf(Resolve(facts, p), p, access).defaults;
            var last := LastDefault(Valid(facts, p, key));
            if last.None? then key !in known else key in known && known[key] == DefaultEntry(last.value)
    ensures Increasing(Valid(facts, p, key))
  {
    var base := Resolve(facts, p).config;
    SortedKeysExact(base.Keys);
    forall k | k in base ensures WellMade(base, k) { ResolvedWellMade(facts, p, k); }
    DefaultsOverAt(base, SortedKeys(base.Keys), key);
    ConfigKeys(facts, p);
    ValidIncreasing(facts, p, key);
  }

  lemma DefaultMeetsPolicy(facts: seq<Fact>, p: Policies, access: AccessRules, key: string)
    requires Stamped(facts)
    ensures var g := GovernanceOf(Resolve(facts, p), p, access);
            key in g.defaults ==> Meets(PolicyFor(p, key), g.defaults[key].value)
  {
    KnownDefaultsExactly(facts, p, access, key);
    LastDefaultIs(Valid(facts, p, key));
    ValidAtKey(facts, p, key);
  }

  lemma StagedAfter(s: Staged, op: Op, key: string)
    ensures StagedAt(Stage(s, op), key) == if key == op.key then Some(op) else StagedAt(s, key)
  {}

  // Staging an allowed operation keeps a valid transaction valid.
  lemma StagingAllowed(g: Governance, s: Staged, op: Op)
    requires s.Apart() && Validates(g, s) && Allowed(g, op)
    ensures Validates(g, Stage(s, op))
  {
    StageKeepsApart(s, op);
    ValidatesByKey(g, s);
    forall k | StagedAt(Stage(s, op), k).Some? ensures Allowed(g, StagedAt(Stage(s, op), k).value) {
      StagedAfter(s, op, k);
    }
    ValidatesByKey(g, Stage(s, op));
  }

  lemma ResetTakesEffect(g: Governance, key: string, s: Staged, o: Overlay)
    requires s.Apart() && o.Disjoint() && Validates(g, s) && Allowed(g, ResetDefaultOp(key))
    ensures Validates(g, Stage(s, ResetDefaultOp(key)))
    ensures GetValue(g, Committed(g, Stage(s, ResetDefaultOp(key)), o), key) == GetEntryValue(g.defaults, key)
  {
    var s' := Stage(s, ResetDefaultOp(key));
    StagingAllowed(g, s, ResetDefaultOp(key));
    StageKeepsApart(s, ResetDefaultOp(key));
    CommitSlot(g, s', o, key);
    assert StagedAt(s', key) == Some(ResetDefaultOp(key));
  }

  /** Resetting a mutable, resettable key to its known default always validates, alone or
      on top of whatever else a valid transaction stages, and a commit makes the key read
      as that default. */
  lemma ResetToDefaultWorks(facts: seq<Fact>, p: Policies, access: AccessRules, key: string,
                            s: Staged, o: Overlay)
    requires Stamped(facts) && s.Apart() && o.Disjoint()
    requires var g := GovernanceOf(Resolve(facts, p), p, access);
             Validates(g, s) && key in g.defaults &&
             IsRuntimeMutable(access, key) && IsResettable(access, key)
    ensures var g := GovernanceOf(Resolve(facts, p), p, access);
            var s' := Stage(s, ResetDefaultOp(key));
            Validates(g, s') &&
            GetValue(g, Committed(g, s', o), key) == Some(g.defaults[key].value)
  {
    DefaultMeetsPolicy(facts, p, access, key);
    ResetTakesEffect(GovernanceOf(Resolve(facts, p), p, access), key, s, o);
  }

  // ---- when insertion order decides it ----

  /** A fact that can be the known default in some order. */
  predicate IsDefaultOf(c: Fact, p: Policies, key: string) {
    Conforms(c, p, key) && c.source.kind.InternalDefault?
  }

  predicate OneDefault(claims: seq<Fact>, p: Policies, key: string) {
    forall c, d :: c in claims && d in claims && IsDefaultOf(c, p, key) && IsDefaultOf(d, p, key)
                   ==> SameValue(c.value, d.value)
  }

  /** The default that a store built from these claims knows. */
  function DefaultAt(claims: seq<Fact>, p: Policies, key: string): Option<Value> {
    GetEntryValue(GovernanceOf(Resolve(Stamp(claims), p), p, map[]).defaults, key)
  }

  /** Every two orders of the claims give the key the same default, or none. */
  ghost predicate DefaultOrderFree(claims: seq<Fact>, p: Policies, key: string) {
    forall a, b :: multiset(a) == multiset(claims) && multiset(b) == multiset(claims)
                   ==> DefaultAt(a, p, key).Some? == DefaultAt(b, p, key).Some? &&
                       (DefaultAt(a, p, key).Some? ==>
                          SameValue(DefaultAt(a, p, key).value, DefaultAt(b, p, key).value))
  }

  // The fact a known default comes from.
  lemma KnownDefaultFact(facts: seq<Fact>, p: Policies, key: string) returns (f: Fact)
    requires Stamped(facts) && LastDefault(Valid(facts, p, key)).Some?
    ensures f in facts && IsDefaultOf(f, p, key) && f.value == LastDefault(Valid(facts, p, key)).value.value
    ensures forall g :: g in facts && IsDefaultOf(g, p, key) ==> g.order <= f.order
  {
    var valid := Valid(facts, p, key);
    ValidIncreasing(facts, p, key);
    LastDefaultIs(valid);
    f := FromFact(facts, p, key, LastDefault(valid).value);
    forall g | g in facts && IsDefaultOf(g, p, key) ensures g.order <= f.order { HasFact(facts, p, key, g); }
  }

  lemma StampedDefault(claims: seq<Fact>, p: Policies, key: string, i: nat)
    requires i < |claims|
    ensures IsDefaultOf(Stamp(claims)[i], p, key) == IsDefaultOf(claims[i], p, key)
    ensures Stamp(claims)[i].value == claims[i].value
  {
    SameClaim(Stamp(claims)[i], claims[i], p, key);
    assert Claim(Stamp(claims)[i]).source == Claim(claims[i]).source;
  }

  // A known default is claimed.
  lemma DefaultIsClaimed(claims: seq<Fact>, p: Policies, key: string) returns (c: Fact)
    requires DefaultAt(claims, p, key).Some?
    ensures c in claims && IsDefaultOf(c, p, key) && DefaultAt(claims, p, key) == Some(c.value)
  {
    KnownDefaultsExactly(Stamp(claims), p, map[], key);
    var f := KnownDefaultFact(Stamp(claims), p, key);
    var i :| 0 <= i < |Stamp(claims)| && Stamp(claims)[i] == f;
    StampedDefault(claims, p, key, i);
    c := claims[i];
  }

  // And a claimed one makes one known.
  lemma ClaimedIsKnown(claims: seq<Fact>, p: Policies, key: string, c: Fact)
    requires c in claims && IsDefaultOf(c, p, key)
    ensures DefaultAt(claims, p, key).Some?
  {
    var facts := Stamp(claims);
    var i :| 0 <= i < |claims| && claims[i] == c;
    StampedDefault(claims, p, key, i);
    assert facts[i] in facts;
    HasFact(facts, p, key, facts[i]);
    ValidIncreasing(facts, p, key);
    LastDefaultIs(Valid(facts, p, key));
    KnownDefaultsExactly(facts, p, map[], key);
  }

  // The last of the conforming internal defaults is the known one.
  lemma LatestIsKnown(facts: seq<Fact>, p: Policies, access: AccessRules, key: string, f: Fact)
    requires Stamped(facts) && f in facts && IsDefaultOf(f, p, key)
    requires forall g :: g in facts && IsDefaultOf(g, p, key) ==> g.order <= f.order
    ensures GetEntryValue(GovernanceOf(Resolve(facts, p), p, access).defaults, key) == Some(f.value)
  {
    HasFact(facts, p, key, f);
    ValidIncreasing(facts, p, key);
    LastDefaultIs(Valid(facts, p, key));
    KnownDefaultsExactly(facts, p, access, key);
    var g := KnownDefaultFact(facts, p, key);
  }

  lemma LastIsKnown(claims: seq<Fact>, p: Policies, key: string)
    requires claims != [] && IsDefaultOf(claims[|claims| - 1], p, key)
    ensures DefaultAt(claims, p, key) == Some(claims[|claims| - 1].value)
  {
    StampedDefault(claims, p, key, |claims| - 1);
    LatestIsKnown(Stamp(claims), p, map[], key, Stamp(claims)[|claims| - 1]);
  }

  lemma DefaultLast(claims: seq<Fact>, p: Policies, key: string, c: Fact) returns (moved: seq<Fact>)
    requires c in claims && IsDefaultOf(c, p, key)
    ensures multiset(moved) == multiset(claims) && DefaultAt(moved, p, key) == Some(c.value)
  {
    var i :| 0 <= i < |claims| && claims[i] == c;
    moved := Promote(claims, i, LastWins);
    PromoteIsPermutation(claims, i, LastWins);
    LastIsKnown(moved, p, key);
  }

  lemma DefaultsAgree(a: seq<Fact>, b: seq<Fact>, p: Policies, key: string)
    requires (forall f :: f in a <==> f in b) && OneDefault(a, p, key)
    ensures DefaultAt(a, p, key).Some? == DefaultAt(b, p, key).Some?
    ensures DefaultAt(a, p, key).Some? ==> SameValue(DefaultAt(a, p, key).value, DefaultAt(b, p, key).value)
  {
    if DefaultAt(a, p, key).Some? {
      var c := DefaultIsClaimed(a, p, key);
      ClaimedIsKnown(b, p, key, c);
      var d := DefaultIsClaimed(b, p, key);
    } else if DefaultAt(b, p, key).Some? {
      var d := DefaultIsClaimed(b, p, key);
      ClaimedIsKnown(a, p, key, d);
      assert false;
    }
  }

  /** The default a store knows is independent of the order in which facts were added
      exactly when all conforming internal defaults at the key show one value, whatever the
      key's conflict policy, their precedence and the verdict. */
  lemma DefaultOrderExactly(claims: seq<Fact>, p: Policies, key: string)
    ensures DefaultOrderFree(claims, p, key) <==> OneDefault(claims, p, key)
  {
    if DefaultOrderFree(claims, p, key) {
      forall c, d | c in claims && d in claims && IsDefaultOf(c, p, key) && IsDefaultOf(d, p, key)
        ensures SameValue(c.value, d.value)
      {
        var a := DefaultLast(claims, p, key, c);
        var b := DefaultLast(claims, p, key, d);
      }
    }
    if OneDefault(claims, p, key) {
      forall a, b | multiset(a) == multiset(claims) && multiset(b) == multiset(claims)
        ensures DefaultAt(a, p, key).Some? == DefaultAt(b, p, key).Some?
        ensures DefaultAt(a, p, key).Some? ==>
                  SameValue(DefaultAt(a, p, key).value, DefaultAt(b, p, key).value)
      {
        SameMembers(a, claims);
        SameMembers(b, claims);
        DefaultsAgree(a, b, p, key);
      }
    }
  }

  // ---- when the conflict policy agrees with it ----

  function InternalDefaults(s: seq<Fact>): seq<Fact> {
    if s == [] then []
    else
      var before, last := InternalDefaults(s[..|s| - 1]), s[|s| - 1];
      if last.source.kind.InternalDefault? then before + [last] else before
  }

  lemma {:induction false} InternalDefaultsMembers(s: seq<Fact>)
    ensures forall f :: f in InternalDefaults(s) <==> f in s && f.source.kind.InternalDefault?
    ensures var own := InternalDefaults(s);
            LastDefault(s) == if own == [] then None else Some(own[|own| - 1])
  {
    if s != [] {
      InternalDefaultsMembers(s[..|s| - 1]);
      assert s == s[..|s| - 1] + [s[|s| - 1]];
    }
  }

  lemma {:induction false} InternalDefaultsIncreasing(s: seq<Fact>)
    requires Increasing(s)
    ensures Increasing(InternalDefaults(s))
  {
    if s != [] {
      var front := s[..|s| - 1];
      InternalDefaultsIncreasing(front);
      InternalDefaultsMembers(front);
      var before := InternalDefaults(front);
      forall i | 0 <= i < |before| ensures before[i].order < s[|s| - 1].order { assert before[i] in front; }
    }
  }

  // Of facts in insertion order, the last is the winner exactly when the policy makes it so.
  lemma LastWinsExactly(s: seq<Fact>, conflict: ConflictPolicy)
    requires s != [] && Increasing(s)
    ensures var last := s[|s| - 1];
            Choose(s, conflict) == last <==>
            match conflict
            case LastWins => true
            case FirstWins => |s| == 1
            case _ => IsTop(last, s)
  {
    var last := s[|s| - 1];
    IncreasingUnique(s);
    ChooseIsWinner(s, conflict);
    if IsWinner(last, s, conflict) { WinnerIsUnique(s, conflict, last, Choose(s, conflict)); }
    if |s| > 1 { assert s[0] in s && s[0] != last; }
  }

  /** The known default is the one that the key's conflict policy would choose among its
      internal defaults always under LastWins, under FirstWins when there is one only, and
      otherwise when the last one has top precedence among them. */
  lemma KnownDefaultIsWinnerExactly(facts: seq<Fact>, p: Policies, key: string)
    requires Stamped(facts) && InternalDefaults(Valid(facts, p, key)) != []
    ensures var own, conflict := InternalDefaults(Valid(facts, p, key)), PolicyFor(p, key).conflict;
            LastDefault(Valid(facts, p, key)) == Some(Choose(own, conflict)) <==>
            match conflict
            case LastWins => true
            case FirstWins => |own| == 1
            case _ => IsTop(own[|own| - 1], own)
  {
    ValidIncreasing(facts, p, key);
    InternalDefaultsMembers(Valid(facts, p, key));
    InternalDefaultsIncreasing(Valid(facts, p, key));
    LastWinsExactly(InternalDefaults(Valid(facts, p, key)), PolicyFor(p, key).conflict);
  }

  // ---- a run that shows it ----

  // Two internal defaults below a stronger fact.
  predicate Shadowed(facts: seq<Fact>, key: string) {
    |facts| == 3 && Stamped(facts) && ValidDotted(key) &&
    (forall f :: f in facts ==> f.key == key && f.role.Application? && f.precedence != 0) &&
    facts[0].source.kind.InternalDefault? && facts[1].source.kind.InternalDefault? &&
    !facts[2].source.kind.InternalDefault? &&
    facts[0].precedence < facts[2].precedence && facts[1].precedence < facts[2].precedence
  }

  lemma ShadowedTop(facts: seq<Fact>, p: Policies, key: string, f: Fact)
    requires Shadowed(facts, key) && p.keys == map[] && f in facts
    ensures Admitted(f) && Effective(f, p) == f && Meets(PolicyFor(p, f.key), f.value)
    ensures Competes(facts, p, f) ==> f == facts[2]
    ensures Eligible(f, facts, p, key) ==> f == facts[2]
  {
    assert facts[2] in facts;
    assert f == facts[0] || f == facts[1] || f == facts[2];
  }

  lemma ShadowedOk(facts: seq<Fact>, p: Policies, key: string)
    requires Shadowed(facts, key) && p.keys == map[]
    ensures Resolve(facts, p).Ok()
    ensures GetEntryValue(Resolve(facts, p).config, key) == Some(facts[2].value)
  {
    forall f | f in facts
      ensures Admitted(f) && Meets(PolicyFor(p, f.key), f.value) && (Competes(facts, p, f) ==> f == facts[2])
    {
      ShadowedTop(facts, p, key, f);
    }
    OkExactly(facts, p);
    HasFact(facts, p, key, facts[2]);
    ConfigShowsRulings(facts, p, key);
    var f := RuledIsEligible(facts, p, key);
    ShadowedTop(facts, p, key, f);
  }

  lemma ShadowedKnows(facts: seq<Fact>, p: Policies, access: AccessRules, key: string)
    requires Shadowed(facts, key) && p.keys == map[]
    ensures GetEntryValue(GovernanceOf(Resolve(facts, p), p, access).defaults, key) == Some(facts[1].value)
  {
    ShadowedTop(facts, p, key, facts[1]);
    LatestIsKnown(facts, p, access, key, facts[1]);
  }

  lemma ResetRunReads(g: Governance, key: string)
    requires Allowed(g, ResetDefaultOp(key))
    ensures GetValue(g, Run(g, OneChange(ResetDefaultOp(key))).changes, key) == GetEntryValue(g.defaults, key)
  {
    OneChangeRun(g, ResetDefaultOp(key));
  }

  /** Where two internal defaults disagree below a stronger fact, resolution is silent and
      rules for the stronger fact in either order; what a reset to the default gives is the
      one added last. */
  lemma ShadowedDefaultsDecideByOrder(facts: seq<Fact>, p: Policies, key: string)
    requires Shadowed(facts, key) && p.keys == map[]
    ensures Resolve(facts, p).diagnostics == []
    ensures var g := GovernanceOf(Resolve(facts, p), p, map[]);
            GetEntryValue(g.base, key) == Some(facts[2].value) &&
            GetValue(g, Run(g, OneChange(ResetDefaultOp(key))).changes, key) == Some(facts[1].value)
  {
    ShadowedOk(facts, p, key);
    OkMeansSilent(facts, p);
    ShadowedKnows(facts, p, map[], key);
    DefaultMeetsPolicy(facts, p, map[], key);
    ResetRunReads(GovernanceOf(Resolve(facts, p), p, map[]), key);
  }

  const NO_POLICIES := Policies(map[], map[])

  /** Two internal defaults m, then n, below a file's 3 at one key. */
  function TwoDefaults(m: int64, n: int64): seq<Fact> {
    [Fact("k", Int(m), Source(InternalDefault, "defaults"), 10, Application, 0),
     Fact("k", Int(n), Source(InternalDefault, "defaults"), 10, Application, 1),
     Fact("k", Int(3), Source(File, "app.conf:1"), 30, Application, 2)]
  }

  function TwoDefaultsStore(m: int64, n: int64): Governance {
    GovernanceOf(Resolve(TwoDefaults(m, n), NO_POLICIES), NO_POLICIES, map[])
  }

  /** Defaults 1 and 2, for one: in either order no diagnostic and the value 3, and a reset
      gives 2 or 1. */
  lemma DefaultOrderIsSilent(m: int64, n: int64)
    ensures Resolve(TwoDefaults(m, n), NO_POLICIES).diagnostics == []
    ensures var g := TwoDefaultsStore(m, n);
            GetEntryValue(g.base, "k") == Some(Int(3)) &&
            GetValue(g, Run(g, OneChange(ResetDefaultOp("k"))).changes, "k") == Some(Int(n))
  {
    var facts := TwoDefaults(m, n);
    assert forall f :: f in facts ==> f == facts[0] || f == facts[1] || f == facts[2];
    ShadowedDefaultsDecideByOrder(facts, NO_POLICIES, "k");
  }
}
