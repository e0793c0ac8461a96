/** Resolution of raw facts into one value per key, and its imperative form. */
module Resolver {
  import opened Wrappers
  import opened Values
  import opened Sources
  import opened Diagnostics
  import opened Facts
  import opened Policy
  import opened Keys
  import opened Ordering
  import opened Sequences

  datatype Entry = Entry(key: string, value: Value, source: Source, candidates: seq<Fact>)

  datatype ResolveResult = ResolveResult(config: map<string, Entry>, diagnostics: seq<Diagnostic>) {
    predicate Ok() { !HasErrors(diagnostics) }
  }

  class ResolvedConfig {
    var entries: map<string, Entry>

    constructor ()
      ensures entries == map[]
    {
      entries := map[];
    }

    method Set(e: Entry)
      modifies this
      ensures entries == old(entries)[e.key := e]
    {
      entries := entries[e.key := e];
    }
  }

  function GetEntryValue(config: map<string, Entry>, key: string): Option<Value> {
    if key in config then Some(config[key].value) else None
  }

  predicate SameValue(a: Value, b: Value) { a.ToText() == b.ToText() && a.Type() == b.Type() }

  // ---- candidate validation ----

  function FactError(code: string, f: Fact): Diagnostic { Diagnostic(Error, code, f.key, f.source) }

  function FactDiags(policy: KeyPolicy, f: Fact): seq<Diagnostic> {
    var v := f.value;
    (if policy.expected.Some? && v.Type() != policy.expected.value
     then [FactError("CONFIG_TYPE_MISMATCH", f)] else []) +
    (if policy.allowed != {} && v.Str? && v.s !in policy.allowed
     then [FactError("CONFIG_STRING_NOT_ALLOWED", f)] else []) +
    (if v.Int? && policy.min.Some? && v.n < policy.min.value
     then [FactError("CONFIG_INT_TOO_SMALL", f)] else []) +
    (if v.Int? && policy.max.Some? && v.n > policy.max.value
     then [FactError("CONFIG_INT_TOO_LARGE", f)] else [])
  }

  /** The resolver's validator is silent exactly on the values that meet the policy. */
  lemma FactDiagsExact(policy: KeyPolicy, f: Fact)
    ensures FactDiags(policy, f) == [] <==> Meets(policy, f.value)
    ensures AllErrors(FactDiags(policy, f))
  {}

  method ValidateValue(policy: KeyPolicy, f: Fact, log: DiagnosticLog) returns (ok: bool)
    modifies log
    ensures ok <==> Meets(policy, f.value)
    ensures log.items == old(log.items) + FactDiags(policy, f)
  {
    ok := true;
    if policy.expected.Some? && f.value.Type() != policy.expected.value {
      log.AddError("CONFIG_TYPE_MISMATCH", f.key, f.source);
      ok := false;
    }
    if policy.allowed != {} && f.value.Type() == StringType {
      if f.value.s !in policy.allowed {
        log.AddError("CONFIG_STRING_NOT_ALLOWED", f.key, f.source);
        ok := false;
      }
    }
    if f.value.Type() == IntType {
      if policy.min.Some? && f.value.n < policy.min.value {
        log.AddError("CONFIG_INT_TOO_SMALL", f.key, f.source);
        ok := false;
      }
      if policy.max.Some? && f.value.n > policy.max.value {
        log.AddError("CONFIG_INT_TOO_LARGE", f.key, f.source);
        ok := false;
      }
    }
  }

  // ---- choosing among candidates ----

  /** The comparator of the candidate sort. */
  predicate Before(a: Fact, b: Fact) {
    if a.precedence != b.precedence then a.precedence > b.precedence else a.order > b.order
  }

  function Insert(f: Fact, s: seq<Fact>): seq<Fact> {
    if s == [] || Before(f, s[0]) then [f] + s else [s[0]] + Insert(f, s[1..])
  }

  lemma {:induction false} InsertLength(f: Fact, s: seq<Fact>)
    ensures |Insert(f, s)| == |s| + 1
  {
    if s != [] { InsertLength(f, s[1..]); }
  }

  /** `std::sort` by Before. */
  function Sorted(s: seq<Fact>): (r: seq<Fact>)
    ensures |r| == |s|
  {
    if s == [] then [] else InsertLength(s[0], Sorted(s[1..])); Insert(s[0], Sorted(s[1..]))
  }

  function Earliest(s: seq<Fact>): Fact
    requires s != []
  {
    if |s| == 1 then s[0]
    else
      var best, last := Earliest(s[..|s| - 1]), s[|s| - 1];
      if last.order < best.order then last else best
  }

  function Latest(s: seq<Fact>): Fact
    requires s != []
  {
    if |s| == 1 then s[0]
    else
      var best, last := Latest(s[..|s| - 1]), s[|s| - 1];
      if best.order < last.order then last else best
  }

  function Choose(candidates: seq<Fact>, conflict: ConflictPolicy): Fact
    requires candidates != []
  {
    match conflict
    case FirstWins => Earliest(Sorted(candidates))
    case LastWins => Latest(Sorted(candidates))
    case _ => Sorted(candidates)[0]
  }

  function Disagreements(first: Value, s: seq<Fact>, code: string): seq<Diagnostic> {
    if s == [] then []
    else
      var last := s[|s| - 1];
      Disagreements(first, s[..|s| - 1], code) +
      if SameValue(first, last.value) then [] else [FactError(code, last)]
  }

  function RunLength(s: seq<Fact>, precedence: int): (n: nat)
    ensures n <= |s|
  {
    if s == [] || s[0].precedence != precedence then 0 else 1 + RunLength(s[1..], precedence)
  }

  const AMBIGUOUS := "CONFIG_AMBIGUOUS_PRECEDENCE"

  function ConflictDiags(sorted: seq<Fact>, conflict: ConflictPolicy): seq<Diagnostic>
    requires sorted != []
  {
    match conflict
    case RejectConflict => Disagreements(sorted[0].value, sorted, "CONFIG_CONFLICT")
    case HighestPrecedenceWins =>
      Disagreements(sorted[0].value, sorted[..RunLength(sorted, sorted[0].precedence)],
                    AMBIGUOUS)
    case _ => []
  }

  lemma {:induction false} RunLengthIs(s: seq<Fact>, precedence: int, n: nat)
    requires n <= |s|
    requires forall i :: 0 <= i < n ==> s[i].precedence == precedence
    requires n < |s| ==> s[n].precedence != precedence
    ensures RunLength(s, precedence) == n
  {
    if n > 0 { RunLengthIs(s[1..], precedence, n - 1); }
  }

  lemma DisagreementsStep(first: Value, s: seq<Fact>, i: nat, code: string)
    requires i < |s|
    ensures Disagreements(first, s[..i + 1], code) ==
            Disagreements(first, s[..i], code) + if SameValue(first, s[i].value) then [] else [FactError(code, s[i])]
  {
    assert s[..i + 1][..i] == s[..i];
  }

  method ReportDisagreements(first: Value, s: seq<Fact>, code: string, log: DiagnosticLog)
    modifies log
    ensures log.items == old(log.items) + Disagreements(first, s, code)
  {
    for i := 0 to |s|
      invariant log.items == old(log.items) + Disagreements(first, s[..i], code)
    {
      DisagreementsStep(first, s, i, code);
      if !SameValue(first, s[i].value) { log.AddError(code, s[i].key, s[i].source); }
    }
    assert s[..|s|] == s;
  }

  method PickByOrder(sorted: seq<Fact>, first: bool) returns (chosen: Fact)
    requires sorted != []
    ensures chosen == if first then Earliest(sorted) else Latest(sorted)
  {
    chosen := sorted[0];
    assert sorted[..1] == [sorted[0]];
    for i := 1 to |sorted|
      invariant chosen == if first then Earliest(sorted[..i]) else Latest(sorted[..i])
    {
      assert sorted[..i + 1][..i] == sorted[..i];
      if (if first then sorted[i].order < chosen.order else chosen.order < sorted[i].order) {
        chosen := sorted[i];
      }
    }
    assert sorted[..|sorted|] == sorted;
  }

  method ReportTopDisagreements(sorted: seq<Fact>, log: DiagnosticLog)
    requires sorted != []
    modifies log
    ensures log.items == old(log.items) + ConflictDiags(sorted, HighestPrecedenceWins)
  {
    var first := sorted[0];
    var i := 0;
    while i < |sorted| && sorted[i].precedence == first.precedence
      invariant 0 <= i <= |sorted|
      invariant forall j :: 0 <= j < i ==> sorted[j].precedence == first.precedence
      invariant log.items == old(log.items) + Disagreements(first.value, sorted[..i], AMBIGUOUS)
    {
      var candidate := sorted[i];
      DisagreementsStep(first.value, sorted, i, AMBIGUOUS);
      if !SameValue(first.value, candidate.value) {
        log.AddError(AMBIGUOUS, candidate.key, candidate.source);
      }
      i := i + 1;
    }
    RunLengthIs(sorted, first.precedence, i);
  }

  method ChooseCandidate(candidates: seq<Fact>, conflict: ConflictPolicy, log: DiagnosticLog)
    returns (chosen: Fact)
    requires candidates != []
    modifies log
    ensures chosen == Choose(candidates, conflict)
    ensures log.items == old(log.items) + ConflictDiags(Sorted(candidates), conflict)
  {
    var sorted := Sorted(candidates);
    if conflict == FirstWins || conflict == LastWins {
      chosen := PickByOrder(sorted, conflict == FirstWins);
      return;
    }
    if conflict == RejectConflict {
      ReportDisagreements(sorted[0].value, sorted, "CONFIG_CONFLICT", log);
    }
    if conflict == HighestPrecedenceWins {
      ReportTopDisagreements(sorted, log);
    }
    chosen := sorted[0];
  }

  // ---- grouping ----

  predicate Admitted(f: Fact) { f.role.Application? && ValidDotted(f.key) }

  function Effective(f: Fact, p: Policies): Fact {
    if f.precedence == 0 then f.(precedence := PrecedenceFor(p, f.source.kind)) else f
  }

  function GroupedKeys(facts: seq<Fact>): set<string> {
    set f | f in facts && Admitted(f) :: f.key
  }

  function Group(facts: seq<Fact>, p: Policies, key: string): seq<Fact> {
    if facts == [] then []
    else
      var last := facts[|facts| - 1];
      Group(facts[..|facts| - 1], p, key) +
      if Admitted(last) && last.key == key then [Effective(last, p)] else []
  }

  function IntakeDiags(facts: seq<Fact>): seq<Diagnostic> {
    if facts == [] then []
    else
      var last := facts[|facts| - 1];
      IntakeDiags(facts[..|facts| - 1]) +
      if last.role.Application? && !ValidDotted(last.key)
      then [FactError("CONFIG_INVALID_KEY", last)] else []
  }

  function MissingDiags(p: Policies, grouped: set<string>, keys: seq<string>): seq<Diagnostic> {
    if keys == [] then []
    else
      var last := keys[|keys| - 1];
      MissingDiags(p, grouped, keys[..|keys| - 1]) +
      if last !in grouped && PolicyFor(p, last).missing.Required?
      then [Diagnostic(Error, "CONFIG_REQUIRED_MISSING", PolicyFor(p, last).key, NO_SOURCE)] else []
  }

  function Conforming(policy: KeyPolicy, s: seq<Fact>): seq<Fact> {
    if s == [] then []
    else
      var last := s[|s| - 1];
      Conforming(policy, s[..|s| - 1]) + if Meets(policy, last.value) then [last] else []
  }

  function CandidateDiags(policy: KeyPolicy, s: seq<Fact>): seq<Diagnostic> {
    if s == [] then []
    else CandidateDiags(policy, s[..|s| - 1]) + FactDiags(policy, s[|s| - 1])
  }

  /** The candidates that reach the choice for a key. */
  function Valid(facts: seq<Fact>, p: Policies, key: string): seq<Fact> {
    Conforming(PolicyFor(p, key), Group(facts, p, key))
  }

  function ChoiceDiags(policy: KeyPolicy, valid: seq<Fact>): seq<Diagnostic> {
    if valid == [] then [] else ConflictDiags(Sorted(valid), policy.conflict)
  }

  function CandidatesDiags(policy: KeyPolicy, candidates: seq<Fact>): seq<Diagnostic> {
    CandidateDiags(policy, candidates) + ChoiceDiags(policy, Conforming(policy, candidates))
  }

  function KeyDiags(facts: seq<Fact>, p: Policies, key: string): seq<Diagnostic> {
    CandidatesDiags(PolicyFor(p, key), Group(facts, p, key))
  }

  function AllKeyDiags(facts: seq<Fact>, p: Policies, keys: seq<string>): seq<Diagnostic> {
    if keys == [] then []
    else AllKeyDiags(facts, p, keys[..|keys| - 1]) + KeyDiags(facts, p, keys[|keys| - 1])
  }

  function ResolvedEntry(facts: seq<Fact>, p: Policies, key: string): Entry
    requires Valid(facts, p, key) != []
  {
    var valid := Valid(facts, p, key);
    var chosen := Choose(valid, PolicyFor(p, key).conflict);
    Entry(chosen.key, chosen.value, chosen.source, valid)
  }

  function ConfigOver(facts: seq<Fact>, p: Policies, keys: seq<string>): map<string, Entry> {
    map k | k in keys && Valid(facts, p, k) != [] :: ResolvedEntry(facts, p, k)
  }

  function Resolve(facts: seq<Fact>, p: Policies): ResolveResult {
    var keys := SortedKeys(GroupedKeys(facts));
    ResolveResult(
      ConfigOver(facts, p, keys),
      IntakeDiags(facts) + MissingDiags(p, GroupedKeys(facts), SortedKeys(p.keys.Keys)) +
      AllKeyDiags(facts, p, keys))
  }

  // ---- membership in the pieces ----

  lemma {:induction false} InsertMembers(f: Fact, s: seq<Fact>)
    ensures forall g :: g in Insert(f, s) <==> g == f || g in s
  {
    if s != [] && !Before(f, s[0]) {
      InsertMembers(f, s[1..]);
      assert s == [s[0]] + s[1..];
    }
  }

  lemma {:induction false} SortedMembers(s: seq<Fact>)
    ensures forall g :: g in Sorted(s) <==> g in s
  {
    if s != [] {
      SortedMembers(s[1..]);
      InsertMembers(s[0], Sorted(s[1..]));
      assert s == [s[0]] + s[1..];
    }
  }

  lemma {:induction false} EarliestLatestIn(s: seq<Fact>)
    requires s != []
    ensures Earliest(s) in s && Latest(s) in s
    ensures forall g :: g in s ==> Earliest(s).order <= g.order <= Latest(s).order
  {
    if |s| > 1 {
      EarliestLatestIn(s[..|s| - 1]);
      assert s == s[..|s| - 1] + [s[|s| - 1]];
    }
  }

  lemma ChooseIn(s: seq<Fact>, conflict: ConflictPolicy)
    requires s != []
    ensures Choose(s, conflict) in s
  {
    SortedMembers(s);
    EarliestLatestIn(Sorted(s));
    assert Sorted(s)[0] in Sorted(s);
  }

  lemma {:induction false} ConformingMembers(policy: KeyPolicy, s: seq<Fact>)
    ensures forall f :: f in Conforming(policy, s) <==> f in s && Meets(policy, f.value)
  {
    if s != [] {
      ConformingMembers(policy, s[..|s| - 1]);
      assert s == s[..|s| - 1] + [s[|s| - 1]];
    }
  }

  lemma {:induction false} GroupMembers(facts: seq<Fact>, p: Policies, key: string)
    ensures forall g :: g in facts && Admitted(g) && g.key == key ==> Effective(g, p) in Group(facts, p, key)
    ensures forall f :: f in Group(facts, p, key) ==>
              exists g :: g in facts && Admitted(g) && g.key == key && f == Effective(g, p)
  {
    if facts != [] {
      var front, last := facts[..|facts| - 1], facts[|facts| - 1];
      assert facts == front + [last];
      GroupMembers(front, p, key);
      forall f | f in Group(facts, p, key)
        ensures exists g :: g in facts && Admitted(g) && g.key == key && f == Effective(g, p)
      {
        if f in Group(front, p, key) {
          var g :| g in front && Admitted(g) && g.key == key && f == Effective(g, p);
          assert g in facts;
        } else {
          assert f == Effective(last, p);
        }
      }
    }
  }

  lemma ChosenKey(facts: seq<Fact>, p: Policies, key: string)
    requires Valid(facts, p, key) != []
    ensures ResolvedEntry(facts, p, key).key == key
    ensures Choose(Valid(facts, p, key), PolicyFor(p, key).conflict) in Group(facts, p, key)
    ensures Meets(PolicyFor(p, key), ResolvedEntry(facts, p, key).value)
  {
    ChooseIn(Valid(facts, p, key), PolicyFor(p, key).conflict);
    ConformingMembers(PolicyFor(p, key), Group(facts, p, key));
    GroupMembers(facts, p, key);
  }

  // ---- the imperative resolver ----

  predicate IsGrouping(grouped: map<string, seq<Fact>>, facts: seq<Fact>, p: Policies) {
    grouped.Keys == GroupedKeys(facts) && forall k :: k in grouped ==> grouped[k] == Group(facts, p, k)
  }

  function AddToGroup(grouped: map<string, seq<Fact>>, f: Fact): map<string, seq<Fact>> {
    grouped[f.key := (if f.key in grouped then grouped[f.key] else []) + [f]]
  }

  lemma {:induction false} UngroupedIsEmpty(facts: seq<Fact>, p: Policies, key: string)
    requires key !in GroupedKeys(facts)
    ensures Group(facts, p, key) == []
  {
    if facts != [] {
      assert facts[|facts| - 1] in facts;
      UngroupedIsEmpty(facts[..|facts| - 1], p, key);
    }
  }

  lemma GroupStep(front: seq<Fact>, last: Fact, p: Policies, key: string)
    ensures Group(front + [last], p, key) ==
            Group(front, p, key) + if Admitted(last) && last.key == key then [Effective(last, p)] else []
  {}

  lemma GroupedKeysStep(front: seq<Fact>, last: Fact)
    ensures GroupedKeys(front + [last]) == GroupedKeys(front) + if Admitted(last) then {last.key} else {}
  {}

  lemma GroupingStep(grouped: map<string, seq<Fact>>, front: seq<Fact>, last: Fact, p: Policies)
    requires IsGrouping(grouped, front, p)
    ensures IsGrouping(if Admitted(last) then AddToGroup(grouped, Effective(last, p)) else grouped,
                       front + [last], p)
  {
    var next := if Admitted(last) then AddToGroup(grouped, Effective(last, p)) else grouped;
    GroupedKeysStep(front, last);
    if last.key !in grouped { UngroupedIsEmpty(front, p, last.key); }
    forall k | k in next ensures next[k] == Group(front + [last], p, k) {
      GroupStep(front, last, p, k);
    }
  }

  lemma IntakeStep(front: seq<Fact>, last: Fact)
    ensures IntakeDiags(front + [last]) ==
              IntakeDiags(front) + if last.role.Application? && !ValidDotted(last.key)
                                   then [FactError("CONFIG_INVALID_KEY", last)] else []
  {}

  method GroupFacts(facts: seq<Fact>, p: Policies, log: DiagnosticLog)
    returns (grouped: map<string, seq<Fact>>)
    modifies log
    ensures IsGrouping(grouped, facts, p)
    ensures log.items == old(log.items) + IntakeDiags(facts)
  {
    grouped := map[];
    for i := 0 to |facts|
      invariant IsGrouping(grouped, facts[..i], p)
      invariant log.items == old(log.items) + IntakeDiags(facts[..i])
    {
      var fact := facts[i];
      PrefixStep(facts, i);
      GroupingStep(grouped, facts[..i], fact, p);
      IntakeStep(facts[..i], fact);
      if fact.role != Application {
        continue;
      }
      if !ValidDotted(fact.key) {
        log.AddError("CONFIG_INVALID_KEY", fact.key, fact.source);
        continue;
      }
      grouped := AddToGroup(grouped, Effective(fact, p));
    }
    assert facts[..|facts|] == facts;
  }

  method FilterValid(policy: KeyPolicy, candidates: seq<Fact>, log: DiagnosticLog)
    returns (valid: seq<Fact>)
    modifies log
    ensures valid == Conforming(policy, candidates)
    ensures log.items == old(log.items) + CandidateDiags(policy, candidates)
  {
    valid := [];
    for i := 0 to |candidates|
      invariant valid == Conforming(policy, candidates[..i])
      invariant log.items == old(log.items) + CandidateDiags(policy, candidates[..i])
    {
      assert candidates[..i + 1][..i] == candidates[..i];
      var ok := ValidateValue(policy, candidates[i], log);
      if ok { valid := valid + [candidates[i]]; }
    }
    assert candidates[..|candidates|] == candidates;
  }

  lemma MissingStep(p: Policies, grouped: set<string>, front: seq<string>, key: string)
    ensures MissingDiags(p, grouped, front + [key]) == MissingDiags(p, grouped, front) +
            if key !in grouped && PolicyFor(p, key).missing.Required?
            then [Diagnostic(Error, "CONFIG_REQUIRED_MISSING", PolicyFor(p, key).key, NO_SOURCE)] else []
  {}

  method ReportMissing(p: Policies, grouped: set<string>, keys: seq<string>, log: DiagnosticLog)
    modifies log
    ensures log.items == old(log.items) + MissingDiags(p, grouped, keys)
  {
    for i := 0 to |keys|
      invariant log.items == old(log.items) + MissingDiags(p, grouped, keys[..i])
    {
      var key := keys[i];
      PrefixStep(keys, i);
      MissingStep(p, grouped, keys[..i], key);
      if key !in grouped && PolicyFor(p, key).missing == Required {
        log.AddError("CONFIG_REQUIRED_MISSING", PolicyFor(p, key).key, NO_SOURCE);
      }
    }
    assert keys[..|keys|] == keys;
  }

  // One turn of the resolution loop: validate a key's candidates and enter the chosen one.
  method ResolveKey(policy: KeyPolicy, candidates: seq<Fact>, config: ResolvedConfig, log: DiagnosticLog)
    modifies config, log
    ensures log.items == old(log.items) + CandidatesDiags(policy, candidates)
    ensures var valid := Conforming(policy, candidates);
            config.entries ==
              if valid == [] then old(config.entries)
              else var c := Choose(valid, policy.conflict);
                   old(config.entries)[c.key := Entry(c.key, c.value, c.source, valid)]
  {
    var valid := FilterValid(policy, candidates, log);
    Reassociate(old(log.items), CandidateDiags(policy, candidates), ChoiceDiags(policy, valid));
    if valid == [] {
      return;
    }
    var chosen := ChooseCandidate(valid, policy.conflict, log);
    config.Set(Entry(chosen.key, chosen.value, chosen.source, valid));
  }

  // What a turn adds to the configuration.
  lemma ConfigStep(facts: seq<Fact>, p: Policies, keys: seq<string>, key: string)
    ensures ConfigOver(facts, p, keys + [key]) ==
            var valid := Valid(facts, p, key);
            if valid == [] then ConfigOver(facts, p, keys)
            else var c := Choose(valid, PolicyFor(p, key).conflict);
                 ConfigOver(facts, p, keys)[c.key := Entry(c.key, c.value, c.source, valid)]
  {
    if Valid(facts, p, key) != [] { ChosenKey(facts, p, key); }
  }

  lemma KeyDiagsStep(facts: seq<Fact>, p: Policies, keys: seq<string>, key: string)
    ensures AllKeyDiags(facts, p, keys + [key]) == AllKeyDiags(facts, p, keys) + KeyDiags(facts, p, key)
  {}

  method ResolveGroups(ghost facts: seq<Fact>, p: Policies, grouped: map<string, seq<Fact>>,
                       keys: seq<string>, log: DiagnosticLog)
    returns (entries: map<string, Entry>)
    requires forall k :: k in grouped ==> grouped[k] == Group(facts, p, k)
    requires forall k :: k in keys ==> k in grouped
    modifies log
    ensures log.items == old(log.items) + AllKeyDiags(facts, p, keys)
    ensures entries == ConfigOver(facts, p, keys)
  {
    var config := new ResolvedConfig();
    for i := 0 to |keys|
      invariant log.items == old(log.items) + AllKeyDiags(facts, p, keys[..i])
      invariant config.entries == ConfigOver(facts, p, keys[..i])
    {
      var key, before := keys[i], keys[..i];
      PrefixStep(keys, i);
      ConfigStep(facts, p, before, key);
      KeyDiagsStep(facts, p, before, key);
      ResolveKey(PolicyFor(p, key), grouped[key], config, log);
      Reassociate(old(log.items), AllKeyDiags(facts, p, before), KeyDiags(facts, p, key));
    }
    assert keys[..|keys|] == keys;
    entries := config.entries;
  }

  method ResolveFacts(facts: FactSet, p: Policies) returns (r: ResolveResult)
    ensures r == Resolve(facts.facts, p)
  {
    var raw := facts.facts;
    var log := new DiagnosticLog();
    var grouped := GroupFacts(raw, p, log);
    assert log.items == IntakeDiags(raw);
    ReportMissing(p, grouped.Keys, SortedKeys(p.keys.Keys), log);
    SortedKeysExact(grouped.Keys);
    var entries := ResolveGroups(raw, p, grouped, SortedKeys(grouped.Keys), log);
    r := ResolveResult(entries, log.items);
  }
}
