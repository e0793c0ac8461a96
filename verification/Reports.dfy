/** What each diagnostic means: which code is reported exactly when, and about what. */
module Reports {
  import opened Wrappers
  import opened Values
  import opened Sources
  import opened Diagnostics
  import opened Facts
  import opened Policy
  import opened Keys
  import opened Ordering
  import opened Resolver
  import opened ResolverLaws
  import opened Governed

  /** Only errors are errors: warnings and notes leave a log without any. */
  lemma OnlyErrorsCount(items: seq<Diagnostic>, d: Diagnostic)
    ensures HasErrors(items + [d]) <==> HasErrors(items) || d.severity == Error
    ensures !HasErrors([])
  {
    if d.severity == Error { assert d in items + [d]; }
    if e :| e in items && e.severity.Error? { assert e in items + [d]; }
  }

  // ---- a value against its policy ----

  /** The rule of the policy that this value breaks. */
  datatype Violation = WrongType | NotAllowed | TooSmall | TooLarge

  predicate Breaks(policy: KeyPolicy, v: Value, rule: Violation) {
    match rule
    case WrongType => policy.expected.Some? && v.Type() != policy.expected.value
    case NotAllowed => policy.allowed != {} && v.Str? && v.s !in policy.allowed
    case TooSmall => policy.min.Some? && v.Int? && v.n < policy.min.value
    case TooLarge => policy.max.Some? && v.Int? && v.n > policy.max.value
  }

  function ResolverCode(rule: Violation): string {
    match rule
    case WrongType => "CONFIG_TYPE_MISMATCH"
    case NotAllowed => "CONFIG_STRING_NOT_ALLOWED"
    case TooSmall => "CONFIG_INT_TOO_SMALL"
    case TooLarge => "CONFIG_INT_TOO_LARGE"
  }

  function StoreCode(rule: Violation): string {
    match rule
    case WrongType => "CONFIG_STORE_TYPE_MISMATCH"
    case NotAllowed => "CONFIG_STORE_STRING_NOT_ALLOWED"
    case TooSmall => "CONFIG_STORE_INT_TOO_SMALL"
    case TooLarge => "CONFIG_STORE_INT_TOO_LARGE"
  }

  lemma MeetsMeansNoBreak(policy: KeyPolicy, v: Value)
    ensures Meets(policy, v) <==> forall rule :: !Breaks(policy, v, rule)
  {
    if forall rule :: !Breaks(policy, v, rule) {
      assert !Breaks(policy, v, WrongType) && !Breaks(policy, v, NotAllowed);
      assert !Breaks(policy, v, TooSmall) && !Breaks(policy, v, TooLarge);
    }
  }

  function AboutFact(f: Fact, code: string): Diagnostic { Diagnostic(Error, code, f.key, f.source) }

  /** The resolver reports each broken rule under its own code, about the fact, and nothing else. */
  lemma FactDiagsMean(policy: KeyPolicy, f: Fact, d: Diagnostic)
    ensures d in FactDiags(policy, f) <==>
            exists rule :: Breaks(policy, f.value, rule) && d == AboutFact(f, ResolverCode(rule))
  {
    if d in FactDiags(policy, f) {
      assert (Breaks(policy, f.value, WrongType) && d == AboutFact(f, ResolverCode(WrongType))) ||
             (Breaks(policy, f.value, NotAllowed) && d == AboutFact(f, ResolverCode(NotAllowed))) ||
             (Breaks(policy, f.value, TooSmall) && d == AboutFact(f, ResolverCode(TooSmall))) ||
             (Breaks(policy, f.value, TooLarge) && d == AboutFact(f, ResolverCode(TooLarge)));
    }
  }

  // ---- a resolution ----

  lemma {:induction false} IntakeMembers(facts: seq<Fact>, d: Diagnostic)
    ensures d in IntakeDiags(facts) <==>
            exists f :: f in facts && f.role.Application? && !ValidDotted(f.key) &&
                        d == AboutFact(f, "CONFIG_INVALID_KEY")
  {
    if facts != [] {
      IntakeMembers(facts[..|facts| - 1], d);
      assert facts == facts[..|facts| - 1] + [facts[|facts| - 1]];
    }
  }

  lemma {:induction false} MissingMembers(p: Policies, grouped: set<string>, keys: seq<string>, d: Diagnostic)
    ensures d in MissingDiags(p, grouped, keys) <==>
            exists k :: k in keys && k !in grouped && PolicyFor(p, k).missing.Required? &&
                        d == Diagnostic(Error, "CONFIG_REQUIRED_MISSING", PolicyFor(p, k).key,
                                        Source(Unknown, "unknown"))
  {
    if keys != [] {
      MissingMembers(p, grouped, keys[..|keys| - 1], d);
      assert keys == keys[..|keys| - 1] + [keys[|keys| - 1]];
    }
  }

  lemma {:induction false} CandidateMembers(policy: KeyPolicy, s: seq<Fact>, d: Diagnostic)
    ensures d in CandidateDiags(policy, s) <==> exists f :: f in s && d in FactDiags(policy, f)
  {
    if s != [] {
      CandidateMembers(policy, s[..|s| - 1], d);
      assert s == s[..|s| - 1] + [s[|s| - 1]];
    }
  }

  lemma {:induction false} DisagreementMembers(first: Value, s: seq<Fact>, code: string, d: Diagnostic)
    ensures d in Disagreements(first, s, code) <==>
            exists f :: f in s && !SameValue(first, f.value) && d == AboutFact(f, code)
  {
    if s != [] {
      DisagreementMembers(first, s[..|s| - 1], code, d);
      assert s == s[..|s| - 1] + [s[|s| - 1]];
    }
  }

  lemma {:induction false} KeyReported(facts: seq<Fact>, p: Policies, keys: seq<string>, key: string)
    requires key in keys
    ensures forall d :: d in KeyDiags(facts, p, key) ==> d in AllKeyDiags(facts, p, keys)
  {
    var front, last := keys[..|keys| - 1], keys[|keys| - 1];
    assert keys == front + [last];
    if key in front { KeyReported(facts, p, front, key); }
  }

  lemma {:induction false} ReportedOfKey(facts: seq<Fact>, p: Policies, keys: seq<string>, d: Diagnostic)
    returns (key: string)
    requires d in AllKeyDiags(facts, p, keys)
    ensures key in keys && d in KeyDiags(facts, p, key)
  {
    var front, last := keys[..|keys| - 1], keys[|keys| - 1];
    assert keys == front + [last];
    if d in AllKeyDiags(facts, p, front) { key := ReportedOfKey(facts, p, front, d); } else { key := last; }
  }

  /** Some application fact has an ill-formed key. */
  ghost predicate TellsInvalidKey(facts: seq<Fact>, d: Diagnostic) {
    exists f :: f in facts && f.role.Application? && !ValidDotted(f.key) && d == AboutFact(f, "CONFIG_INVALID_KEY")
  }

  /** Some required key has no application fact. */
  ghost predicate TellsMissing(facts: seq<Fact>, p: Policies, d: Diagnostic) {
    exists k :: k in p.keys && p.keys[k].missing.Required? &&
                (forall f :: f in facts && At(f, k) ==> !ValidDotted(f.key)) &&
                d == Diagnostic(Error, "CONFIG_REQUIRED_MISSING", p.keys[k].key, Source(Unknown, "unknown"))
  }

  /** Some application fact breaks a rule of its key's policy. */
  ghost predicate TellsViolation(facts: seq<Fact>, p: Policies, d: Diagnostic) {
    exists f, rule :: f in facts && At(f, f.key) && ValidDotted(f.key) && Breaks(PolicyFor(p, f.key), f.value, rule) &&
                      d == AboutFact(f, ResolverCode(rule))
  }

  /** Some candidate that competes does not show the value ruled. */
  ghost predicate TellsConflict(facts: seq<Fact>, p: Policies, d: Diagnostic) {
    exists k, f ::
      f in Valid(facts, p, k) && Contends(f, Valid(facts, p, k), PolicyFor(p, k).conflict) &&
      !SameValue(ResolvedEntry(facts, p, k).value, f.value) &&
      d == AboutFact(f, if PolicyFor(p, k).conflict.RejectConflict? then "CONFIG_CONFLICT"
                        else "CONFIG_AMBIGUOUS_PRECEDENCE")
  }

  lemma ChoiceMembers(facts: seq<Fact>, p: Policies, k: string, d: Diagnostic)
    ensures d in ChoiceDiags(PolicyFor(p, k), Valid(facts, p, k)) <==>
            exists f ::
              f in Valid(facts, p, k) && Contends(f, Valid(facts, p, k), PolicyFor(p, k).conflict) &&
              !SameValue(ResolvedEntry(facts, p, k).value, f.value) &&
              d == AboutFact(f, if PolicyFor(p, k).conflict.RejectConflict? then "CONFIG_CONFLICT"
                                else "CONFIG_AMBIGUOUS_PRECEDENCE")
  {
    var valid := Valid(facts, p, k);
    if valid != [] {
      var r := Sorted(valid);
      var run := r[..RunLength(r, r[0].precedence)];
      SortedMembers(valid);
      TopOfSorted(valid);
      DisagreementMembers(r[0].value, r, "CONFIG_CONFLICT", d);
      DisagreementMembers(r[0].value, run, AMBIGUOUS, d);
    }
  }

  lemma ViolationReported(facts: seq<Fact>, p: Policies, f: Fact, rule: Violation)
    requires f in facts && Admitted(f) && Breaks(PolicyFor(p, f.key), f.value, rule)
    ensures AboutFact(f, ResolverCode(rule)) in CandidateDiags(PolicyFor(p, f.key), Group(facts, p, f.key))
  {
    var policy, e, d := PolicyFor(p, f.key), Effective(f, p), AboutFact(f, ResolverCode(rule));
    GroupMembers(facts, p, f.key);
    FactDiagsMean(policy, e, d);
    assert d == AboutFact(e, ResolverCode(rule));
    CandidateMembers(policy, Group(facts, p, f.key), d);
  }

  lemma CandidateViolates(facts: seq<Fact>, p: Policies, k: string, e: Fact, rule: Violation)
    requires e in Group(facts, p, k) && Breaks(PolicyFor(p, k), e.value, rule)
    ensures TellsViolation(facts, p, AboutFact(e, ResolverCode(rule)))
  {
    GroupMembers(facts, p, k);
    var f :| f in facts && Admitted(f) && f.key == k && e == Effective(f, p);
    assert AboutFact(e, ResolverCode(rule)) == AboutFact(f, ResolverCode(rule));
    assert Breaks(PolicyFor(p, f.key), f.value, rule);
  }

  lemma ReportedIsViolation(facts: seq<Fact>, p: Policies, k: string, d: Diagnostic)
    requires d in CandidateDiags(PolicyFor(p, k), Group(facts, p, k))
    ensures TellsViolation(facts, p, d)
  {
    CandidateMembers(PolicyFor(p, k), Group(facts, p, k), d);
    var e :| e in Group(facts, p, k) && d in FactDiags(PolicyFor(p, k), e);
    FactDiagsMean(PolicyFor(p, k), e, d);
    var rule :| Breaks(PolicyFor(p, k), e.value, rule) && d == AboutFact(e, ResolverCode(rule));
    CandidateViolates(facts, p, k, e, rule);
  }

  lemma UngroupedSaysNothing(facts: seq<Fact>, p: Policies, k: string)
    requires k !in GroupedKeys(facts)
    ensures KeyDiags(facts, p, k) == []
  {
    UngroupedIsEmpty(facts, p, k);
  }

  lemma KeyReportsOnly(facts: seq<Fact>, p: Policies, d: Diagnostic)
    requires d in AllKeyDiags(facts, p, SortedKeys(GroupedKeys(facts)))
    ensures TellsViolation(facts, p, d) || TellsConflict(facts, p, d)
  {
    var k := ReportedOfKey(facts, p, SortedKeys(GroupedKeys(facts)), d);
    if d in CandidateDiags(PolicyFor(p, k), Group(facts, p, k)) {
      ReportedIsViolation(facts, p, k, d);
    } else {
      ChoiceMembers(facts, p, k, d);
    }
  }

  lemma KeyReportsAll(facts: seq<Fact>, p: Policies, k: string, d: Diagnostic)
    requires d in KeyDiags(facts, p, k)
    ensures d in AllKeyDiags(facts, p, SortedKeys(GroupedKeys(facts)))
  {
    SortedKeysExact(GroupedKeys(facts));
    if k !in GroupedKeys(facts) { UngroupedSaysNothing(facts, p, k); }
    KeyReported(facts, p, SortedKeys(GroupedKeys(facts)), k);
  }

  lemma KeyReports(facts: seq<Fact>, p: Policies, d: Diagnostic)
    ensures d in AllKeyDiags(facts, p, SortedKeys(GroupedKeys(facts))) <==>
            TellsViolation(facts, p, d) || TellsConflict(facts, p, d)
  {
    if d in AllKeyDiags(facts, p, SortedKeys(GroupedKeys(facts))) { KeyReportsOnly(facts, p, d); }
    if TellsViolation(facts, p, d) {
      var f, rule :| f in facts && At(f, f.key) && ValidDotted(f.key) &&
                     Breaks(PolicyFor(p, f.key), f.value, rule) && d == AboutFact(f, ResolverCode(rule));
      ViolationReported(facts, p, f, rule);
      KeyReportsAll(facts, p, f.key, d);
    }
    if TellsConflict(facts, p, d) {
      var k, f :| f in Valid(facts, p, k) && Contends(f, Valid(facts, p, k), PolicyFor(p, k).conflict) &&
                  !SameValue(ResolvedEntry(facts, p, k).value, f.value) &&
                  d == AboutFact(f, if PolicyFor(p, k).conflict.RejectConflict? then "CONFIG_CONFLICT"
                                    else "CONFIG_AMBIGUOUS_PRECEDENCE");
      ChoiceMembers(facts, p, k, d);
      KeyReportsAll(facts, p, k, d);
    }
  }

  lemma MissingReports(facts: seq<Fact>, p: Policies, d: Diagnostic)
    ensures d in MissingDiags(p, GroupedKeys(facts), SortedKeys(p.keys.Keys)) <==> TellsMissing(facts, p, d)
  {
    SortedKeysExact(p.keys.Keys);
    MissingMembers(p, GroupedKeys(facts), SortedKeys(p.keys.Keys), d);
    forall k ensures k in GroupedKeys(facts) <==> exists f :: f in facts && At(f, k) && ValidDotted(f.key) {}
  }

  /** A resolution's diagnostics are these and no others: ill-formed keys, missing required
      keys, broken rules, and conflicts. */
  lemma ResolutionReports(facts: seq<Fact>, p: Policies, d: Diagnostic)
    ensures d in Resolve(facts, p).diagnostics <==>
            TellsInvalidKey(facts, d) || TellsMissing(facts, p, d) ||
            TellsViolation(facts, p, d) || TellsConflict(facts, p, d)
  {
    IntakeMembers(facts, d);
    MissingReports(facts, p, d);
    KeyReports(facts, p, d);
  }

  /** Ill-formed keys come first, then missing ones, then what is said of the keys' facts. */
  function Phase(d: Diagnostic): nat {
    if d.code == "CONFIG_INVALID_KEY" then 0 else if d.code == "CONFIG_REQUIRED_MISSING" then 1 else 2
  }

  lemma PhaseOfCodes(rule: Violation)
    ensures |ResolverCode(rule)| != |"CONFIG_INVALID_KEY"| && |ResolverCode(rule)| != |"CONFIG_REQUIRED_MISSING"|
    ensures |"CONFIG_CONFLICT"| < |"CONFIG_INVALID_KEY"| < |"CONFIG_REQUIRED_MISSING"| < |"CONFIG_AMBIGUOUS_PRECEDENCE"|
  {}

  lemma PhaseOfKeys(facts: seq<Fact>, p: Policies, d: Diagnostic)
    requires TellsViolation(facts, p, d) || TellsConflict(facts, p, d)
    ensures Phase(d) == 2
  {
    forall rule ensures |ResolverCode(rule)| != |"CONFIG_INVALID_KEY"|
                ensures |ResolverCode(rule)| != |"CONFIG_REQUIRED_MISSING"| { PhaseOfCodes(rule); }
    PhaseOfCodes(WrongType);
  }

  lemma PhasesOfConcat(a: seq<Diagnostic>, b: seq<Diagnostic>, c: seq<Diagnostic>, i: nat, j: nat)
    requires i < j < |a + b + c|
    requires (forall d :: d in a ==> Phase(d) == 0) && (forall d :: d in b ==> Phase(d) == 1)
    requires forall d :: d in c ==> Phase(d) == 2
    ensures Phase((a + b + c)[i]) <= Phase((a + b + c)[j])
  {}

  lemma DiagnosticsInOrder(facts: seq<Fact>, p: Policies, i: nat, j: nat)
    requires i < j < |Resolve(facts, p).diagnostics|
    ensures Phase(Resolve(facts, p).diagnostics[i]) <= Phase(Resolve(facts, p).diagnostics[j])
  {
    var intake := IntakeDiags(facts);
    var missing := MissingDiags(p, GroupedKeys(facts), SortedKeys(p.keys.Keys));
    var keys := AllKeyDiags(facts, p, SortedKeys(GroupedKeys(facts)));
    forall d | d in intake ensures Phase(d) == 0 { IntakeMembers(facts, d); }
    forall d | d in missing ensures Phase(d) == 1 { MissingReports(facts, p, d); }
    forall d | d in keys ensures Phase(d) == 2 { KeyReports(facts, p, d); PhaseOfKeys(facts, p, d); }
    var all := intake + missing + keys;
    assert all == Resolve(facts, p).diagnostics;
    PhasesOfConcat(intake, missing, keys, i, j);
  }

  // ---- a transaction ----

  function AboutKey(key: string, code: string): Diagnostic {
    Diagnostic(Error, code, key, Source(Runtime, "transaction"))
  }

  /** Does the operation need the key to be mutable? */
  predicate Mutates(g: Governance, op: Op) {
    op.SetOp? || op.EraseOp? || (op.ResetDefaultOp? && op.key in g.defaults)
  }

  predicate Resets(op: Op) { op.ResetBaseOp? || op.ResetDefaultOp? }

  /** The value that the operation would give its key. */
  function Gives(g: Governance, op: Op): Option<Value> {
    match op
    case SetOp(_, v) => Some(v)
    case ResetDefaultOp(k) => if k in g.defaults then Some(g.defaults[k].value) else None
    case _ => None
  }

  ghost predicate OpTells(g: Governance, op: Op, d: Diagnostic) {
    (Mutates(g, op) && op.key in g.access && !g.access[op.key].runtimeMutable &&
     d == AboutKey(op.key, "CONFIG_STORE_MUTATION_DENIED")) ||
    (Resets(op) && op.key in g.access && !g.access[op.key].resettable &&
     d == AboutKey(op.key, "CONFIG_STORE_RESET_DENIED")) ||
    (op.ResetDefaultOp? && op.key !in g.defaults && d == AboutKey(op.key, "CONFIG_STORE_DEFAULT_MISSING")) ||
    (Gives(g, op).Some? && op.key in g.policies.keys &&
     exists rule :: Breaks(g.policies.keys[op.key], Gives(g, op).value, rule) && d == AboutKey(op.key, StoreCode(rule)))
  }

  lemma PolicyDiagsMean(policy: KeyPolicy, key: string, v: Value, d: Diagnostic)
    ensures d in PolicyDiags(Some(policy), key, v) <==>
            exists rule :: Breaks(policy, v, rule) && d == AboutKey(key, StoreCode(rule))
  {
    if d in PolicyDiags(Some(policy), key, v) {
      assert (Breaks(policy, v, WrongType) && d == AboutKey(key, StoreCode(WrongType))) ||
             (Breaks(policy, v, NotAllowed) && d == AboutKey(key, StoreCode(NotAllowed))) ||
             (Breaks(policy, v, TooSmall) && d == AboutKey(key, StoreCode(TooSmall))) ||
             (Breaks(policy, v, TooLarge) && d == AboutKey(key, StoreCode(TooLarge)));
    }
  }

  /** One staged operation is refused for these reasons and no others. */
  lemma OpReports(g: Governance, op: Op, d: Diagnostic)
    ensures d in OpDiags(g, op) <==> OpTells(g, op, d)
  {
    if Gives(g, op).Some? && op.key in g.policies.keys {
      PolicyDiagsMean(g.policies.keys[op.key], op.key, Gives(g, op).value, d);
    }
  }

  lemma {:induction false} OpReported(g: Governance, ops: seq<Op>, op: Op)
    requires op in ops
    ensures forall d :: d in OpDiags(g, op) ==> d in AllOpDiags(g, ops)
  {
    var front, last := ops[..|ops| - 1], ops[|ops| - 1];
    assert ops == front + [last];
    AllOpStep(g, front, last);
    if op in front { OpReported(g, front, op); }
  }

  lemma {:induction false} NothingReported(g: Governance, ops: seq<Op>, d: Diagnostic)
    requires forall op :: op in ops ==> d !in OpDiags(g, op)
    ensures d !in AllOpDiags(g, ops)
  {
    if ops != [] {
      var front, last := ops[..|ops| - 1], ops[|ops| - 1];
      assert ops == front + [last];
      NothingReported(g, front, d);
      AllOpStep(g, front, last);
      assert last in ops;
    }
  }

  /** Some staged operation is refused. */
  ghost predicate TransactionTells(g: Governance, s: Staged, d: Diagnostic) {
    exists op: Op :: StagedAt(s, op.key) == Some(op) && OpTells(g, op, d)
  }

  lemma StagedOpReported(g: Governance, s: Staged, op: Op, d: Diagnostic)
    requires s.Apart() && StagedAt(s, op.key) == Some(op) && OpTells(g, op, d)
    ensures d in AllOpDiags(g, OpsOf(s))
  {
    OpsOfMembers(s, op);
    OpReports(g, op, d);
    OpReported(g, OpsOf(s), op);
  }

  lemma ReportedOfStagedOp(g: Governance, s: Staged, d: Diagnostic) returns (op: Op)
    requires s.Apart() && d in AllOpDiags(g, OpsOf(s))
    ensures StagedAt(s, op.key) == Some(op) && OpTells(g, op, d)
  {
    if forall op :: op in OpsOf(s) ==> d !in OpDiags(g, op) { NothingReported(g, OpsOf(s), d); }
    op :| op in OpsOf(s) && d in OpDiags(g, op);
    OpsOfMembers(s, op);
    OpReports(g, op, d);
  }

  /** A validation's diagnostics are those of the operations that the transaction holds. */
  lemma TransactionReports(g: Governance, s: Staged, d: Diagnostic)
    requires s.Apart()
    ensures d in AllOpDiags(g, OpsOf(s)) <==> TransactionTells(g, s, d)
  {
    if d in AllOpDiags(g, OpsOf(s)) { var op := ReportedOfStagedOp(g, s, d); }
    if TransactionTells(g, s, d) {
      var op: Op :| StagedAt(s, op.key) == Some(op) && OpTells(g, op, d);
      StagedOpReported(g, s, op, d);
    }
  }
}
