/** Resolution policy: source precedence and per-key rules. */
module Policy {
  import opened Wrappers
  import opened Values
  import opened Sources

  datatype MissingPolicy = Optional | Required
  datatype ConflictPolicy = HighestPrecedenceWins | RejectConflict | FirstWins | LastWins

  datatype KeyPolicy = KeyPolicy(
    key: string,
    expected: Option<ValueType>,
    missing: MissingPolicy,
    conflict: ConflictPolicy,
    allowed: set<string>,
    min: Option<int64>,
    max: Option<int64>)

  function ImplicitPolicy(key: string): KeyPolicy {
    KeyPolicy(key, None, Optional, HighestPrecedenceWins, {}, None, None)
  }

  /** The value a PolicySet holds; stores and loaders keep copies of it. */
  datatype Policies = Policies(precedence: map<SourceKind, int>, keys: map<string, KeyPolicy>)

  function PrecedenceFor(p: Policies, kind: SourceKind): int {
    if kind in p.precedence then p.precedence[kind] else 0
  }

  function FindKeyPolicy(p: Policies, key: string): Option<KeyPolicy> {
    if key in p.keys then Some(p.keys[key]) else None
  }

  function ExpectedTypeFor(p: Policies, key: string): Option<ValueType> {
    if key in p.keys then p.keys[key].expected else None
  }

  /** The policy the resolver applies: the key's own or the implicit one. */
  function PolicyFor(p: Policies, key: string): KeyPolicy {
    if key in p.keys then p.keys[key] else ImplicitPolicy(key)
  }

  /** What it means for a value to satisfy a key's policy. */
  predicate Meets(policy: KeyPolicy, v: Value) {
    (policy.expected.Some? ==> v.Type() == policy.expected.value) &&
    (policy.allowed != {} && v.Str? ==> v.s in policy.allowed) &&
    (v.Int? && policy.min.Some? ==> policy.min.value <= v.n) &&
    (v.Int? && policy.max.Some? ==> v.n <= policy.max.value)
  }

  const INITIAL_PRECEDENCE: map<SourceKind, int> :=
    map[InternalDefault := 10, File := 30, Environment := 50, CLI := 60, Runtime := 70, Unknown := 0]

  class PolicySet {
    var precedence: map<SourceKind, int>
    var keyPolicies: map<string, KeyPolicy>

    function Value(): Policies
      reads this
    {
      Policies(precedence, keyPolicies)
    }

    constructor ()
      ensures Value() == Policies(INITIAL_PRECEDENCE, map[])
      ensures precedence == map[InternalDefault := 10, File := 30, Environment := 50,
                                CLI := 60, Runtime := 70, Unknown := 0]
    {
      precedence := map[];
      keyPolicies := map[];
      new;
      SetPrecedence(InternalDefault, 10);
      SetPrecedence(File, 30);
      SetPrecedence(Environment, 50);
      SetPrecedence(CLI, 60);
      SetPrecedence(Runtime, 70);
      SetPrecedence(Unknown, 0);
    }

    method SetPrecedence(kind: SourceKind, value: int)
      modifies this`precedence
      ensures precedence == old(precedence)[kind := value]
    {
      precedence := precedence[kind := value];
    }

    // PolicySet::key: the key's policy, created with defaults when there is none.
    method Key(key: string) returns (kp: KeyPolicy)
      modifies this`keyPolicies
      ensures kp == PolicyFor(old(Value()), key)
      ensures keyPolicies == old(keyPolicies)[key := kp]
    {
      if key !in keyPolicies { keyPolicies := keyPolicies[key := ImplicitPolicy(key)]; }
      kp := keyPolicies[key];
    }

    method Require(key: string, ty: ValueType)
      modifies this`keyPolicies
      ensures keyPolicies == old(keyPolicies)[key :=
        PolicyFor(old(Value()), key).(expected := Some(ty), missing := Required)]
    {
      var kp := Key(key);
      keyPolicies := keyPolicies[key := kp.(expected := Some(ty), missing := Required)];
    }

    method MakeOptional(key: string, ty: ValueType)
      modifies this`keyPolicies
      ensures keyPolicies == old(keyPolicies)[key :=
        PolicyFor(old(Value()), key).(expected := Some(ty), missing := Optional)]
    {
      var kp := Key(key);
      keyPolicies := keyPolicies[key := kp.(expected := Some(ty), missing := Optional)];
    }

    method AllowedStrings(key: string, values: seq<string>)
      modifies this`keyPolicies
      ensures keyPolicies == old(keyPolicies)[key :=
        PolicyFor(old(Value()), key).(allowed := set v | v in values)]
    {
      var kp := Key(key);
      var allowed := {};
      for i := 0 to |values|
        invariant allowed == set v | v in values[..i]
      {
        allowed := allowed + {values[i]};
      }
      assert values[..|values|] == values;
      keyPolicies := keyPolicies[key := kp.(allowed := allowed)];
    }

    method IntRange(key: string, min: int64, max: int64)
      modifies this`keyPolicies
      ensures keyPolicies == old(keyPolicies)[key :=
        PolicyFor(old(Value()), key).(min := Some(min), max := Some(max))]
    {
      var kp := Key(key);
      keyPolicies := keyPolicies[key := kp.(min := Some(min), max := Some(max))];
    }

    method Conflict(key: string, conflict: ConflictPolicy)
      modifies this`keyPolicies
      ensures keyPolicies == old(keyPolicies)[key :=
        PolicyFor(old(Value()), key).(conflict := conflict)]
    {
      var kp := Key(key);
      keyPolicies := keyPolicies[key := kp.(conflict := conflict)];
    }
  }
}
