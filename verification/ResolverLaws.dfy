/** What resolution promises: when it is ok, who wins, and what cannot matter. */
module ResolverLaws {
  import opened Values
  import opened Diagnostics
  import opened Sources
  import opened Facts
  import opened Policy
  import opened Keys
  import opened Parsing
  import opened Ordering
  import opened Resolver

  // ---- the winner ----

  predicate Ordered(s: seq<Fact>) { forall i, j :: 0 <= i < j < |s| ==> !Before(s[j], s[i]) }

  lemma {:induction false} InsertOrdered(f: Fact, s: seq<Fact>)
    requires Ordered(s)
    ensures Ordered(Insert(f, s))
  {
    if s != [] && !Before(f, s[0]) {
      InsertOrdered(f, s[1..]);
      InsertMembers(f, s[1..]);
      var r := Insert(f, s[1..]);
      forall j | 0 < j < |r| + 1 ensures !Before(([s[0]] + r)[j], s[0]) {
        assert r[j - 1] in r;
      }
    } else if s != [] {
      forall j | 0 <= j < |s| ensures !Before(s[j], f) {
        assert j > 0 ==> !Before(s[j], s[0]);
      }
    }
  }

  lemma {:induction false} SortedOrdered(s: seq<Fact>)
    ensures Ordered(Sorted(s))
  {
    if s != [] {
      SortedOrdered(s[1..]);
      InsertOrdered(s[0], Sorted(s[1..]));
    }
  }

  /** Different facts carry different stamps. */
  predicate Unique(s: seq<Fact>) { forall f, g :: f in s && g in s && f.order == g.order ==> f == g }

  predicate Beats(f: Fact, g: Fact, conflict: ConflictPolicy) {
    match conflict
    case FirstWins => f.order < g.order
    case LastWins => f.order > g.order
    case _ => Before(f, g)
  }

  /** The candidate that beats every other one: the maximum by precedence then
      insertion, or the first or the last inserted. */
  predicate IsWinner(w: Fact, s: seq<Fact>, conflict: ConflictPolicy) {
    w in s && forall g :: g in s && g != w ==> Beats(w, g, conflict)
  }

  lemma WinnerIsUnique(s: seq<Fact>, conflict: ConflictPolicy, f: Fact, g: Fact)
    requires IsWinner(f, s, conflict) && IsWinner(g, s, conflict)
    ensures f == g
  {}

  lemma ChooseIsWinner(s: seq<Fact>, conflict: ConflictPolicy)
    requires s != [] && Unique(s)
    ensures IsWinner(Choose(s, conflict), s, conflict)
  {
    ChooseIn(s, conflict);
    SortedMembers(s);
    EarliestLatestIn(Sorted(s));
    SortedOrdered(s);
    var w := Choose(s, conflict);
    forall g | g in s && g != w ensures Beats(w, g, conflict) {
      var j :| 0 <= j < |s| && Sorted(s)[j] == g;
      assert j > 0 ==> !Before(Sorted(s)[j], Sorted(s)[0]);
    }
  }

  predicate Increasing(s: seq<Fact>) { forall i, j :: 0 <= i < j < |s| ==> s[i].order < s[j].order }

  lemma IncreasingUnique(s: seq<Fact>)
    requires Increasing(s)
    ensures Unique(s)
  {}

  lemma {:induction false} GroupIncreasing(facts: seq<Fact>, p: Policies, key: string)
    requires Stamped(facts)
    ensures Increasing(Group(facts, p, key))
    ensures forall f :: f in Group(facts, p, key) ==> f.order < |facts|
  {
    if facts != [] { GroupIncreasing(facts[..|facts| - 1], p, key); }
  }

  lemma {:induction false} ConformingIncreasing(policy: KeyPolicy, s: seq<Fact>)
    requires Increasing(s)
    ensures Increasing(Conforming(policy, s))
  {
    if s != [] {
      var front := s[..|s| - 1];
      ConformingIncreasing(policy, front);
      ConformingMembers(policy, front);
      var c := Conforming(policy, front);
      forall i | 0 <= i < |c| ensures c[i].order < s[|s| - 1].order {
        assert c[i] in front;
      }
    }
  }

  lemma ValidIncreasing(facts: seq<Fact>, p: Policies, key: string)
    requires Stamped(facts)
    ensures Increasing(Valid(facts, p, key)) && Unique(Valid(facts, p, key))
  {
    GroupIncreasing(facts, p, key);
    ConformingIncreasing(PolicyFor(p, key), Group(facts, p, key));
    IncreasingUnique(Valid(facts, p, key));
  }

  lemma ConfigKeys(facts: seq<Fact>, p: Policies)
    ensures forall k :: k in Resolve(facts, p).config <==> Valid(facts, p, k) != []
    ensures forall k :: k in Resolve(facts, p).config ==>
              Resolve(facts, p).config[k] == ResolvedEntry(facts, p, k)
  {
    SortedKeysExact(GroupedKeys(facts));
    forall k | Valid(facts, p, k) != [] ensures k in GroupedKeys(facts) {
      ChosenKey(facts, p, k);
      if k !in GroupedKeys(facts) { UngroupedIsEmpty(facts, p, k); }
    }
  }

  /** What resolution decides at a key: nothing, or a value and its source. */
  datatype Ruling = NoValue | Ruling(value: Value, source: Source)

  function RulingAt(facts: seq<Fact>, p: Policies, key: string): Ruling {
    if Valid(facts, p, key) == [] then NoValue
    else var e := ResolvedEntry(facts, p, key); Ruling(e.value, e.source)
  }

  /** The resolved configuration shows the rulings, each with its candidates. */
  lemma ConfigShowsRulings(facts: seq<Fact>, p: Policies, key: string)
    ensures key in Resolve(facts, p).config <==> RulingAt(facts, p, key).Ruling?
    ensures key in Resolve(facts, p).config ==>
              var ruling := RulingAt(facts, p, key);
              Resolve(facts, p).config[key] == Entry(key, ruling.value, ruling.source, Valid(facts, p, key))
  {
    ConfigKeys(facts, p);
    if Valid(facts, p, key) != [] { ChosenKey(facts, p, key); }
  }

  /** A ruling is that of the unique winner among the candidates, which are listed in
      insertion order. */
  lemma RulingIsWinners(facts: seq<Fact>, p: Policies, key: string) returns (w: Fact)
    requires Stamped(facts) && RulingAt(facts, p, key).Ruling?
    ensures RulingAt(facts, p, key) == Ruling(w.value, w.source)
    ensures IsWinner(w, Valid(facts, p, key), PolicyFor(p, key).conflict)
    ensures Increasing(Valid(facts, p, key))
  {
    ValidIncreasing(facts, p, key);
    ChooseIsWinner(Valid(facts, p, key), PolicyFor(p, key).conflict);
    w := Choose(Valid(facts, p, key), PolicyFor(p, key).conflict);
  }

  /** The candidates are the key's conforming application facts at their effective precedence. */
  lemma CandidatesExactly(facts: seq<Fact>, p: Policies, key: string, f: Fact)
    ensures f in Valid(facts, p, key) <==>
            exists g :: g in facts && Admitted(g) && g.key == key && f == Effective(g, p) &&
                        Meets(PolicyFor(p, key), g.value)
  {
    ConformingMembers(PolicyFor(p, key), Group(facts, p, key));
    GroupMembers(facts, p, key);
  }

  // ---- when a result is ok ----

  /** Two values agree exactly when they are the same, doubles when they print alike: an
      integer never agrees with the string that it prints as. */
  lemma SameValueExactly(a: Value, b: Value)
    ensures SameValue(a, b) <==> if a.Double? && b.Double? then a.d.text == b.d.text else a == b
  {
    if a.Int? && b.Int? && a.ToText() == b.ToText() { IntTextInjective(a.n, b.n); }
  }

  lemma {:induction false} DisagreementsNone(first: Value, s: seq<Fact>, code: string)
    ensures Disagreements(first, s, code) == [] <==> forall f :: f in s ==> SameValue(first, f.value)
  {
    if s != [] {
      DisagreementsNone(first, s[..|s| - 1], code);
      assert s == s[..|s| - 1] + [s[|s| - 1]];
    }
  }

  lemma {:induction false} DisagreementsAreErrors(first: Value, s: seq<Fact>, code: string)
    ensures AllErrors(Disagreements(first, s, code))
  {
    if s != [] { DisagreementsAreErrors(first, s[..|s| - 1], code); }
  }

  predicate IsTop(f: Fact, s: seq<Fact>) { forall h :: h in s ==> h.precedence <= f.precedence }

  /** Does this candidate compete? All do under RejectConflict, those of top precedence
      do under HighestPrecedenceWins, none does otherwise. */
  predicate Contends(f: Fact, s: seq<Fact>, conflict: ConflictPolicy) {
    match conflict
    case RejectConflict => true
    case HighestPrecedenceWins => IsTop(f, s)
    case _ => false
  }

  predicate Agree(s: seq<Fact>, conflict: ConflictPolicy) {
    forall f, g :: f in s && g in s && Contends(f, s, conflict) && Contends(g, s, conflict)
                   ==> SameValue(f.value, g.value)
  }

  lemma {:induction false} RunOfTop(s: seq<Fact>, precedence: int)
    requires forall i, j :: 0 <= i < j < |s| ==> s[i].precedence >= s[j].precedence
    requires forall i :: 0 <= i < |s| ==> s[i].precedence <= precedence
    ensures forall i :: 0 <= i < |s| ==> (s[i].precedence == precedence <==> i < RunLength(s, precedence))
  {
    if s != [] {
      RunOfTop(s[1..], precedence);
      forall i | 0 < i < |s| ensures s[i].precedence == precedence <==> i < RunLength(s, precedence) {
        assert s[i] == s[1..][i - 1];
      }
    }
  }

  lemma TopOfSorted(s: seq<Fact>)
    requires s != []
    ensures forall f :: f in s && IsTop(f, s) <==>
              f in Sorted(s)[..RunLength(Sorted(s), Sorted(s)[0].precedence)]
    ensures Sorted(s)[0] in s && IsTop(Sorted(s)[0], s)
  {
    var r := Sorted(s);
    SortedOrdered(s);
    SortedMembers(s);
    assert forall i, j :: 0 <= i < j < |r| ==> !Before(r[j], r[i]);
    RunOfTop(r, r[0].precedence);
    assert r[0] in r;
    forall f | f in s ensures f.precedence <= r[0].precedence {
      var j :| 0 <= j < |r| && r[j] == f;
    }
  }

  lemma ConflictDiagsNone(s: seq<Fact>, conflict: ConflictPolicy)
    requires s != []
    ensures ConflictDiags(Sorted(s), conflict) == [] <==> Agree(s, conflict)
    ensures AllErrors(ConflictDiags(Sorted(s), conflict))
  {
    var r := Sorted(s);
    SortedMembers(s);
    TopOfSorted(s);
    var run := r[..RunLength(r, r[0].precedence)];
    DisagreementsNone(r[0].value, r, "CONFIG_CONFLICT");
    DisagreementsNone(r[0].value, run, AMBIGUOUS);
    DisagreementsAreErrors(r[0].value, r, "CONFIG_CONFLICT");
    DisagreementsAreErrors(r[0].value, run, AMBIGUOUS);
    assert r[0] in r;
  }

  lemma {:induction false} CandidateDiagsNone(policy: KeyPolicy, s: seq<Fact>)
    ensures CandidateDiags(policy, s) == [] <==> forall f :: f in s ==> Meets(policy, f.value)
    ensures AllErrors(CandidateDiags(policy, s))
  {
    if s != [] {
      CandidateDiagsNone(policy, s[..|s| - 1]);
      FactDiagsExact(policy, s[|s| - 1]);
      assert s == s[..|s| - 1] + [s[|s| - 1]];
    }
  }

  lemma {:induction false} IntakeDiagsNone(facts: seq<Fact>)
    ensures IntakeDiags(facts) == [] <==>
            forall f :: f in facts && f.role.Application? ==> ValidDotted(f.key)
    ensures AllErrors(IntakeDiags(facts))
  {
    if facts != [] {
      IntakeDiagsNone(facts[..|facts| - 1]);
      assert facts == facts[..|facts| - 1] + [facts[|facts| - 1]];
    }
  }

  lemma {:induction false} MissingDiagsNone(p: Policies, grouped: set<string>, keys: seq<string>)
    ensures MissingDiags(p, grouped, keys) == [] <==>
            forall k :: k in keys && PolicyFor(p, k).missing.Required? ==> k in grouped
    ensures AllErrors(MissingDiags(p, grouped, keys))
  {
    if keys != [] {
      MissingDiagsNone(p, grouped, keys[..|keys| - 1]);
      assert keys == keys[..|keys| - 1] + [keys[|keys| - 1]];
    }
  }

  /** Nothing to report for a key. */
  predicate KeySound(facts: seq<Fact>, p: Policies, key: string) {
    var group := Group(facts, p, key);
    (forall f :: f in group ==> Meets(PolicyFor(p, key), f.value)) &&
    Agree(Valid(facts, p, key), PolicyFor(p, key).conflict)
  }

  lemma KeyDiagsNone(facts: seq<Fact>, p: Policies, key: string)
    ensures KeyDiags(facts, p, key) == [] <==> KeySound(facts, p, key)
    ensures AllErrors(KeyDiags(facts, p, key))
  {
    var valid := Valid(facts, p, key);
    CandidateDiagsNone(PolicyFor(p, key), Group(facts, p, key));
    if valid != [] { ConflictDiagsNone(valid, PolicyFor(p, key).conflict); }
  }

  lemma {:induction false} AllKeyDiagsNone(facts: seq<Fact>, p: Policies, keys: seq<string>)
    requires forall k :: AllErrors(KeyDiags(facts, p, k))
    ensures AllKeyDiags(facts, p, keys) == [] <==> forall k :: k in keys ==> KeyDiags(facts, p, k) == []
    ensures AllErrors(AllKeyDiags(facts, p, keys))
  {
    if keys != [] {
      var front, last := keys[..|keys| - 1], keys[|keys| - 1];
      AllKeyDiagsNone(facts, p, front);
      assert keys == front + [last];
    }
  }

  predicate KeysValid(facts: seq<Fact>) {
    forall f :: f in facts && f.role.Application? ==> ValidDotted(f.key)
  }

  // The three kinds of trouble are all there is, and all of it is errors.
  lemma DiagnosticsNone(facts: seq<Fact>, p: Policies)
    ensures AllErrors(Resolve(facts, p).diagnostics)
    ensures Resolve(facts, p).diagnostics == [] <==>
            KeysValid(facts) &&
            (forall k :: k in p.keys && p.keys[k].missing.Required? ==> k in GroupedKeys(facts)) &&
            (forall k :: k in GroupedKeys(facts) ==> KeySound(facts, p, k))
  {
    forall k
      ensures KeyDiags(facts, p, k) == [] <==> KeySound(facts, p, k)
      ensures AllErrors(KeyDiags(facts, p, k))
    {
      KeyDiagsNone(facts, p, k);
    }
    var keys, required := SortedKeys(GroupedKeys(facts)), SortedKeys(p.keys.Keys);
    SortedKeysExact(GroupedKeys(facts));
    SortedKeysExact(p.keys.Keys);
    IntakeDiagsNone(facts);
    MissingDiagsNone(p, GroupedKeys(facts), required);
    AllKeyDiagsNone(facts, p, keys);
  }

  /** Resolution reports errors only: it is ok exactly when it reports nothing. */
  lemma OkMeansSilent(facts: seq<Fact>, p: Policies)
    ensures Resolve(facts, p).Ok() <==> Resolve(facts, p).diagnostics == []
  {
    DiagnosticsNone(facts, p);
    var d := Resolve(facts, p).diagnostics;
    if d != [] { assert d[0] in d; }
  }

  // The same, said of the raw facts.

  predicate At(f: Fact, key: string) { f.role.Application? && f.key == key }

  /** Every application fact for the key meets the key's policy. */
  predicate SoundAt(facts: seq<Fact>, p: Policies, key: string) {
    forall f :: f in facts && At(f, key) ==> Meets(PolicyFor(p, key), f.value)
  }

  /** Does this fact compete for its key? All do under RejectConflict, those of top
      precedence do under HighestPrecedenceWins, none does otherwise. */
  predicate Competes(facts: seq<Fact>, p: Policies, f: Fact) {
    match PolicyFor(p, f.key).conflict
    case RejectConflict => true
    case HighestPrecedenceWins =>
      forall h :: h in facts && At(h, f.key) ==> Effective(h, p).precedence <= Effective(f, p).precedence
    case _ => false
  }

  /** The facts that compete for the key show one value. */
  predicate AgreeAt(facts: seq<Fact>, p: Policies, key: string) {
    forall f, g ::
      f in facts && g in facts && At(f, key) && At(g, key) && Competes(facts, p, f) && Competes(facts, p, g)
      ==> SameValue(f.value, g.value)
  }

  predicate RequiredPresent(facts: seq<Fact>, p: Policies) {
    forall k :: k in p.keys && p.keys[k].missing.Required? ==> exists f :: f in facts && At(f, k)
  }

  lemma GroupSound(facts: seq<Fact>, p: Policies, key: string)
    requires KeysValid(facts)
    ensures (forall f :: f in Group(facts, p, key) ==> Meets(PolicyFor(p, key), f.value)) <==>
            SoundAt(facts, p, key)
  {}

  // When all is sound the candidates are the facts at their effective precedence.
  lemma ValidMembers(facts: seq<Fact>, p: Policies, key: string)
    requires KeysValid(facts) && SoundAt(facts, p, key)
    ensures forall f :: f in facts && At(f, key) ==> Effective(f, p) in Valid(facts, p, key)
    ensures forall a :: a in Valid(facts, p, key) ==>
              exists f :: f in facts && At(f, key) && a == Effective(f, p)
  {
    GroupSound(facts, p, key);
    GroupMembers(facts, p, key);
    ConformingMembers(PolicyFor(p, key), Group(facts, p, key));
  }

  lemma CompetesIsContends(facts: seq<Fact>, p: Policies, f: Fact)
    requires f in facts && f.role.Application?
    requires KeysValid(facts) && SoundAt(facts, p, f.key)
    ensures Competes(facts, p, f) <==>
            Contends(Effective(f, p), Valid(facts, p, f.key), PolicyFor(p, f.key).conflict)
  {
    ValidMembers(facts, p, f.key);
  }

  lemma AgreeIsAgreeAt(facts: seq<Fact>, p: Policies, key: string)
    requires KeysValid(facts) && SoundAt(facts, p, key)
    ensures Agree(Valid(facts, p, key), PolicyFor(p, key).conflict) <==> AgreeAt(facts, p, key)
  {
    var valid, conflict := Valid(facts, p, key), PolicyFor(p, key).conflict;
    ValidMembers(facts, p, key);
    forall f | f in facts && At(f, key)
      ensures Competes(facts, p, f) <==> Contends(Effective(f, p), valid, conflict)
      ensures Effective(f, p).value == f.value
    {
      CompetesIsContends(facts, p, f);
    }
    if AgreeAt(facts, p, key) {
      forall a, b | a in valid && b in valid && Contends(a, valid, conflict) && Contends(b, valid, conflict)
        ensures SameValue(a.value, b.value)
      {
        var f :| f in facts && At(f, key) && a == Effective(f, p);
        var g :| g in facts && At(g, key) && b == Effective(g, p);
      }
    }
    if Agree(valid, conflict) {
      forall f, g | f in facts && g in facts && At(f, key) && At(g, key) &&
                    Competes(facts, p, f) && Competes(facts, p, g)
        ensures SameValue(f.value, g.value)
      {
        assert Effective(f, p) in valid && Effective(g, p) in valid;
      }
    }
  }

  lemma KeySoundExactly(facts: seq<Fact>, p: Policies, key: string)
    requires KeysValid(facts)
    ensures KeySound(facts, p, key) <==> SoundAt(facts, p, key) && AgreeAt(facts, p, key)
  {
    GroupSound(facts, p, key);
    if SoundAt(facts, p, key) { AgreeIsAgreeAt(facts, p, key); }
  }

  lemma NothingAt(facts: seq<Fact>, key: string)
    requires KeysValid(facts) && key !in GroupedKeys(facts)
    ensures forall f :: f in facts ==> !At(f, key)
  {}

  lemma GroupedExactly(facts: seq<Fact>)
    requires KeysValid(facts)
    ensures forall k :: k in GroupedKeys(facts) <==> exists f :: f in facts && At(f, k)
  {}

  /** Resolution is ok exactly when every application fact has a valid key and meets
      its key's policy, every required key has one, and the facts that compete agree. */
  lemma OkExactly(facts: seq<Fact>, p: Policies)
    ensures Resolve(facts, p).Ok() <==>
            KeysValid(facts) && RequiredPresent(facts, p) &&
            forall k :: SoundAt(facts, p, k) && AgreeAt(facts, p, k)
  {
    OkMeansSilent(facts, p);
    DiagnosticsNone(facts, p);
    if KeysValid(facts) {
      forall k ensures KeySound(facts, p, k) <==> SoundAt(facts, p, k) && AgreeAt(facts, p, k) {
        KeySoundExactly(facts, p, k);
      }
      forall k | k !in GroupedKeys(facts) ensures SoundAt(facts, p, k) && AgreeAt(facts, p, k) {
        NothingAt(facts, k);
      }
      GroupedExactly(facts);
    }
  }

  /** An ok configuration holds exactly the application facts' keys, every required key among them. */
  lemma OkConfigKeys(facts: seq<Fact>, p: Policies)
    requires Resolve(facts, p).Ok()
    ensures forall k :: k in Resolve(facts, p).config <==> exists f :: f in facts && At(f, k)
    ensures forall k :: k in p.keys && p.keys[k].missing.Required? ==> k in Resolve(facts, p).config
  {
    OkExactly(facts, p);
    ConfigKeys(facts, p);
    forall k ensures Valid(facts, p, k) != [] <==> exists f :: f in facts && At(f, k) {
      ValidMembers(facts, p, k);
      if Valid(facts, p, k) != [] { assert Valid(facts, p, k)[0] in Valid(facts, p, k); }
    }
  }
}
