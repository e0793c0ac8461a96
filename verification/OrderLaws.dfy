/** Where insertion order decides what is ruled, and where it cannot. */
module OrderLaws {
  import opened Values
  import opened Sources
  import opened Facts
  import opened Policy
  import Keys
  import opened Resolver
  import opened ResolverLaws

  // ---- any order, any repetition ----

  function ClaimSet(facts: seq<Fact>): set<Fact> { set f | f in facts :: Claim(f) }

  predicate ByPrecedence(conflict: ConflictPolicy) { conflict.HighestPrecedenceWins? || conflict.RejectConflict? }

  lemma Counterpart(a: seq<Fact>, b: seq<Fact>, f: Fact) returns (g: Fact)
    requires ClaimSet(a) == ClaimSet(b) && f in a
    ensures g in b && Claim(g) == Claim(f)
  {
    assert Claim(f) in ClaimSet(b);
    g :| g in b && Claim(g) == Claim(f);
  }

  lemma SameClaim(f: Fact, g: Fact, p: Policies, key: string)
    requires Claim(f) == Claim(g)
    ensures At(f, key) == At(g, key) && Admitted(f) == Admitted(g) && f.key == g.key && f.value == g.value
    ensures Effective(f, p).precedence == Effective(g, p).precedence
    ensures Claim(Effective(f, p)) == Claim(Effective(g, p))
  {}

  lemma CompetesCarries(a: seq<Fact>, b: seq<Fact>, p: Policies, f: Fact, g: Fact)
    requires ClaimSet(a) == ClaimSet(b) && Claim(f) == Claim(g)
    requires Competes(a, p, f)
    ensures Competes(b, p, g)
  {
    SameClaim(f, g, p, f.key);
    forall h | h in b && At(h, g.key) && PolicyFor(p, g.key).conflict.HighestPrecedenceWins?
      ensures Effective(h, p).precedence <= Effective(g, p).precedence
    {
      var h' := Counterpart(b, a, h);
      SameClaim(h', h, p, f.key);
    }
  }

  lemma SoundCarries(a: seq<Fact>, b: seq<Fact>, p: Policies, key: string)
    requires ClaimSet(a) == ClaimSet(b) && SoundAt(a, p, key) && AgreeAt(a, p, key)
    ensures SoundAt(b, p, key) && AgreeAt(b, p, key)
  {
    forall g | g in b && At(g, key) ensures Meets(PolicyFor(p, key), g.value) {
      var f := Counterpart(b, a, g);
      SameClaim(f, g, p, key);
    }
    forall f, g | f in b && g in b && At(f, key) && At(g, key) && Competes(b, p, f) && Competes(b, p, g)
      ensures SameValue(f.value, g.value)
    {
      var f' := Counterpart(b, a, f);
      var g' := Counterpart(b, a, g);
      SameClaim(f', f, p, key);
      SameClaim(g', g, p, key);
      CompetesCarries(b, a, p, f, f');
      CompetesCarries(b, a, p, g, g');
    }
  }

  lemma OkCarries(a: seq<Fact>, b: seq<Fact>, p: Policies)
    requires ClaimSet(a) == ClaimSet(b) && Resolve(a, p).Ok()
    ensures Resolve(b, p).Ok()
  {
    OkExactly(a, p);
    OkExactly(b, p);
    forall g | g in b && g.role.Application? ensures Keys.ValidDotted(g.key) {
      var f := Counterpart(b, a, g);
      SameClaim(f, g, p, g.key);
    }
    forall k | k in p.keys && p.keys[k].missing.Required? ensures exists g :: g in b && At(g, k) {
      var f :| f in a && At(f, k);
      var g := Counterpart(a, b, f);
      SameClaim(f, g, p, k);
    }
    forall k ensures SoundAt(b, p, k) && AgreeAt(b, p, k) { SoundCarries(a, b, p, k); }
  }

  /** A candidate is a conforming fact at its effective precedence, and conversely. */
  lemma FromFact(facts: seq<Fact>, p: Policies, key: string, x: Fact) returns (f: Fact)
    requires x in Valid(facts, p, key)
    ensures f in facts && Admitted(f) && f.key == key && Meets(PolicyFor(p, key), f.value) && x == Effective(f, p)
  {
    ConformingMembers(PolicyFor(p, key), Group(facts, p, key));
    GroupMembers(facts, p, key);
    f :| f in facts && Admitted(f) && f.key == key && x == Effective(f, p);
  }

  lemma HasFact(facts: seq<Fact>, p: Policies, key: string, f: Fact)
    requires f in facts && Admitted(f) && f.key == key && Meets(PolicyFor(p, key), f.value)
    ensures Effective(f, p) in Valid(facts, p, key)
  {
    GroupMembers(facts, p, key);
    ConformingMembers(PolicyFor(p, key), Group(facts, p, key));
  }

  lemma ValidCarries(a: seq<Fact>, b: seq<Fact>, p: Policies, key: string)
    requires ClaimSet(a) == ClaimSet(b) && Valid(a, p, key) != []
    ensures Valid(b, p, key) != []
  {
    var x := Valid(a, p, key)[0];
    var f := FromFact(a, p, key, x);
    var g := Counterpart(a, b, f);
    SameClaim(f, g, p, key);
    HasFact(b, p, key, g);
  }

  predicate Conforms(c: Fact, p: Policies, key: string) {
    Admitted(c) && c.key == key && Meets(PolicyFor(p, key), c.value)
  }

  /** Can this fact be the one that is ruled, in some order? Any conforming fact can under
      FirstWins and LastWins, those of top precedence among them can otherwise. */
  predicate Eligible(c: Fact, facts: seq<Fact>, p: Policies, key: string) {
    c in facts && Conforms(c, p, key) &&
    (ByPrecedence(PolicyFor(p, key).conflict) ==>
       forall d :: d in facts && Conforms(d, p, key) ==> Effective(d, p).precedence <= Effective(c, p).precedence)
  }

  predicate OneValue(claims: seq<Fact>, p: Policies, key: string) {
    forall c, d :: c in claims && d in claims && Eligible(c, claims, p, key) && Eligible(d, claims, p, key)
                   ==> SameValue(c.value, d.value)
  }

  lemma EligibleCarries(a: seq<Fact>, b: seq<Fact>, p: Policies, key: string, f: Fact, g: Fact)
    requires ClaimSet(a) == ClaimSet(b) && Claim(f) == Claim(g) && g in b
    requires Eligible(f, a, p, key)
    ensures Eligible(g, b, p, key)
  {
    SameClaim(f, g, p, key);
    forall h | h in b && Conforms(h, p, key) && ByPrecedence(PolicyFor(p, key).conflict)
      ensures Effective(h, p).precedence <= Effective(g, p).precedence
    {
      var h' := Counterpart(b, a, h);
      SameClaim(h', h, p, key);
    }
  }

  lemma RuledIsEligible(facts: seq<Fact>, p: Policies, key: string) returns (f: Fact)
    requires Valid(facts, p, key) != []
    ensures Eligible(f, facts, p, key) && ResolvedEntry(facts, p, key).value == f.value
  {
    var valid, conflict := Valid(facts, p, key), PolicyFor(p, key).conflict;
    ChooseIn(valid, conflict);
    TopOfSorted(valid);
    f := FromFact(facts, p, key, Choose(valid, conflict));
    forall d | d in facts && Conforms(d, p, key) && ByPrecedence(conflict)
      ensures Effective(d, p).precedence <= Effective(f, p).precedence
    {
      HasFact(facts, p, key, d);
    }
  }

  lemma ValueCarries(a: seq<Fact>, b: seq<Fact>, p: Policies, key: string)
    requires ClaimSet(a) == ClaimSet(b) && OneValue(a, p, key)
    requires Valid(a, p, key) != [] && Valid(b, p, key) != []
    ensures SameValue(ResolvedEntry(a, p, key).value, ResolvedEntry(b, p, key).value)
  {
    var f := RuledIsEligible(a, p, key);
    var g := RuledIsEligible(b, p, key);
    var g' := Counterpart(b, a, g);
    SameClaim(g', g, p, key);
    EligibleCarries(b, a, p, key, g, g');
  }

  // Where precedence or agreement decides, ok means agreement.
  lemma OkMeansOneValue(facts: seq<Fact>, p: Policies, key: string)
    requires Resolve(facts, p).Ok() && ByPrecedence(PolicyFor(p, key).conflict)
    ensures OneValue(facts, p, key)
  {
    OkExactly(facts, p);
    assert SoundAt(facts, p, key) && AgreeAt(facts, p, key);
    forall c | c in facts && Eligible(c, facts, p, key) ensures At(c, key) && Competes(facts, p, c) {
      forall h | h in facts && At(h, key) ensures Conforms(h, p, key) {}
    }
  }

  /** The verdict, and whether a key is ruled on, never depend on the order in which facts
      were added, nor on repetitions; what it is ruled to be does not either where all
      eligible facts show one value, as they do wherever precedence or agreement decides
      and the verdict is ok. */
  lemma OrderIndependent(a: seq<Fact>, b: seq<Fact>, p: Policies, key: string)
    requires ClaimSet(a) == ClaimSet(b)
    ensures Resolve(a, p).Ok() == Resolve(b, p).Ok()
    ensures RulingAt(a, p, key).Ruling? == RulingAt(b, p, key).Ruling?
    ensures RulingAt(a, p, key).Ruling? && OneValue(a, p, key) ==>
              SameValue(RulingAt(a, p, key).value, RulingAt(b, p, key).value)
    ensures Resolve(a, p).Ok() && ByPrecedence(PolicyFor(p, key).conflict) ==> OneValue(a, p, key)
  {
    if Resolve(a, p).Ok() { OkCarries(a, b, p); }
    if Resolve(b, p).Ok() { OkCarries(b, a, p); }
    if Valid(a, p, key) != [] { ValidCarries(a, b, p, key); }
    if Valid(b, p, key) != [] { ValidCarries(b, a, p, key); }
    if Valid(a, p, key) != [] && OneValue(a, p, key) { ValueCarries(a, b, p, key); }
    if Resolve(a, p).Ok() && ByPrecedence(PolicyFor(p, key).conflict) { OkMeansOneValue(a, p, key); }
  }

  lemma StampClaims(claims: seq<Fact>)
    ensures ClaimSet(Stamp(claims)) == ClaimSet(claims)
  {}

  lemma SameMembers(a: seq<Fact>, b: seq<Fact>)
    requires multiset(a) == multiset(b)
    ensures forall f :: f in a <==> f in b
  {
    assert forall f :: f in a <==> f in multiset(a);
    assert forall f :: f in b <==> f in multiset(b);
  }

  lemma PermutedClaims(a: seq<Fact>, b: seq<Fact>)
    requires multiset(a) == multiset(b)
    ensures ClaimSet(a) == ClaimSet(b)
  {
    SameMembers(a, b);
  }

  /** Adding the same facts in any permuted order changes neither the verdict, nor which keys
      are ruled on, nor, when ok, any value shown at a key. */
  lemma PermutationIndependent(a: seq<Fact>, b: seq<Fact>, p: Policies, key: string)
    requires multiset(a) == multiset(b)
    requires forall k :: k in p.keys ==> ByPrecedence(p.keys[k].conflict)
    ensures Resolve(Stamp(a), p).Ok() == Resolve(Stamp(b), p).Ok()
    ensures RulingAt(Stamp(a), p, key).Ruling? == RulingAt(Stamp(b), p, key).Ruling?
    ensures Resolve(Stamp(a), p).Ok() && RulingAt(Stamp(a), p, key).Ruling? ==>
              SameValue(RulingAt(Stamp(a), p, key).value, RulingAt(Stamp(b), p, key).value)
  {
    PermutedClaims(a, b);
    StampClaims(a);
    StampClaims(b);
    OrderIndependent(Stamp(a), Stamp(b), p, key);
  }

  // ---- when order decides, key by key ----

  function ValueAt(claims: seq<Fact>, p: Policies, key: string): Value
    requires Valid(Stamp(claims), p, key) != []
  {
    ResolvedEntry(Stamp(claims), p, key).value
  }

  /** Every two orders of the claims that give the key a value give it the same one. */
  ghost predicate OrderFree(claims: seq<Fact>, p: Policies, key: string) {
    forall a, b :: multiset(a) == multiset(claims) && multiset(b) == multiset(claims) &&
                   Valid(Stamp(a), p, key) != [] && Valid(Stamp(b), p, key) != []
                   ==> SameValue(ValueAt(a, p, key), ValueAt(b, p, key))
  }

  // An eligible fact at the end of the list that its policy looks at wins.
  lemma ExtremeWins(facts: seq<Fact>, p: Policies, key: string, i: nat)
    requires Stamped(facts) && i < |facts| && Eligible(facts[i], facts, p, key)
    requires i == if PolicyFor(p, key).conflict.FirstWins? then 0 else |facts| - 1
    ensures Valid(facts, p, key) != [] && ResolvedEntry(facts, p, key).value == facts[i].value
  {
    var conflict, valid := PolicyFor(p, key).conflict, Valid(facts, p, key);
    var w := Effective(facts[i], p);
    HasFact(facts, p, key, facts[i]);
    ValidIncreasing(facts, p, key);
    ChooseIsWinner(valid, conflict);
    forall g | g in valid && g != w ensures Beats(w, g, conflict) {
      var f := FromFact(facts, p, key, g);
      assert f.order != i;
    }
    WinnerIsUnique(valid, conflict, w, Choose(valid, conflict));
  }

  // Claim i moved to where its key's conflict policy looks.
  function Promote(claims: seq<Fact>, i: nat, conflict: ConflictPolicy): seq<Fact>
    requires i < |claims|
  {
    if conflict.FirstWins? then [claims[i]] + claims[..i] + claims[i + 1..]
    else claims[..i] + claims[i + 1..] + [claims[i]]
  }

  lemma PromoteIsPermutation(claims: seq<Fact>, i: nat, conflict: ConflictPolicy)
    requires i < |claims|
    ensures multiset(Promote(claims, i, conflict)) == multiset(claims)
  {
    assert claims == claims[..i] + [claims[i]] + claims[i + 1..];
  }

  lemma PromoteWins(claims: seq<Fact>, p: Policies, key: string, c: Fact) returns (moved: seq<Fact>)
    requires Eligible(c, claims, p, key)
    ensures multiset(moved) == multiset(claims) && Valid(Stamp(moved), p, key) != []
    ensures ValueAt(moved, p, key) == c.value
  {
    var conflict := PolicyFor(p, key).conflict;
    var i :| 0 <= i < |claims| && claims[i] == c;
    moved := Promote(claims, i, conflict);
    PromoteIsPermutation(claims, i, conflict);
    PermutedClaims(claims, moved);
    StampClaims(moved);
    var at := if conflict.FirstWins? then 0 else |moved| - 1;
    assert Claim(Stamp(moved)[at]) == Claim(c);
    SameClaim(Stamp(moved)[at], c, p, key);
    EligibleCarries(claims, Stamp(moved), p, key, c, Stamp(moved)[at]);
    ExtremeWins(Stamp(moved), p, key, at);
  }

  lemma ValueIsClaimed(a: seq<Fact>, claims: seq<Fact>, p: Policies, key: string) returns (c: Fact)
    requires multiset(a) == multiset(claims) && Valid(Stamp(a), p, key) != []
    ensures Eligible(c, claims, p, key) && ValueAt(a, p, key) == c.value
  {
    var f := RuledIsEligible(Stamp(a), p, key);
    StampClaims(a);
    PermutedClaims(a, claims);
    c := Counterpart(Stamp(a), claims, f);
    EligibleCarries(Stamp(a), claims, p, key, f, c);
  }

  /** A key's value is independent of the order in which facts were added exactly when all
      the facts that are eligible under its conflict policy show one value, whatever is
      wrong at other keys or with other facts at this one. */
  lemma OrderDecidesExactly(claims: seq<Fact>, p: Policies, key: string)
    ensures OrderFree(claims, p, key) <==> OneValue(claims, p, key)
  {
    if OrderFree(claims, p, key) {
      forall c, d | Eligible(c, claims, p, key) && Eligible(d, claims, p, key)
        ensures SameValue(c.value, d.value)
      {
        var a := PromoteWins(claims, p, key, c);
        var b := PromoteWins(claims, p, key, d);
      }
    }
    if OneValue(claims, p, key) {
      forall a, b | multiset(a) == multiset(claims) && multiset(b) == multiset(claims) &&
                    Valid(Stamp(a), p, key) != [] && Valid(Stamp(b), p, key) != []
        ensures SameValue(ValueAt(a, p, key), ValueAt(b, p, key))
      {
        var c := ValueIsClaimed(a, claims, p, key);
        var d := ValueIsClaimed(b, claims, p, key);
      }
    }
  }

  /** Facts "a" and "b" of one source at a key with FirstWins: their order decides. */
  lemma FirstWinsByOrder(p: Policies, key: string, source: Source)
    requires Keys.ValidDotted(key) && key in p.keys
    requires p.keys[key] == ImplicitPolicy(key).(conflict := FirstWins)
    ensures var c := Fact(key, Str("a"), source, 10, Application, 0);
            !OrderFree([c, c.(value := Str("b"))], p, key)
  {
    var c := Fact(key, Str("a"), source, 10, Application, 0);
    var d := c.(value := Str("b"));
    assert c in [c, d] && d in [c, d];
    assert Eligible(c, [c, d], p, key) && Eligible(d, [c, d], p, key);
    assert "a"[0] != "b"[0];
    OrderDecidesExactly([c, d], p, key);
  }

  // ---- what else cannot matter at a key ----

  /** A key's application facts in order. */
  function KeyFacts(facts: seq<Fact>, key: string): seq<Fact> {
    if facts == [] then []
    else
      var last := facts[|facts| - 1];
      KeyFacts(facts[..|facts| - 1], key) + if Admitted(last) && last.key == key then [last] else []
  }

  /** Equal but for the stamps. */
  predicate Similar(a: seq<Fact>, b: seq<Fact>) {
    |a| == |b| && forall i :: 0 <= i < |a| ==> Claim(a[i]) == Claim(b[i])
  }

  lemma {:induction false} GroupIsKeyFacts(facts: seq<Fact>, p: Policies, key: string)
    ensures var group, own := Group(facts, p, key), KeyFacts(facts, key);
            |group| == |own| && forall i :: 0 <= i < |own| ==> group[i] == Effective(own[i], p)
  {
    if facts != [] { GroupIsKeyFacts(facts[..|facts| - 1], p, key); }
  }

  lemma GroupSimilar(a: seq<Fact>, b: seq<Fact>, p: Policies, key: string)
    requires Similar(KeyFacts(a, key), KeyFacts(b, key))
    ensures Similar(Group(a, p, key), Group(b, p, key))
  {
    GroupIsKeyFacts(a, p, key);
    GroupIsKeyFacts(b, p, key);
    var x, y := KeyFacts(a, key), KeyFacts(b, key);
    forall i | 0 <= i < |x| ensures Claim(Effective(x[i], p)) == Claim(Effective(y[i], p)) {
      SameClaim(x[i], y[i], p, key);
    }
  }

  lemma {:induction false} ConformingSimilar(policy: KeyPolicy, a: seq<Fact>, b: seq<Fact>)
    requires Similar(a, b)
    ensures Similar(Conforming(policy, a), Conforming(policy, b))
  {
    if a != [] {
      ConformingSimilar(policy, a[..|a| - 1], b[..|b| - 1]);
      assert Claim(a[|a| - 1]).value == Claim(b[|b| - 1]).value;
    }
  }

  lemma BeatsSimilar(a: seq<Fact>, b: seq<Fact>, conflict: ConflictPolicy, i: nat, j: nat)
    requires Similar(a, b) && Increasing(a) && Increasing(b)
    requires i < |a| && j < |a| && Beats(a[i], a[j], conflict)
    ensures Beats(b[i], b[j], conflict)
  {}

  lemma WinnerSimilar(a: seq<Fact>, b: seq<Fact>, conflict: ConflictPolicy, i: nat)
    requires Similar(a, b) && Increasing(a) && Increasing(b)
    requires i < |a| && IsWinner(a[i], a, conflict)
    ensures IsWinner(b[i], b, conflict)
  {
    forall g | g in b && g != b[i] ensures Beats(b[i], g, conflict) {
      var j :| 0 <= j < |b| && b[j] == g;
      assert if i < j then a[i].order < a[j].order else a[j].order < a[i].order;
      BeatsSimilar(a, b, conflict, i, j);
    }
  }

  lemma ChooseSimilar(a: seq<Fact>, b: seq<Fact>, conflict: ConflictPolicy)
    requires Similar(a, b) && Increasing(a) && Increasing(b) && a != []
    ensures Claim(Choose(a, conflict)) == Claim(Choose(b, conflict))
  {
    IncreasingUnique(a);
    IncreasingUnique(b);
    ChooseIsWinner(a, conflict);
    ChooseIsWinner(b, conflict);
    var i :| 0 <= i < |a| && a[i] == Choose(a, conflict);
    WinnerSimilar(a, b, conflict, i);
    WinnerIsUnique(b, conflict, b[i], Choose(b, conflict));
  }

  lemma EntryOfSimilar(a: seq<Fact>, b: seq<Fact>, p: Policies, key: string)
    requires Valid(a, p, key) != [] && Valid(b, p, key) != []
    requires var conflict := PolicyFor(p, key).conflict;
             Claim(Choose(Valid(a, p, key), conflict)) == Claim(Choose(Valid(b, p, key), conflict))
    ensures ResolvedEntry(a, p, key).value == ResolvedEntry(b, p, key).value
    ensures ResolvedEntry(a, p, key).source == ResolvedEntry(b, p, key).source
  {}

  /** The ruling at a key is a function of that key's application facts in their
      relative order. */
  lemma Locality(a: seq<Fact>, b: seq<Fact>, p: Policies, key: string)
    requires Stamped(a) && Stamped(b) && Similar(KeyFacts(a, key), KeyFacts(b, key))
    ensures RulingAt(a, p, key) == RulingAt(b, p, key)
  {
    GroupSimilar(a, b, p, key);
    ConformingSimilar(PolicyFor(p, key), Group(a, p, key), Group(b, p, key));
    ValidIncreasing(a, p, key);
    ValidIncreasing(b, p, key);
    if Valid(a, p, key) != [] {
      ChooseSimilar(Valid(a, p, key), Valid(b, p, key), PolicyFor(p, key).conflict);
      EntryOfSimilar(a, b, p, key);
    }
  }

  lemma {:induction false} OtherKeysAddNothing(facts: seq<Fact>, extra: seq<Fact>, key: string)
    requires forall e :: e in extra ==> !At(e, key)
    ensures KeyFacts(facts + extra, key) == KeyFacts(facts, key)
  {
    if extra == [] {
      assert facts + extra == facts;
    } else {
      assert (facts + extra)[..|facts + extra| - 1] == facts + extra[..|extra| - 1];
      OtherKeysAddNothing(facts, extra[..|extra| - 1], key);
      assert extra[|extra| - 1] in extra;
    }
  }

  lemma StampedPrefix(facts: seq<Fact>, extra: seq<Fact>)
    requires Stamped(facts + extra)
    ensures Stamped(facts)
  {
    forall i | 0 <= i < |facts| ensures facts[i].order == i { assert (facts + extra)[i] == facts[i]; }
  }

  /** Facts added for other keys change nothing at this one. */
  lemma OtherKeysNeverMatter(facts: seq<Fact>, extra: seq<Fact>, p: Policies, key: string)
    requires Stamped(facts + extra)
    requires forall e :: e in extra ==> !At(e, key)
    ensures RulingAt(facts + extra, p, key) == RulingAt(facts, p, key)
  {
    StampedPrefix(facts, extra);
    OtherKeysAddNothing(facts, extra, key);
    Locality(facts, facts + extra, p, key);
  }

  // A winner by precedence keeps winning when weaker facts for its key are added.
  lemma StillWins(facts: seq<Fact>, extra: seq<Fact>, p: Policies, key: string, w: Fact)
    requires IsWinner(w, Valid(facts, p, key), HighestPrecedenceWins)
    requires forall e :: e in extra && At(e, key) ==> Effective(e, p).precedence < w.precedence
    ensures IsWinner(w, Valid(facts + extra, p, key), HighestPrecedenceWins)
  {
    var all := facts + extra;
    var f := FromFact(facts, p, key, w);
    HasFact(all, p, key, f);
    forall x | x in Valid(all, p, key) && x != w ensures Beats(w, x, HighestPrecedenceWins) {
      var g := FromFact(all, p, key, x);
      if g in facts { HasFact(facts, p, key, g); } else { assert g in extra && At(g, key); }
    }
  }

  /** Facts of strictly lower precedence than a key's winner never change its ruling
      where the highest precedence wins, even when they break the key's policy. */
  lemma LowerPrecedenceNeverMatters(facts: seq<Fact>, extra: seq<Fact>, p: Policies, key: string)
    requires Stamped(facts + extra) && Valid(facts, p, key) != []
    requires PolicyFor(p, key).conflict.HighestPrecedenceWins?
    requires var top := Choose(Valid(facts, p, key), HighestPrecedenceWins).precedence;
             forall e :: e in extra && At(e, key) ==> Effective(e, p).precedence < top
    ensures RulingAt(facts + extra, p, key) == RulingAt(facts, p, key)
  {
    var before, after := Valid(facts, p, key), Valid(facts + extra, p, key);
    var w := Choose(before, HighestPrecedenceWins);
    StampedPrefix(facts, extra);
    ValidIncreasing(facts, p, key);
    ChooseIsWinner(before, HighestPrecedenceWins);
    StillWins(facts, extra, p, key, w);
    ValidIncreasing(facts + extra, p, key);
    ChooseIsWinner(after, HighestPrecedenceWins);
    WinnerIsUnique(after, HighestPrecedenceWins, w, Choose(after, HighestPrecedenceWins));
  }
}
