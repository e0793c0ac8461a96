/** Where facts come from. */
module Sources {
  datatype SourceKind = InternalDefault | File | Environment | CLI | Runtime | Unknown

  datatype Source = Source(kind: SourceKind, name: string)

  const NO_SOURCE := Source(Unknown, "unknown")
}

/** Diagnostics without their message text. */
module Diagnostics {
  import opened Sources

  datatype Severity = Info | Warning | Error

  datatype Diagnostic = Diagnostic(severity: Severity, code: string, key: string, source: Source)

  predicate HasErrors(items: seq<Diagnostic>) { exists d :: d in items && d.severity.Error? }

  predicate AllErrors(items: seq<Diagnostic>) { forall d :: d in items ==> d.severity.Error? }

  class DiagnosticLog {
    var items: seq<Diagnostic>

    constructor ()
      ensures items == []
    {
      items := [];
    }

    method Add(d: Diagnostic)
      modifies this
      ensures items == old(items) + [d]
    {
      items := items + [d];
    }

    method AddError(code: string, key: string, source: Source)
      modifies this
      ensures items == old(items) + [Diagnostic(Error, code, key, source)]
    {
      Add(Diagnostic(Error, code, key, source));
    }
  }
}

/** Raw facts and the set that stamps them with their insertion order. */
module Facts {
  import opened Sources
  import opened Values

  datatype FactRole = Application | MetaConfig | PolicyRole

  datatype Fact = Fact(key: string, value: Value, source: Source, precedence: int,
                       role: FactRole, order: nat)

  predicate Stamped(facts: seq<Fact>) {
    forall i :: 0 <= i < |facts| ==> facts[i].order == i
  }

  /** What `add` is told: the fact without its stamp. */
  function Claim(f: Fact): Fact { f.(order := 0) }

  function Stamp(claims: seq<Fact>): (facts: seq<Fact>)
    ensures |facts| == |claims| && Stamped(facts)
    ensures forall i :: 0 <= i < |claims| ==> Claim(facts[i]) == Claim(claims[i])
  {
    seq(|claims|, i requires 0 <= i < |claims| => claims[i].(order := i))
  }

  function FactsFor(facts: seq<Fact>, key: string): seq<Fact> {
    if facts == [] then []
    else
      var last := facts[|facts| - 1];
      FactsFor(facts[..|facts| - 1], key) + if last.key == key then [last] else []
  }

  /** The key's facts and no others, as often and in the order in which they were added. */
  lemma {:induction false} FactsForExactly(facts: seq<Fact>, key: string, f: Fact)
    requires Stamped(facts)
    ensures multiset(FactsFor(facts, key))[f] == if f.key == key then multiset(facts)[f] else 0
    ensures var own := FactsFor(facts, key);
            (forall i :: 0 <= i < |own| ==> own[i].order < |facts|) &&
            (forall i, j :: 0 <= i < j < |own| ==> own[i].order < own[j].order)
  {
    if facts != [] {
      FactsForExactly(facts[..|facts| - 1], key, f);
      assert facts == facts[..|facts| - 1] + [facts[|facts| - 1]];
    }
  }

  class FactSet {
    var facts: seq<Fact>

    constructor ()
      ensures facts == [] && Stamped(facts)
    {
      facts := [];
    }

    method Add(key: string, value: Value, source: Source, precedence: int, role: FactRole)
      requires Stamped(facts)
      modifies this
      ensures facts == old(facts) + [Fact(key, value, source, precedence, role, |old(facts)|)]
      ensures Stamped(facts)
    {
      facts := facts + [Fact(key, value, source, precedence, role, |facts|)];
    }

    method ForKey(key: string) returns (out: seq<Fact>)
      ensures out == FactsFor(facts, key)
    {
      out := [];
      for i := 0 to |facts|
        invariant out == FactsFor(facts[..i], key)
      {
        assert facts[..i + 1][..i] == facts[..i];
        if facts[i].key == key { out := out + [facts[i]]; }
      }
      assert facts[..|facts|] == facts;
    }

    method Clear()
      modifies this
      ensures facts == [] && Stamped(facts)
    {
      facts := [];
    }
  }
}
