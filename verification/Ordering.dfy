/** The iteration order of `std::map<std::string, T>` and `std::set<std::string>`. */
module Ordering {

  predicate Less(a: string, b: string) {
    b != "" && (a == "" || a[0] < b[0] || (a[0] == b[0] && Less(a[1..], b[1..])))
  }

  lemma {:induction false} LessTotal(a: string, b: string)
    ensures a == b || Less(a, b) || Less(b, a)
    ensures !(Less(a, b) && Less(b, a))
    ensures !Less(a, a)
  {
    if a != "" {
      LessTotal(a[1..], a[1..]);
      if b != "" {
        LessTotal(a[1..], b[1..]);
        assert a == [a[0]] + a[1..] && b == [b[0]] + b[1..];
      }
    }
  }

  lemma {:induction false} LessTransitive(a: string, b: string, c: string)
    requires Less(a, b) && Less(b, c)
    ensures Less(a, c)
  {
    if a != "" && a[0] == b[0] == c[0] {
      LessTransitive(a[1..], b[1..], c[1..]);
    }
  }

  predicate IsLeast(k: string, s: set<string>) {
    k in s && forall j :: j in s && j != k ==> Less(k, j)
  }

  lemma {:induction false} LeastExists(s: set<string>)
    requires s != {}
    ensures exists k :: IsLeast(k, s)
    decreases |s|
  {
    var x :| x in s;
    var rest := s - {x};
    if rest == {} {
      assert s == {x};
      assert IsLeast(x, s);
    } else {
      LeastExists(rest);
      var k :| IsLeast(k, rest);
      LessTotal(x, k);
      if Less(k, x) {
        assert IsLeast(k, s);
      } else {
        forall j | j in s && j != x ensures Less(x, j) {
          if j != k { LessTransitive(x, k, j); }
        }
        assert IsLeast(x, s);
      }
    }
  }

  function Least(s: set<string>): (k: string)
    requires s != {}
    ensures IsLeast(k, s)
  {
    LeastExists(s);
    assert forall k, j | IsLeast(k, s) && IsLeast(j, s) :: k == j by {
      forall k, j | IsLeast(k, s) && IsLeast(j, s) ensures k == j { LessTotal(k, j); }
    }
    var k :| IsLeast(k, s);
    k
  }

  predicate StrictlySorted(ks: seq<string>) {
    forall i, j :: 0 <= i < j < |ks| ==> Less(ks[i], ks[j])
  }

  /** The keys of a map or set in iteration order. */
  function SortedKeys(s: set<string>): seq<string>
    decreases |s|
  {
    if s == {} then []
    else
      var k := Least(s);
      [k] + SortedKeys(s - {k})
  }

  predicate Distinct(ks: seq<string>) {
    forall i, j :: 0 <= i < j < |ks| ==> ks[i] != ks[j]
  }

  lemma SortedThenDistinct(ks: seq<string>)
    requires StrictlySorted(ks)
    ensures Distinct(ks)
  {
    forall i, j | 0 <= i < j < |ks| ensures ks[i] != ks[j] { LessTotal(ks[i], ks[j]); }
  }

  lemma SortedCons(k: string, ks: seq<string>)
    requires StrictlySorted(ks)
    requires forall j :: j in ks ==> Less(k, j)
    ensures StrictlySorted([k] + ks)
  {}

  lemma SortedSnoc(ks: seq<string>, k: string)
    requires StrictlySorted(ks)
    requires forall j :: j in ks ==> Less(j, k)
    ensures StrictlySorted(ks + [k])
  {}

  /** The iteration visits every key, each once, in ascending order. */
  lemma {:induction false} SortedKeysExact(s: set<string>)
    ensures forall k :: k in SortedKeys(s) <==> k in s
    ensures StrictlySorted(SortedKeys(s)) && Distinct(SortedKeys(s))
    decreases |s|
  {
    if s != {} {
      var k := Least(s);
      SortedKeysExact(s - {k});
      SortedCons(k, SortedKeys(s - {k}));
    }
    SortedThenDistinct(SortedKeys(s));
  }

  lemma FirstIsLeast(ks: seq<string>)
    requires StrictlySorted(ks) && ks != []
    ensures forall k :: k in ks && k != ks[0] ==> Less(ks[0], k)
    ensures forall k :: k in ks[1..] <==> k in ks && k != ks[0]
  {
    LessTotal(ks[0], ks[0]);
    assert ks == [ks[0]] + ks[1..];
  }

  /** A strictly ascending list is determined by its members. */
  lemma {:induction false} StrictlySortedUnique(a: seq<string>, b: seq<string>)
    requires StrictlySorted(a) && StrictlySorted(b)
    requires forall k :: k in a <==> k in b
    ensures a == b
  {
    if a != [] { assert a[0] in b; }
    if b != [] {
      assert b[0] in a;
      FirstIsLeast(a);
      FirstIsLeast(b);
      LessTotal(a[0], b[0]);
      StrictlySortedUnique(a[1..], b[1..]);
      assert a == [a[0]] + a[1..] && b == [b[0]] + b[1..];
    }
  }

  // ---- the order itself ----

  /** The dictionary order: a proper beginning comes first, and otherwise the smaller character
      where the two first differ. */
  predicate DictionaryBefore(a: string, b: string) {
    (a <= b && a != b) ||
    exists i :: 0 <= i < |a| && i < |b| && a[..i] == b[..i] && a[i] < b[i]
  }

  lemma {:induction false} PrefixIsLess(a: string, b: string)
    requires a <= b && a != b
    ensures Less(a, b)
  {
    if a != "" {
      assert a == [a[0]] + a[1..] && b == [b[0]] + b[1..];
      PrefixIsLess(a[1..], b[1..]);
    }
  }

  lemma {:induction false} FirstDifferenceDecides(a: string, b: string, i: nat)
    requires i < |a| && i < |b| && a[..i] == b[..i] && a[i] < b[i]
    ensures Less(a, b)
  {
    if i > 0 {
      assert a[0] == a[..i][0] == b[..i][0];
      assert a[1..][..i - 1] == a[..i][1..] && b[1..][..i - 1] == b[..i][1..];
      FirstDifferenceDecides(a[1..], b[1..], i - 1);
    }
  }

  // Where a text that comes first ends, or differs first.
  lemma {:induction false} FirstDifference(a: string, b: string) returns (i: nat)
    requires Less(a, b)
    ensures i <= |a| && i < |b| && a[..i] == b[..i] && (i < |a| ==> a[i] < b[i])
  {
    if a == "" || a[0] < b[0] {
      i := 0;
    } else {
      i := FirstDifference(a[1..], b[1..]);
      assert a[..i + 1] == [a[0]] + a[1..][..i] && b[..i + 1] == [b[0]] + b[1..][..i];
      i := i + 1;
    }
  }

  lemma LessIsDictionary(a: string, b: string)
    ensures Less(a, b) <==> DictionaryBefore(a, b)
  {
    if Less(a, b) {
      var i := FirstDifference(a, b);
      if i == |a| { assert a == a[..i]; }
    }
    if a <= b && a != b { PrefixIsLess(a, b); }
    if i :| 0 <= i < |a| && i < |b| && a[..i] == b[..i] && a[i] < b[i] { FirstDifferenceDecides(a, b, i); }
  }

  /** The keys of a map are visited in dictionary order. */
  lemma SortedKeysDictionary(s: set<string>, i: nat, j: nat)
    requires i < j < |SortedKeys(s)|
    ensures DictionaryBefore(SortedKeys(s)[i], SortedKeys(s)[j])
  {
    SortedKeysExact(s);
    LessIsDictionary(SortedKeys(s)[i], SortedKeys(s)[j]);
  }
}
