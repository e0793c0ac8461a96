/** The Some/None datatype that stands for `std::optional`. */
module Wrappers {
  datatype Option<+T> = None | Some(value: T)
}

/** Sequence facts the solver is better told than left to find. */
module Sequences {
  lemma PrefixStep<T>(s: seq<T>, i: nat)
    requires i < |s|
    ensures s[..i + 1] == s[..i] + [s[i]]
  {}

  lemma PrefixOfConcat<T>(a: seq<T>, b: seq<T>, c: seq<T>, m: nat)
    requires m <= |b|
    ensures (a + (b + c))[..|a| + m] == a + b[..m]
  {}

  lemma AbsorbLeft<T>(a: seq<T>, b: seq<T>, c: seq<T>, d: seq<T>)
    ensures a + (b + c + d) == (a + b) + c + d
  {}

  lemma Reassociate<T>(a: seq<T>, b: seq<T>, c: seq<T>)
    ensures (a + b) + c == a + (b + c)
  {}
}

/** Character classes, trimming, searching and `std::getline` splitting. */
module Text {

  // isspace in the "C" locale: space, \t, \n, \v, \f, \r
  predicate IsSpace(c: char) { c == ' ' || '\t' <= c <= '\r' }

  lemma IsSpaceExactly(c: char)
    ensures IsSpace(c) <==> c in {' ', '\t', '\n', 11 as char, 12 as char, '\r'}
  {}

  predicate AllSpace(s: string) { forall i :: 0 <= i < |s| ==> IsSpace(s[i]) }

  /** No whitespace at either end. */
  predicate Tight(s: string) {
    s == "" || (!IsSpace(s[0]) && !IsSpace(s[|s| - 1]))
  }

  function TrimLeft(s: string): string {
    if s != "" && IsSpace(s[0]) then TrimLeft(s[1..]) else s
  }

  function TrimRight(s: string): string {
    if s != "" && IsSpace(s[|s| - 1]) then TrimRight(s[..|s| - 1]) else s
  }

  function Trim(s: string): string { TrimRight(TrimLeft(s)) }

  lemma {:induction false} TrimLeftSkips(a: string, t: string)
    requires AllSpace(a)
    requires t == "" || !IsSpace(t[0])
    ensures TrimLeft(a + t) == t
  {
    if a == "" {
      assert a + t == t;
    } else {
      assert (a + t)[1..] == a[1..] + t;
      TrimLeftSkips(a[1..], t);
    }
  }

  lemma {:induction false} TrimRightSkips(t: string, b: string)
    requires AllSpace(b)
    requires t == "" || !IsSpace(t[|t| - 1])
    ensures TrimRight(t + b) == t
  {
    if b == "" {
      assert t + b == t;
    } else {
      assert (t + b)[..|t + b| - 1] == t + b[..|b| - 1];
      TrimRightSkips(t, b[..|b| - 1]);
    }
  }

  /** Trimming is determined by its result: spaces, a tight text, spaces. */
  lemma TrimUnique(a: string, t: string, b: string)
    requires AllSpace(a) && AllSpace(b) && Tight(t)
    ensures Trim(a + t + b) == t
  {
    if t == "" {
      TrimLeftSkips(a + b, "");
      assert a + t + b == a + b + "";
    } else {
      assert a + t + b == a + (t + b);
      TrimLeftSkips(a, t + b);
      TrimRightSkips(t, b);
    }
  }

  lemma {:induction false} TrimLeftSplit(s: string) returns (a: string)
    ensures s == a + TrimLeft(s) && AllSpace(a)
    ensures TrimLeft(s) == "" || !IsSpace(TrimLeft(s)[0])
  {
    if s != "" && IsSpace(s[0]) {
      a := TrimLeftSplit(s[1..]);
      a := [s[0]] + a;
    } else {
      a := "";
    }
  }

  lemma {:induction false} TrimRightSplit(s: string) returns (b: string)
    ensures s == TrimRight(s) + b && AllSpace(b)
    ensures TrimRight(s) == "" || !IsSpace(TrimRight(s)[|TrimRight(s)| - 1])
  {
    if s != "" && IsSpace(s[|s| - 1]) {
      b := TrimRightSplit(s[..|s| - 1]);
      b := b + [s[|s| - 1]];
    } else {
      b := "";
    }
  }

  /** Every text is spaces, its trimmed form, spaces. */
  lemma TrimSplit(s: string) returns (a: string, b: string)
    ensures s == a + Trim(s) + b
    ensures AllSpace(a) && AllSpace(b) && Tight(Trim(s))
  {
    a := TrimLeftSplit(s);
    b := TrimRightSplit(TrimLeft(s));
    if Trim(s) != "" {
      assert TrimLeft(s)[0] == Trim(s)[0];
    }
  }

  lemma TrimTail(s: string) returns (b: string)
    requires s == "" || !IsSpace(s[0])
    ensures s == Trim(s) + b && AllSpace(b)
  {
    b := TrimRightSplit(s);
  }

  lemma TrimTight(s: string)
    requires Tight(s)
    ensures Trim(s) == s
  {}

  /** Position of the first `c`, or the length (`std::string::find`). */
  function Find(s: string, c: char): (i: nat)
    ensures i <= |s| && c !in s[..i]
    ensures i < |s| ==> s[i] == c
  {
    if s == "" then 0
    else if s[0] == c then 0
    else
      var j := Find(s[1..], c);
      assert s[..1 + j] == [s[0]] + s[1..][..j];
      1 + j
  }

  lemma {:induction false} FindIs(a: string, c: char, b: string)
    requires c !in a
    ensures Find(a + [c] + b, c) == |a|
  {
    if a != "" {
      assert (a + [c] + b)[1..] == a[1..] + [c] + b;
      FindIs(a[1..], c, b);
    }
  }

  lemma FindNone(s: string, c: char)
    requires c !in s
    ensures Find(s, c) == |s|
  {}

  /** The pieces that repeated `std::getline(stream, piece, d)` reads from `s`:
      a final delimiter ends the last piece and opens none. */
  function GetLines(s: string, d: char): seq<string> {
    if s == "" then []
    else
      var i := Find(s, d);
      if i == |s| then [s] else [s[..i]] + GetLines(s[i + 1..], d)
  }

  lemma GetLinesCons(piece: string, d: char, rest: string)
    requires d !in piece
    ensures GetLines(piece + [d] + rest, d) == [piece] + GetLines(rest, d)
  {
    var s := piece + [d] + rest;
    FindIs(piece, d, rest);
    assert s[..|piece|] == piece && s[|piece| + 1..] == rest;
  }
}
