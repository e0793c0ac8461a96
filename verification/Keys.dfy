/** Dotted configuration keys. Everywhere else a key is its dotted text: that
    is all the library's equality, ordering and map lookups look at. */
module Keys {
  import opened Text
  import opened Sequences

  predicate ValidDotted(dotted: string) {
    dotted == "" ||
    (dotted[0] != '.' && dotted[|dotted| - 1] != '.' &&
     forall i :: 1 <= i < |dotted| ==> !(dotted[i] == '.' && dotted[i - 1] == '.'))
  }

  function NonEmpty(pieces: seq<string>): seq<string> {
    if pieces == [] then []
    else (if pieces[0] == "" then [] else [pieces[0]]) + NonEmpty(pieces[1..])
  }

  function Parts(dotted: string): seq<string> { NonEmpty(GetLines(dotted, '.')) }

  /** What one `std::getline` leaves in the stream. */
  function AfterPiece(rest: string): string {
    var i := Find(rest, '.');
    if i == |rest| then "" else rest[i + 1..]
  }

  lemma PartsStep(rest: string)
    requires rest != ""
    ensures var part := rest[..Find(rest, '.')];
            Parts(rest) == (if part == "" then [] else [part]) + Parts(AfterPiece(rest))
  {
    var i := Find(rest, '.');
    if i == |rest| {
      assert rest[..i] == rest;
      assert NonEmpty([rest]) == [rest] + NonEmpty([]);
    } else {
      assert NonEmpty([rest[..i]] + GetLines(rest[i + 1..], '.')) ==
             (if rest[..i] == "" then [] else [rest[..i]]) + Parts(rest[i + 1..]);
    }
  }

  function Join(parts: seq<string>): string {
    if parts == [] then ""
    else if |parts| == 1 then parts[0]
    else parts[0] + "." + Join(parts[1..])
  }

  lemma {:induction false} JoinSnoc(parts: seq<string>, last: string)
    requires parts != []
    ensures Join(parts + [last]) == Join(parts) + "." + last
  {
    assert (parts + [last])[1..] == parts[1..] + [last];
    if |parts| > 1 { JoinSnoc(parts[1..], last); }
  }

  class KeyPath {
    var parts: seq<string>
    var dotted: string

    constructor FromDotted(dotted: string)
      ensures this.dotted == dotted && parts == Parts(dotted)
    {
      this.dotted := dotted;
      parts := [];
      new;
      RebuildParts();
    }

    constructor FromParts(parts: seq<string>)
      ensures this.parts == parts && dotted == Join(parts)
    {
      this.parts := parts;
      dotted := "";
      new;
      RebuildDotted();
    }

    method RebuildParts()
      modifies this`parts
      ensures parts == Parts(dotted)
    {
      parts := [];
      var rest := dotted;
      while rest != ""
        invariant Parts(dotted) == parts + Parts(rest)
        decreases |rest|
      {
        var part, next := rest[..Find(rest, '.')], AfterPiece(rest);
        PartsStep(rest);
        Reassociate(parts, [part], Parts(next));
        if part != "" { parts := parts + [part]; }
        rest := next;
      }
    }

    method RebuildDotted()
      modifies this`dotted
      ensures dotted == Join(parts)
    {
      dotted := "";
      for i := 0 to |parts|
        invariant dotted == Join(parts[..i])
      {
        if i != 0 {
          JoinSnoc(parts[..i], parts[i]);
          dotted := dotted + ".";
        }
        assert parts[..i + 1] == parts[..i] + [parts[i]];
        dotted := dotted + parts[i];
      }
      assert parts[..|parts|] == parts;
    }
  }

  method IsValidDotted(dotted: string) returns (ok: bool)
    ensures ok <==> ValidDotted(dotted)
  {
    if dotted == "" { return true; }
    if dotted[0] == '.' || dotted[|dotted| - 1] == '.' { return false; }
    for i := 1 to |dotted|
      invariant forall j :: 1 <= j < i ==> !(dotted[j] == '.' && dotted[j - 1] == '.')
    {
      if dotted[i] == '.' && dotted[i - 1] == '.' { return false; }
    }
    return true;
  }

  lemma ValidSplit(piece: string, rest: string)
    requires '.' !in piece
    ensures ValidDotted(piece + "." + rest) <==> piece != "" && rest != "" && ValidDotted(rest)
  {
    var d := piece + "." + rest;
    if piece != "" && rest != "" {
      assert d[|piece|] == '.' && d[|piece| + 1] == rest[0];
      if ValidDotted(rest) {
        forall i | 1 <= i < |d| ensures !(d[i] == '.' && d[i - 1] == '.') {
          if |piece| + 1 < i {
            assert d[i] == rest[i - |piece| - 1] && d[i - 1] == rest[i - 1 - |piece| - 1];
          }
        }
      } else if rest[0] != '.' && rest[|rest| - 1] != '.' {
        var i :| 1 <= i < |rest| && rest[i] == '.' && rest[i - 1] == '.';
        assert d[i + |piece| + 1] == '.' && d[i + |piece|] == '.';
      }
    }
  }

  /** A dotted text is a valid key exactly when joining its parsed parts gives it back. */
  lemma {:induction false} ValidIffRoundTrip(d: string)
    ensures ValidDotted(d) <==> Join(Parts(d)) == d
    ensures |Join(Parts(d))| <= |d|
    decreases |d|
  {
    var i := Find(d, '.');
    if d == "" {
    } else if i == |d| {
      PartsStep(d);
      assert d[..i] == d;
      assert '.' !in d;
    } else {
      var piece, rest := d[..i], d[i + 1..];
      assert d == piece + "." + rest;
      ValidIffRoundTrip(rest);
      ValidSplit(piece, rest);
      PartsStep(d);
      if piece == "" {
        assert Parts(d) == Parts(rest);
      } else if Parts(rest) != [] {
        assert Parts(d)[1..] == Parts(rest);
        assert Join(Parts(d)) == piece + "." + Join(Parts(rest));
        assert Join(Parts(d))[|piece| + 1..] == Join(Parts(rest));
      }
    }
  }

  /** Any list of non-empty dot-free parts joins to a valid key that splits back into it. */
  lemma {:induction false} JoinThenSplit(parts: seq<string>)
    requires forall p :: p in parts ==> p != "" && '.' !in p
    ensures Parts(Join(parts)) == parts
    ensures ValidDotted(Join(parts))
  {
    if parts == [] {
    } else if |parts| == 1 {
      FindNone(parts[0], '.');
      assert GetLines(parts[0], '.') == [parts[0]];
    } else {
      assert forall p :: p in parts[1..] ==> p in parts;
      JoinThenSplit(parts[1..]);
      GetLinesCons(parts[0], '.', Join(parts[1..]));
      assert parts[0] + ['.'] + Join(parts[1..]) == Join(parts);
      assert NonEmpty([parts[0]] + GetLines(Join(parts[1..]), '.')) == [parts[0]] + parts[1..];
    }
    ValidIffRoundTrip(Join(parts));
  }
}
