/** Cutting text at a separator and joining it again. */
module Text {

  /** Every piece between separators, the empty ones included; never an empty list. */
  function Pieces(sep: char, text: string): (pieces: seq<string>)
    ensures |pieces| > 0
  {
    if text == "" then [""]
    else
      var rest := Pieces(sep, text[1..]);
      if text[0] == sep then [""] + rest
      else [[text[0]] + rest[0]] + rest[1..]
  }

  function NonEmpty(pieces: seq<string>): seq<string> {
    if pieces == [] then []
    else if pieces[0] == "" then NonEmpty(pieces[1..])
    else [pieces[0]] + NonEmpty(pieces[1..])
  }

  /**
   `eckit::StringTools::split`. Whether the library keeps empty pieces is not visible in
   this repository, so it is a parameter and every statement holds for both answers.
   */
  function Split(keepEmpty: bool, sep: char, text: string): seq<string> {
    if keepEmpty then Pieces(sep, text) else NonEmpty(Pieces(sep, text))
  }

  /** The tokens a `std::getline(in, token, sep)` loop delivers: no empty token after the last separator. */
  function GetlineTokens(sep: char, text: string): seq<string> {
    var pieces := Pieces(sep, text);
    if pieces[|pieces| - 1] == "" then pieces[..|pieces| - 1] else pieces
  }

  function Join(sep: char, parts: seq<string>): string {
    if parts == [] then ""
    else if |parts| == 1 then parts[0]
    else parts[0] + [sep] + Join(sep, parts[1..])
  }

  lemma ConcatAssoc(a: string, b: string, c: string)
    ensures (a + b) + c == a + (b + c)
  {
  }

  lemma Truncated(a: string, b: string)
    ensures (a + b)[..|a + b| - |b|] == a
  {
  }

  lemma JoinTwo(sep: char, a: string, b: string)
    ensures Join(sep, [a, b]) == a + [sep] + b
  {
    assert [a, b][1..] == [b];
  }

  lemma {:induction false} JoinSnoc(sep: char, parts: seq<string>, last: string)
    ensures Join(sep, parts + [last]) == if parts == [] then last else Join(sep, parts) + [sep] + last
  {
    if parts == [] {
      assert parts + [last] == [last];
    } else {
      assert (parts + [last])[1..] == parts[1..] + [last];
      JoinSnoc(sep, parts[1..], last);
      if |parts| > 1 {
        assert parts[0] + [sep] + (Join(sep, parts[1..]) + [sep] + last)
               == parts[0] + [sep] + Join(sep, parts[1..]) + [sep] + last;
      }
    }
  }

  /** None of the pieces contains the separator. */
  lemma {:induction false} PiecesFree(sep: char, text: string)
    ensures forall i :: 0 <= i < |Pieces(sep, text)| ==> sep !in Pieces(sep, text)[i]
    ensures forall i :: 0 <= i < |Pieces(sep, text)| ==> forall c :: c in Pieces(sep, text)[i] ==> c in text
  {
    if text != "" {
      PiecesFree(sep, text[1..]);
    }
  }

  lemma {:induction false} NonEmptyKeeps(pieces: seq<string>)
    ensures forall p :: p in NonEmpty(pieces) <==> p in pieces && p != ""
    ensures |NonEmpty(pieces)| <= |pieces|
  {
    if pieces != [] {
      NonEmptyKeeps(pieces[1..]);
      assert pieces == [pieces[0]] + pieces[1..];
    }
  }

  lemma {:induction false} NonEmptyAll(pieces: seq<string>)
    requires "" !in pieces
    ensures NonEmpty(pieces) == pieces
  {
    if pieces != [] {
      assert pieces[0] in pieces;
      NonEmptyAll(pieces[1..]);
    }
  }

  /** Whatever happens to empty pieces, a piece is free of the separator and made of the text's characters. */
  lemma SplitFree(keepEmpty: bool, sep: char, text: string)
    ensures forall p :: p in Split(keepEmpty, sep, text) ==> sep !in p && (forall c :: c in p ==> c in text)
    ensures !keepEmpty ==> "" !in Split(keepEmpty, sep, text)
  {
    PiecesFree(sep, text);
    NonEmptyKeeps(Pieces(sep, text));
  }

  /** Reading past one separator-free piece. */
  lemma {:induction false} PiecesStep(sep: char, head: string, rest: string)
    requires sep !in head
    ensures Pieces(sep, head) == [head]
    ensures Pieces(sep, head + [sep] + rest) == [head] + Pieces(sep, rest)
  {
    var text := head + [sep] + rest;
    if head == "" {
      assert text[1..] == rest;
    } else {
      assert text[1..] == head[1..] + [sep] + rest;
      PiecesStep(sep, head[1..], rest);
      assert [head[0]] + head[1..] == head;
    }
  }

  /** Joining separator-free parts and cutting again gives the parts back. */
  lemma {:induction false} PiecesOfJoin(sep: char, parts: seq<string>)
    requires parts != []
    requires forall i :: 0 <= i < |parts| ==> sep !in parts[i]
    ensures Pieces(sep, Join(sep, parts)) == parts
  {
    if |parts| == 1 {
      PiecesStep(sep, parts[0], "");
    } else {
      PiecesOfJoin(sep, parts[1..]);
      PiecesStep(sep, parts[0], Join(sep, parts[1..]));
    }
  }

  /** The same for the library's cut, when no part is empty or empty pieces are kept. */
  lemma SplitOfJoin(keepEmpty: bool, sep: char, parts: seq<string>)
    requires keepEmpty ==> parts != []
    requires !keepEmpty ==> "" !in parts
    requires forall i :: 0 <= i < |parts| ==> sep !in parts[i]
    ensures Split(keepEmpty, sep, Join(sep, parts)) == parts
  {
    if parts == [] {
      assert NonEmpty(Pieces(sep, "")[1..]) == [];
    } else {
      PiecesOfJoin(sep, parts);
      if !keepEmpty {
        NonEmptyAll(parts);
      }
    }
  }

  lemma {:induction false} JoinMembers(sep: char, parts: seq<string>, c: char)
    requires c in Join(sep, parts)
    ensures c == sep || exists i :: 0 <= i < |parts| && c in parts[i]
  {
    if |parts| == 1 {
      assert c in parts[0];
    } else if c !in parts[0] && c != sep {
      var rest := parts[1..];
      JoinMembers(sep, rest, c);
      var i :| 0 <= i < |rest| && c in rest[i];
      assert c in parts[i + 1];
    }
  }

  /** Where the first occurrence of a character ends a prefix, prefix and remainder are determined. */
  lemma {:induction false} FirstCutUnique(sep: char, a: string, x: string, b: string, y: string)
    requires sep !in a && sep !in b
    requires a + [sep] + x == b + [sep] + y
    ensures a == b && x == y
  {
    PiecesStep(sep, a, x);
    PiecesStep(sep, b, y);
    var s, t := a + [sep] + x, b + [sep] + y;
    assert s == t;
    assert Pieces(sep, s)[0] == a && Pieces(sep, t)[0] == b;
    assert s[|a| + 1..] == x && t[|b| + 1..] == y;
  }
}
