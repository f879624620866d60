/** Plain splitting of a string at separator characters: what the cursors compute. */
module Text {

  /** Stands for `std::string::npos`, which is outside every string. */
  const NPOS: int := -1

  predicate Free(s: string, separators: set<char>) {
    forall k :: 0 <= k < |s| ==> s[k] !in separators
  }

  /** `find` / `find_first_of`: the first separator at or after `from`. */
  function FindFirstOf(s: string, separators: set<char>, from: nat): (r: int)
    ensures r == NPOS ==> forall k :: from <= k < |s| ==> s[k] !in separators
    ensures r != NPOS ==> from <= r < |s| && s[r] in separators
    ensures r != NPOS ==> forall k :: from <= k < r ==> s[k] !in separators
    decreases |s| - from
  {
    if from >= |s| then NPOS
    else if s[from] in separators then from
    else FindFirstOf(s, separators, from + 1)
  }

  /** The pieces between separators; one final empty piece is dropped. */
  function Fields(s: string, separators: set<char>): seq<string>
    decreases |s|
  {
    if s == "" then []
    else
      var i := FindFirstOf(s, separators, 0);
      if i == NPOS then [s] else [s[..i]] + Fields(s[i + 1..], separators)
  }

  /** Pieces with a separator character after each, the last of which may be missing. */
  function Separate(pieces: seq<string>, marks: seq<char>): string
    requires |marks| <= |pieces| <= |marks| + 1
  {
    if pieces == [] then ""
    else if marks == [] then pieces[0]
    else pieces[0] + [marks[0]] + Separate(pieces[1..], marks[1..])
  }

  predicate EndsWith(s: string, mark: char) {
    s != "" && s[|s| - 1] == mark
  }

  /** Pieces joined by one separator character, which also closes the text if `closed`. */
  function Join(pieces: seq<string>, mark: char, closed: bool): string {
    if pieces == [] then ""
    else if |pieces| == 1 then if closed then pieces[0] + [mark] else pieces[0]
    else pieces[0] + [mark] + Join(pieces[1..], mark, closed)
  }

  lemma ConcatIsAssociative<T>(a: seq<T>, b: seq<T>, c: seq<T>)
    ensures a + b + c == a + (b + c)
  {
  }

  lemma FindSkipsFreeText(piece: string, rest: string, separators: set<char>, mark: char)
    requires Free(piece, separators) && mark in separators
    ensures FindFirstOf(piece + [mark] + rest, separators, 0) == |piece|
  {
    var s := piece + [mark] + rest;
    var r := FindFirstOf(s, separators, 0);
    assert s[|piece|] == mark;
    assert forall k :: 0 <= k < |piece| ==> s[k] == piece[k];
  }

  lemma FieldsOfNothing(separators: set<char>)
    ensures Fields("", separators) == []
  {
  }

  lemma FieldsUnfold(s: string, separators: set<char>)
    requires s != ""
    ensures var i := FindFirstOf(s, separators, 0);
            Fields(s, separators) == if i == NPOS then [s] else [s[..i]] + Fields(s[i + 1..], separators)
  {
  }

  /** Fields, one step at a time from a piece and its separator. */
  lemma FieldsOfTerminatedPiece(piece: string, rest: string, separators: set<char>, mark: char)
    requires Free(piece, separators) && mark in separators
    ensures Fields(piece + [mark] + rest, separators) == [piece] + Fields(rest, separators)
  {
    var s := piece + [mark] + rest;
    FindSkipsFreeText(piece, rest, separators, mark);
    assert s[..|piece|] == piece;
    assert s[|piece| + 1..] == rest;
  }

  lemma FieldsOfLastPiece(piece: string, separators: set<char>)
    requires Free(piece, separators) && piece != ""
    ensures Fields(piece, separators) == [piece]
  {
    FieldsUnfold(piece, separators);
  }

  /**
    Splitting undoes separating: pieces without separators come back, empty ones included, unless the
    last one is empty and not closed.
   */
  lemma {:induction false} FieldsOfSeparate(pieces: seq<string>, marks: seq<char>, separators: set<char>)
    requires |marks| <= |pieces| <= |marks| + 1
    requires forall i :: 0 <= i < |pieces| ==> Free(pieces[i], separators)
    requires forall i :: 0 <= i < |marks| ==> marks[i] in separators
    requires |pieces| == |marks| + 1 ==> pieces[|marks|] != ""
    ensures Fields(Separate(pieces, marks), separators) == pieces
  {
    hide Fields;
    if pieces == [] {
      FieldsOfNothing(separators);
    } else if marks == [] {
      FieldsOfLastPiece(pieces[0], separators);
    } else {
      FieldsOfTerminatedPiece(pieces[0], Separate(pieces[1..], marks[1..]), separators, marks[0]);
      FieldsOfSeparate(pieces[1..], marks[1..], separators);
    }
  }

  /** And separating undoes splitting: every text is its pieces with some separators after them. */
  lemma {:induction false} SeparateFields(s: string, separators: set<char>) returns (marks: seq<char>)
    ensures |marks| <= |Fields(s, separators)| <= |marks| + 1
    ensures forall i :: 0 <= i < |marks| ==> marks[i] in separators
    ensures |Fields(s, separators)| == |marks| + 1 ==> Fields(s, separators)[|marks|] != ""
    ensures Separate(Fields(s, separators), marks) == s
    decreases |s|
  {
    marks := [];
    if s != "" {
      var i := FindFirstOf(s, separators, 0);
      if i != NPOS {
        var rest := SeparateFields(s[i + 1..], separators);
        marks := [s[i]] + rest;
        SeparateStep(s, i, separators, rest);
      }
    }
  }

  lemma SeparateStep(s: string, i: nat, separators: set<char>, rest: seq<char>)
    requires i == FindFirstOf(s, separators, 0)
    requires var tail := Fields(s[i + 1..], separators);
             |rest| <= |tail| <= |rest| + 1 && Separate(tail, rest) == s[i + 1..]
    ensures var pieces, marks := Fields(s, separators), [s[i]] + rest;
            && pieces == [s[..i]] + Fields(s[i + 1..], separators)
            && |marks| <= |pieces| <= |marks| + 1 && Separate(pieces, marks) == s
  {
    var pieces, marks := Fields(s, separators), [s[i]] + rest;
    assert pieces[1..] == Fields(s[i + 1..], separators) && marks[1..] == rest;
    assert s == s[..i] + [s[i]] + s[i + 1..];
  }

  /** No piece ever contains a separator. */
  lemma {:induction false} FieldsAreFree(s: string, separators: set<char>)
    ensures forall i :: 0 <= i < |Fields(s, separators)| ==> Free(Fields(s, separators)[i], separators)
    decreases |s|
  {
    if s != "" {
      var i := FindFirstOf(s, separators, 0);
      if i != NPOS {
        FieldsAreFree(s[i + 1..], separators);
        assert Free(s[..i], separators);
      } else {
        assert Free(s, separators);
      }
    }
  }

  /** Joining undoes splitting: with one separator character, every text is rebuilt. */
  lemma {:induction false} JoinOfFields(s: string, mark: char)
    ensures Join(Fields(s, {mark}), mark, EndsWith(s, mark)) == s
    decreases |s|
  {
    if s != "" {
      var i := FindFirstOf(s, {mark}, 0);
      if i != NPOS {
        var rest := s[i + 1..];
        JoinOfFields(rest, mark);
        assert s == s[..i] + [mark] + rest;
        if rest != "" {
          assert EndsWith(s, mark) == EndsWith(rest, mark);
          assert Fields(s, {mark})[1..] == Fields(rest, {mark});
        } else {
          assert EndsWith(s, mark);
        }
      } else {
        assert s[|s| - 1] != mark;
      }
    }
  }

  /** One more separator at the end of a text adds an empty piece, or nothing. */
  lemma {:induction false} FieldsOfClosed(s: string, mark: char)
    ensures Fields(s + [mark], {mark})
         == if s == "" || EndsWith(s, mark) then Fields(s, {mark}) + [""] else Fields(s, {mark})
    decreases |s|
  {
    hide Fields;
    var i := FindFirstOf(s, {mark}, 0);
    if i == NPOS {
      FieldsOfClosedPiece(s, mark);
    } else {
      FieldsOfClosedStep(s, mark, i);
      FieldsUnfold(s, {mark});
      FieldsOfNothing({mark});
      var rest := s[i + 1..];
      assert EndsWith(s, mark) == (rest == "" || EndsWith(rest, mark));
      FieldsOfClosed(rest, mark);
    }
  }

  lemma FieldsOfClosedPiece(s: string, mark: char)
    requires FindFirstOf(s, {mark}, 0) == NPOS
    ensures Fields(s + [mark], {mark}) == [s]
    ensures !EndsWith(s, mark) && Fields(s, {mark}) == if s == "" then [] else [s]
  {
    FieldsOfTerminatedPiece(s, "", {mark}, mark);
    assert s + [mark] + "" == s + [mark];
  }

  lemma Splice(s: string, i: nat, tail: string)
    requires i < |s|
    ensures s + tail == s[..i] + [s[i]] + (s[i + 1..] + tail)
  {
  }

  lemma FieldsOfClosedStep(s: string, mark: char, i: nat)
    requires i == FindFirstOf(s, {mark}, 0)
    ensures Fields(s + [mark], {mark}) == [s[..i]] + Fields(s[i + 1..] + [mark], {mark})
  {
    FieldsOfTerminatedPiece(s[..i], s[i + 1..] + [mark], {mark}, mark);
    Splice(s, i, [mark]);
  }
}
