/** Splitting a command line at a separator (src/server.cpp:43-55). */
module SplitModel {

  function Join(pieces: seq<string>, separator: char): string
    requires pieces != []
  {
    if |pieces| == 1 then pieces[0] else pieces[0] + [separator] + Join(pieces[1..], separator)
  }

  predicate Free(piece: string, separator: char) {
    forall i :: 0 <= i < |piece| ==> piece[i] != separator
  }

  function Count(line: string, separator: char): nat {
    if line == "" then 0 else (if line[0] == separator then 1 else 0) + Count(line[1..], separator)
  }

  /** `find`: the first position of the separator at or after `from`, or -1. */
  method Find(line: string, separator: char, from: nat) returns (pos: int)
    requires from <= |line|
    ensures pos == -1 || from <= pos < |line|
    ensures pos == -1 ==> Free(line[from..], separator)
    ensures pos != -1 ==> line[pos] == separator && Free(line[from..pos], separator)
  {
    pos := from;
    while pos < |line|
      invariant from <= pos <= |line| && Free(line[from..pos], separator)
    {
      if line[pos] == separator { return; }
      assert line[from..pos + 1] == line[from..pos] + [line[pos]];
      pos := pos + 1;
    }
    assert line[from..pos] == line[from..];
    pos := -1;
  }

  lemma {:induction false} JoinAppend(pieces: seq<string>, piece: string, separator: char)
    requires pieces != []
    ensures Join(pieces + [piece], separator) == Join(pieces, separator) + [separator] + piece
    decreases |pieces|
  {
    assert (pieces + [piece])[1..] == pieces[1..] + [piece];
    if |pieces| > 1 { JoinAppend(pieces[1..], piece, separator); }
  }

  /** Joining puts the separator between pieces. */
  lemma {:induction false} JoinIs(pieces: seq<string>, piece: string, separator: char)
    ensures Join([piece], separator) == piece
    ensures pieces != [] ==> Join(pieces + [piece], separator) == Join(pieces, separator) + [separator] + piece
  {
    if pieces != [] { JoinAppend(pieces, piece, separator); }
  }

  lemma {:induction false} CountIs(line: string, separator: char)
    ensures Count(line, separator) == multiset(line)[separator]
    decreases |line|
  {
    if line != "" {
      assert line == [line[0]] + line[1..];
      CountIs(line[1..], separator);
    }
  }

  method Split(line: string, separator: char) returns (res: seq<string>)
    ensures res != [] && Join(res, separator) == line
    ensures forall i :: 0 <= i < |res| ==> Free(res[i], separator)
    ensures |res| == Count(line, separator) + 1
    ensures forall i, j :: 0 <= i < |res| && 0 <= j < |res[i]| ==> res[i][j] != separator
    ensures |res| == multiset(line)[separator] + 1
  {
    hide Join, Count;
    res := [];
    var prev := 0;
    var pos := Find(line, separator, 0);
    while pos != -1
      invariant prev <= |line| && (pos == -1 || prev <= pos < |line|)
      invariant if pos == -1 then Free(line[prev..], separator)
                else line[pos] == separator && Free(line[prev..pos], separator)
      invariant if res == [] then prev == 0 else prev >= 1 && Join(res, separator) + [separator] == line[..prev]
      invariant forall i :: 0 <= i < |res| ==> Free(res[i], separator)
      decreases |line| - prev
    {
      var piece := line[prev..pos];
      JoinIs(res, piece, separator);
      assert res == [] ==> [] + [piece] == [piece];
      assert line[..prev] + piece + [separator] == line[..pos + 1];
      res := res + [piece];
      prev := pos + 1;
      pos := Find(line, separator, prev);
    }
    JoinIs(res, line[prev..], separator);
    assert res == [] ==> [] + [line[prev..]] == [line[prev..]];
    assert line[..prev] + line[prev..] == line;
    res := res + [line[prev..]];
    CountOfJoin(res, separator);
    CountIs(line, separator);
  }

  lemma {:induction false} CountAppend(a: string, b: string, separator: char)
    ensures Count(a + b, separator) == Count(a, separator) + Count(b, separator)
    decreases |a|
  {
    if a == "" {
      assert a + b == b;
    } else {
      assert (a + b)[1..] == a[1..] + b;
      CountAppend(a[1..], b, separator);
    }
  }

  lemma {:induction false} CountFree(piece: string, separator: char)
    requires Free(piece, separator)
    ensures Count(piece, separator) == 0
    decreases |piece|
  {
    if piece != "" { CountFree(piece[1..], separator); }
  }

  lemma {:induction false} CountOfJoin(pieces: seq<string>, separator: char)
    requires pieces != [] && forall i :: 0 <= i < |pieces| ==> Free(pieces[i], separator)
    ensures Count(Join(pieces, separator), separator) == |pieces| - 1
    decreases |pieces|
  {
    CountFree(pieces[0], separator);
    if |pieces| > 1 {
      CountOfJoin(pieces[1..], separator);
      CountAppend(pieces[0] + [separator], Join(pieces[1..], separator), separator);
      CountAppend(pieces[0], [separator], separator);
    }
  }

  lemma FirstSeparator(line: string, separator: char, i: nat, j: nat)
    requires i < |line| && line[i] == separator && forall k :: 0 <= k < i ==> line[k] != separator
    requires j < |line| && line[j] == separator && forall k :: 0 <= k < j ==> line[k] != separator
    ensures i == j
  {
  }

  /** Joining is injective on lists of separator-free pieces, so splitting the
      join of such a list gives the list back. */
  lemma {:induction false} PiecesAreUnique(a: seq<string>, b: seq<string>, separator: char)
    requires a != [] && b != [] && Join(a, separator) == Join(b, separator)
    requires forall i :: 0 <= i < |a| ==> Free(a[i], separator)
    requires forall i :: 0 <= i < |b| ==> Free(b[i], separator)
    ensures a == b
    decreases |a|
  {
    CountOfJoin(a, separator);
    CountOfJoin(b, separator);
    if |a| > 1 {
      var x, y := Join(a, separator), Join(b, separator);
      assert x == a[0] + [separator] + Join(a[1..], separator) && y == b[0] + [separator] + Join(b[1..], separator);
      FirstSeparator(x, separator, |a[0]|, |b[0]|);
      assert x[..|a[0]|] == a[0] && y[..|b[0]|] == b[0];
      assert x[|a[0]| + 1..] == Join(a[1..], separator) && y[|b[0]| + 1..] == Join(b[1..], separator);
      PiecesAreUnique(a[1..], b[1..], separator);
      assert a == [a[0]] + a[1..] && b == [b[0]] + b[1..];
    }
  }

  method SplitJoined(pieces: seq<string>, separator: char) returns (res: seq<string>)
    requires pieces != [] && forall i :: 0 <= i < |pieces| ==> Free(pieces[i], separator)
    ensures res == pieces
  {
    res := Split(Join(pieces, separator), separator);
    PiecesAreUnique(res, pieces, separator);
  }
}
