/** Glob patterns as sequences of elements, and the language they describe. */
module PatternLanguage {

  /** A C string: no terminator inside. */
  type CString = s: string | '\0' !in s

  datatype Elem =
    | LiteralString(text: string)
    | AnyChar
    | CommonChar // any character but '.'
    | CharSet(ranges: string) // pairs of characters, each pair a range
    | NegSet(ranges: string)
    | NumRange(from: int, to: int) // -1 means unset
    | AnySeq
    | CommonSeq // any characters but '.'
    | End

  predicate IsDigit(c: char) {
    '0' <= c <= '9'
  }

  /** The number a run of digits stands for. */
  function Number(digits: string): nat
    requires forall c | c in digits :: IsDigit(c)
  {
    if digits == "" then 0
    else
      assert IsDigit(digits[|digits| - 1]);
      10 * Number(digits[..|digits| - 1]) + (digits[|digits| - 1] as int - '0' as int)
  }

  ghost predicate InRanges(c: char, ranges: string) {
    exists i :: 0 <= i && 2 * i + 1 < |ranges| && ranges[2 * i] <= c <= ranges[2 * i + 1]
  }

  /** `piece` is in the language of the element; `rest` is what follows it in the line.  A numeric
      range takes a whole run of digits: the digits must not go on. */
  ghost predicate Piece(e: Elem, piece: string, rest: string) {
    match e
    case LiteralString(text) => piece == text
    case AnyChar => |piece| == 1
    case CommonChar => |piece| == 1 && piece[0] != '.'
    case CharSet(ranges) => |piece| == 1 && InRanges(piece[0], ranges)
    case NegSet(ranges) => |piece| == 1 && !InRanges(piece[0], ranges)
    case NumRange(from, to) =>
      && piece != "" && (forall c | c in piece :: IsDigit(c)) && (rest == "" || !IsDigit(rest[0]))
      && (from >= 0 ==> from <= Number(piece)) && (to >= 0 ==> Number(piece) <= to)
    case AnySeq => true
    case CommonSeq => '.' !in piece
    case End => piece == "" && rest == ""
  }

  /** The line splits into one piece per element. */
  ghost predicate Splits(p: seq<Elem>, pieces: seq<string>, line: string) {
    && |pieces| == |p|
    && if p == [] then line == "" else
      && pieces[0] <= line
      && Piece(p[0], pieces[0], line[|pieces[0]|..])
      && Splits(p[1..], pieces[1..], line[|pieces[0]|..])
  }

  ghost predicate InLanguage(p: seq<Elem>, line: string) {
    exists pieces :: Splits(p, pieces, line)
  }

  /** A line is in the language when some prefix is a piece of the first element and the rest is in
      the language of the others. */
  lemma FirstPiece(p: seq<Elem>, line: string)
    requires p != []
    ensures InLanguage(p, line) <==> exists n :: 0 <= n <= |line| && Takes(p, line, n)
  {
    if InLanguage(p, line) {
      var pieces :| Splits(p, pieces, line);
      var n := |pieces[0]|;
      assert line[..n] == pieces[0];
      assert Splits(p[1..], pieces[1..], line[n..]);
      assert Takes(p, line, n);
    }
    if n :| 0 <= n <= |line| && Takes(p, line, n) {
      TakesIsIn(p, line, n);
    }
  }

  ghost predicate Takes(p: seq<Elem>, line: string, n: nat)
    requires p != [] && n <= |line|
  {
    Piece(p[0], line[..n], line[n..]) && InLanguage(p[1..], line[n..])
  }

  lemma TakesIsIn(p: seq<Elem>, line: string, n: nat)
    requires p != [] && n <= |line| && Takes(p, line, n)
    ensures InLanguage(p, line)
  {
    var tail :| Splits(p[1..], tail, line[n..]);
    var pieces := [line[..n]] + tail;
    assert pieces[1..] == tail;
    assert Splits(p, pieces, line);
  }

  /** When only a prefix of length `n` can be a piece, the first element takes exactly that. */
  lemma OnlyPiece(p: seq<Elem>, line: string, n: nat)
    requires p != [] && n <= |line|
    requires forall m | 0 <= m <= |line| && m != n :: !Piece(p[0], line[..m], line[m..])
    ensures InLanguage(p, line) <==> Takes(p, line, n)
  {
    FirstPiece(p, line);
  }

  lemma NoPiece(p: seq<Elem>, line: string)
    requires p != []
    requires forall m | 0 <= m <= |line| :: !Piece(p[0], line[..m], line[m..])
    ensures !InLanguage(p, line)
  {
    FirstPiece(p, line);
  }

  /** A pattern as setPattern leaves it: END last and nowhere else. */
  ghost predicate WellFormed(p: seq<Elem>) {
    p != [] && p[|p| - 1] == End && End !in p[..|p| - 1]
  }

  /** What the matcher relies on: also, that sets hold whole pairs. */
  ghost predicate Usable(p: seq<Elem>) {
    WellFormed(p) && forall k | 0 <= k < |p| :: WholePairs(p[k])
  }

  ghost predicate WholePairs(e: Elem) {
    e.CharSet? || e.NegSet? ==> |e.ranges| % 2 == 0
  }

  lemma EndIsEmpty(line: string)
    ensures InLanguage([End], line) <==> line == ""
  {
    if line == "" {
      assert Splits([End], [""], line);
    } else {
      forall m | 0 <= m <= |line|
        ensures !Piece(End, line[..m], line[m..])
      {
        assert line == line[..m] + line[m..];
      }
      NoPiece([End], line);
    }
  }

  /** The trailing ** shortcut: whatever is left matches. */
  lemma AnySeqEnd(line: string)
    ensures InLanguage([AnySeq, End], line)
  {
    EndIsEmpty("");
    assert [AnySeq, End][1..] == [End] && line[|line|..] == "";
    TakesIsIn([AnySeq, End], line, |line|);
  }

  ghost predicate EndsWith(line: string, text: string) {
    |line| >= |text| && line[|line| - |text|..] == text
  }

  /** The suffix shortcut: ** followed by a last literal matches exactly the lines that end in it. */
  lemma AnySeqLiteralEnd(line: string, text: string)
    ensures InLanguage([AnySeq, LiteralString(text), End], line) <==> EndsWith(line, text)
  {
    var p := [AnySeq, LiteralString(text), End];
    assert p[1..] == [LiteralString(text), End];
    if EndsWith(line, text) {
      LiteralEnd(text, line[|line| - |text|..]);
      TakesIsIn(p, line, |line| - |text|);
    }
    if InLanguage(p, line) {
      FirstPiece(p, line);
      var n :| 0 <= n <= |line| && Takes(p, line, n);
      LiteralEnd(text, line[n..]);
    }
  }

  lemma LiteralEnd(text: string, line: string)
    ensures InLanguage([LiteralString(text), End], line) <==> line == text
  {
    var p := [LiteralString(text), End];
    assert p[1..] == [End];
    if line == text {
      EndIsEmpty("");
      TakesIsIn(p, line, |line|);
    }
    if InLanguage(p, line) {
      FirstPiece(p, line);
      var n :| 0 <= n <= |line| && Takes(p, line, n);
      EndIsEmpty(line[n..]);
    }
  }

  /** A pattern whose last element before END is a literal only matches lines that end in it. */
  lemma {:induction false} LastLiteralIsSuffix(p: seq<Elem>, text: string, line: string)
    requires |p| >= 2 && p[|p| - 2..] == [LiteralString(text), End] && InLanguage(p, line)
    ensures EndsWith(line, text)
  {
    if |p| == 2 {
      assert p == [LiteralString(text), End];
      LiteralEnd(text, line);
    } else {
      FirstPiece(p, line);
      var n :| 0 <= n <= |line| && Takes(p, line, n);
      assert p[1..][|p| - 3..] == p[|p| - 2..];
      LastLiteralIsSuffix(p[1..], text, line[n..]);
      var r := line[n..];
      assert line[|line| - |text|..] == r[|r| - |text|..];
    }
  }
}
