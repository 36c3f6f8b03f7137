/** Matching a whole line and matching anywhere in it: what the elements read from a pattern take from the line in
    the two modes, without the elements that the tokenizer adds. */
module PatternSubstrings {
  import opened PatternLanguage
  import opened PatternTokens
  import opened PatternCases

  /** The first `n` characters of the line split into one piece per element; each piece is judged with the real rest
      of the line behind it. */
  ghost predicate Covers(p: seq<Elem>, line: string, n: nat)
    requires n <= |line|
  {
    if p == [] then n == 0 else exists m :: 0 <= m <= n && CoversWith(p, line, n, m)
  }

  ghost predicate CoversWith(p: seq<Elem>, line: string, n: nat, m: nat)
    requires p != [] && m <= n <= |line|
  {
    Piece(p[0], line[..m], line[m..]) && Covers(p[1..], line[m..], n - m)
  }

  ghost predicate CoversAt(p: seq<Elem>, line: string, i: nat, j: nat)
    requires i <= j <= |line|
  {
    Covers(p, line[i..], j - i)
  }

  /** The elements take the whole line, or some part of it. */
  ghost predicate Found(p: seq<Elem>, fullstring: bool, line: string) {
    if fullstring then Covers(p, line, |line|)
    else exists i, j :: 0 <= i <= j <= |line| && CoversAt(p, line, i, j)
  }

  ghost predicate Both(p: seq<Elem>, q: seq<Elem>, line: string, n: nat)
    requires n <= |line|
  {
    Covers(p, line, n) && InLanguage(q, line[n..])
  }

  /** A line of the language of two patterns in a row splits between them. */
  lemma {:induction false} SplitsBetween(p: seq<Elem>, q: seq<Elem>, line: string)
    ensures InLanguage(p + q, line) <==> exists n :: 0 <= n <= |line| && Both(p, q, line, n)
    decreases |p|
  {
    hide InLanguage, Piece;
    if p == [] {
      assert p + q == q && line[0..] == line;
      assert InLanguage(q, line) <==> Both(p, q, line, 0);
    } else {
      assert (p + q)[0] == p[0] && (p + q)[1..] == p[1..] + q;
      FirstPiece(p + q, line);
      if m :| 0 <= m <= |line| && Takes(p + q, line, m) {
        SplitsBetween(p[1..], q, line[m..]);
        var k :| 0 <= k <= |line| - m && Both(p[1..], q, line[m..], k);
        assert line[m..][k..] == line[m + k..];
        assert CoversWith(p, line, m + k, m) && Both(p, q, line, m + k);
      }
      if n :| 0 <= n <= |line| && Both(p, q, line, n) {
        assert Covers(p, line, n);
        var m :| 0 <= m <= n && CoversWith(p, line, n, m);
        assert line[m..][n - m..] == line[n..];
        assert Both(p[1..], q, line[m..], n - m);
        SplitsBetween(p[1..], q, line[m..]);
        assert Takes(p + q, line, m);
      }
    }
  }

  /** END behind the elements asks for the whole line. */
  lemma WholeLine(p: seq<Elem>, line: string)
    ensures InLanguage(p + [End], line) <==> Covers(p, line, |line|)
  {
    hide InLanguage, Covers;
    SplitsBetween(p, [End], line);
    forall n | 0 <= n <= |line|
      ensures Both(p, [End], line, n) <==> n == |line| && Covers(p, line, n)
    {
      EndIsEmpty(line[n..]);
    }
  }

  /** ** behind the elements leaves the end open. */
  lemma OpenEnd(p: seq<Elem>, line: string)
    ensures InLanguage(p + [AnySeq, End], line) <==> exists n :: 0 <= n <= |line| && Covers(p, line, n)
  {
    hide InLanguage, Covers;
    var q := [AnySeq, End];
    SplitsBetween(p, q, line);
    forall n | 0 <= n <= |line|
      ensures Both(p, q, line, n) <==> Covers(p, line, n)
    {
      AnySeqEnd(line[n..]);
    }
    if InLanguage(p + q, line) {
      var n :| 0 <= n <= |line| && Both(p, q, line, n);
      assert Covers(p, line, n);
    }
  }

  /** ** before a pattern leaves the beginning open. */
  lemma OpenBeginning(q: seq<Elem>, line: string)
    ensures InLanguage([AnySeq] + q, line) <==> exists i :: 0 <= i <= |line| && InLanguage(q, line[i..])
  {
    hide InLanguage;
    FirstPiece([AnySeq] + q, line);
    assert ([AnySeq] + q)[1..] == q;
    forall i | 0 <= i <= |line|
      ensures Takes([AnySeq] + q, line, i) <==> InLanguage(q, line[i..])
    {
    }
  }

  /** A last ** takes as much more as is wanted. */
  lemma {:induction false} StretchEnd(p: seq<Elem>, line: string, n: nat, more: nat)
    requires p != [] && p[|p| - 1] == AnySeq && n <= more <= |line| && Covers(p, line, n)
    ensures Covers(p, line, more)
    decreases |p|
  {
    var m :| 0 <= m <= n && CoversWith(p, line, n, m);
    if |p| == 1 {
      assert CoversWith(p, line, more, more);
    } else {
      hide Piece;
      StretchEnd(p[1..], line[m..], n - m, more - m);
      assert CoversWith(p, line, more, m);
    }
  }

  /** A first ** takes all that stands before. */
  lemma StretchBeginning(p: seq<Elem>, line: string, i: nat, j: nat)
    requires p != [] && p[0] == AnySeq && i <= j <= |line| && CoversAt(p, line, i, j)
    ensures Covers(p, line, j)
  {
    var m :| 0 <= m <= j - i && CoversWith(p, line[i..], j - i, m);
    assert line[i..][m..] == line[i + m..];
    assert CoversWith(p, line, j, i + m);
  }

  function OpenAtEnd(p: seq<Elem>): seq<Elem> {
    if p != [] && p[|p| - 1] == AnySeq then p else p + [AnySeq]
  }

  lemma EndIsOpen(p: seq<Elem>, line: string)
    ensures InLanguage(OpenAtEnd(p) + [End], line) <==> exists n :: 0 <= n <= |line| && Covers(p, line, n)
  {
    hide InLanguage, Covers;
    if p != [] && p[|p| - 1] == AnySeq {
      WholeLine(p, line);
      forall n | 0 <= n <= |line| && Covers(p, line, n)
        ensures Covers(p, line, |line|)
      {
        StretchEnd(p, line, n, |line|);
      }
    } else {
      assert p + [AnySeq] + [End] == p + [AnySeq, End];
      OpenEnd(p, line);
    }
  }

  /** The pattern as the tokenizer completes it matches a line exactly when the elements it has read take the whole
      line, or any part of it in substring mode. */
  lemma CompleteFinds(p: seq<Elem>, fullstring: bool, line: string)
    ensures InLanguage(Complete(p, fullstring), line) <==> Found(p, fullstring, line)
  {
    if fullstring {
      WholeLine(p, line);
    } else {
      PartIsFound(p, line);
    }
  }

  lemma PartIsFound(p: seq<Elem>, line: string)
    ensures InLanguage(Complete(p, false), line) <==> Found(p, false, line)
  {
    hide InLanguage;
    var q := OpenAtEnd(p) + [End];
    if p == [] {
      EndIsOpen(p, line);
      assert Covers(p, line, 0) && CoversAt(p, line, 0, 0);
    } else if p[0] == AnySeq {
      hide Covers;
      EndIsOpen(p, line);
      if n :| 0 <= n <= |line| && Covers(p, line, n) {
        assert line[0..] == line;
        assert CoversAt(p, line, 0, n);
      }
      if i, j :| 0 <= i <= j <= |line| && CoversAt(p, line, i, j) {
        StretchBeginning(p, line, i, j);
        assert Covers(p, line, j);
      }
    } else {
      hide Covers;
      assert Complete(p, false) == [AnySeq] + q;
      OpenBeginning(q, line);
      if i :| 0 <= i <= |line| && InLanguage(q, line[i..]) {
        EndIsOpen(p, line[i..]);
        var n :| 0 <= n <= |line| - i && Covers(p, line[i..], n);
        assert CoversAt(p, line, i, i + n);
      }
      if i, j :| 0 <= i <= j <= |line| && CoversAt(p, line, i, j) {
        EndIsOpen(p, line[i..]);
        assert Covers(p, line[i..], j - i);
      }
    }
  }

  /** What an element takes when case does not matter: literals and the bounds of sets are compared in upper case. */
  ghost predicate PieceInAnyCase(e: Elem, piece: string, rest: string) {
    match e
    case LiteralString(text) => Uppercase(piece) == Uppercase(text)
    case CharSet(ranges) => |piece| == 1 && InRangesInAnyCase(piece[0], ranges)
    case NegSet(ranges) => |piece| == 1 && !InRangesInAnyCase(piece[0], ranges)
    case _ => Piece(e, piece, rest)
  }

  ghost predicate InRangesInAnyCase(c: char, ranges: string) {
    exists i :: 0 <= i && 2 * i + 1 < |ranges| && Upper(ranges[2 * i]) <= Upper(c) <= Upper(ranges[2 * i + 1])
  }

  ghost predicate CoversInAnyCase(p: seq<Elem>, line: string, n: nat)
    requires n <= |line|
  {
    if p == [] then n == 0 else exists m :: 0 <= m <= n && CoversWithInAnyCase(p, line, n, m)
  }

  ghost predicate CoversWithInAnyCase(p: seq<Elem>, line: string, n: nat, m: nat)
    requires p != [] && m <= n <= |line|
  {
    PieceInAnyCase(p[0], line[..m], line[m..]) && CoversInAnyCase(p[1..], line[m..], n - m)
  }

  ghost predicate CoversAtInAnyCase(p: seq<Elem>, line: string, i: nat, j: nat)
    requires i <= j <= |line|
  {
    CoversInAnyCase(p, line[i..], j - i)
  }

  /** The elements take the whole line, or some part of it, whatever the case of its letters. */
  ghost predicate FoundInAnyCase(p: seq<Elem>, fullstring: bool, line: string) {
    if fullstring then CoversInAnyCase(p, line, |line|)
    else exists i, j :: 0 <= i <= j <= |line| && CoversAtInAnyCase(p, line, i, j)
  }

  lemma SetInAnyCase(ranges: string, c: char)
    ensures InRanges(Upper(c), Uppercase(ranges)) <==> InRangesInAnyCase(c, ranges)
  {
    hide Upper;
    if InRanges(Upper(c), Uppercase(ranges)) {
      var i :| 0 <= i && 2 * i + 1 < |ranges| &&
        Uppercase(ranges)[2 * i] <= Upper(c) <= Uppercase(ranges)[2 * i + 1];
      assert Upper(ranges[2 * i]) <= Upper(c) <= Upper(ranges[2 * i + 1]);
    }
    if i :| 0 <= i && 2 * i + 1 < |ranges| && Upper(ranges[2 * i]) <= Upper(c) <= Upper(ranges[2 * i + 1]) {
      assert Uppercase(ranges)[2 * i] <= Upper(c) <= Uppercase(ranges)[2 * i + 1];
    }
  }

  /** A span of a set keeps all its characters when case is ignored exactly unless one end is a lower-case letter or
      behind them and the other before them, but for the span around all letters. */
  lemma SpanInAnyCaseExactly(from: char, to: char)
    ensures (forall c: char | from <= c <= to :: Upper(from) <= Upper(c) <= Upper(to)) <==>
            from > to || to < 'a' || 'a' <= from || (from <= 'A' && 'z' < to)
  {
    if from < 'a' <= to {
      assert Upper('a') == 'A' && Upper('`') == '`';
      assert from <= 'a' <= to && from <= '`' <= to;
    }
  }

  /** Digits are seen as they are. */
  lemma DigitsInAnyCase(s: string)
    ensures (forall c | c in s :: IsDigit(c)) ==> Uppercase(s) == s
    ensures (forall c | c in Uppercase(s) :: IsDigit(c)) ==> Uppercase(s) == s
  {
    if (forall c | c in s :: IsDigit(c)) || forall c | c in Uppercase(s) :: IsDigit(c) {
      forall i | 0 <= i < |s|
        ensures Uppercase(s)[i] == s[i]
      {
        assert s[i] in s && Uppercase(s)[i] in Uppercase(s);
        ViewKeeps(false, s, i);
      }
    }
  }

  /** An element as it is stored and sought takes what it takes in any case. */
  lemma StoredTakesAnyCase(e: Elem, piece: string, rest: string)
    ensures Piece(SoughtElem(false, StoredElem(false, e)), Uppercase(piece), Uppercase(rest)) <==>
            PieceInAnyCase(e, piece, rest)
  {
    hide Upper;
    if |piece| == 1 {
      ViewKeeps(false, piece, 0);
    }
    match e {
      case CharSet(ranges) => if |piece| == 1 { SetInAnyCase(ranges, piece[0]); }
      case NegSet(ranges) => if |piece| == 1 { SetInAnyCase(ranges, piece[0]); }
      case NumRange(from, to) =>
        DigitsInAnyCase(piece);
        if rest != "" {
          ViewKeeps(false, rest, 0);
        }
      case CommonSeq => DotsInAnyCase(piece);
      case _ =>
    }
  }

  lemma DotsInAnyCase(s: string)
    ensures '.' in Uppercase(s) <==> '.' in s
  {
    forall i | 0 <= i < |s|
      ensures Uppercase(s)[i] == '.' <==> s[i] == '.'
    {
      ViewKeeps(false, s, i);
    }
    if '.' in s {
      var i :| 0 <= i < |s| && s[i] == '.';
      assert Uppercase(s)[i] == '.';
    }
  }

  function Sees(p: seq<Elem>): (q: seq<Elem>)
    ensures |q| == |p| && forall k | 0 <= k < |p| :: q[k] == SoughtElem(false, StoredElem(false, p[k]))
  {
    Sought(false, Stored(false, p))
  }

  lemma SeesRest(p: seq<Elem>)
    requires p != []
    ensures Sees(p)[1..] == Sees(p[1..])
  {
  }

  lemma {:induction false} CoveredInAnyCase(p: seq<Elem>, line: string, n: nat)
    requires n <= |line|
    ensures Covers(Sees(p), Uppercase(line), n) <==> CoversInAnyCase(p, line, n)
    decreases |p|
  {
    if p != [] {
      hide Uppercase, SoughtElem, StoredElem, Piece, PieceInAnyCase;
      SeesRest(p);
      hide Sees;
      var seen := Uppercase(line);
      forall m | 0 <= m <= n
        ensures CoversWith(Sees(p), seen, n, m) <==> CoversWithInAnyCase(p, line, n, m)
      {
        ViewOfRest(false, line, m);
        StoredTakesAnyCase(p[0], line[..m], line[m..]);
        CoveredInAnyCase(p[1..], line[m..], n - m);
      }
    }
  }

  lemma FoundAsSeen(p: seq<Elem>, fullstring: bool, line: string)
    ensures Found(Sees(p), fullstring, Uppercase(line)) <==> FoundInAnyCase(p, fullstring, line)
  {
    hide Covers, CoversInAnyCase, Uppercase, Sees;
    if fullstring {
      CoveredInAnyCase(p, line, |line|);
    } else {
      forall i, j | 0 <= i <= j <= |line|
        ensures CoversAt(Sees(p), Uppercase(line), i, j) <==> CoversAtInAnyCase(p, line, i, j)
      {
        ViewOfRest(false, line, i);
        CoveredInAnyCase(p, line[i..], j - i);
      }
    }
  }
}
