/** Matching without regard to case, and matching with the end of the last literal cut off: what the matcher
    looks for in these modes, and where its suffix shortcut, which knows neither mode, changes the answer. */
module PatternCases {
  import opened PatternLanguage
  import opened PatternTokens

  /** toupper in the C locale. */
  function Upper(c: char): char {
    if 'a' <= c <= 'z' then (c as int - 'a' as int + 'A' as int) as char else c
  }

  function Uppercase(s: string): (u: string)
    ensures |u| == |s| && forall i | 0 <= i < |s| :: u[i] == Upper(s[i])
  {
    seq(|s|, i requires 0 <= i < |s| => Upper(s[i]))
  }

  /** A text as the matcher sees it. */
  function View(casesensitive: bool, s: string): (v: string)
    ensures |v| == |s|
  {
    if casesensitive then s else Uppercase(s)
  }

  lemma ViewAppend(casesensitive: bool, a: string, b: string)
    ensures View(casesensitive, a + b) == View(casesensitive, a) + View(casesensitive, b)
    ensures View(casesensitive, "") == ""
  {
    hide Upper;
    var u, v := Uppercase(a + b), Uppercase(a) + Uppercase(b);
    forall i | 0 <= i < |u|
      ensures u[i] == v[i]
    {
      assert i < |a| ==> (a + b)[i] == a[i];
    }
  }

  lemma ViewOfRest(casesensitive: bool, s: string, i: nat)
    requires i <= |s|
    ensures View(casesensitive, s[i..]) == View(casesensitive, s)[i..]
    ensures View(casesensitive, s[..i]) == View(casesensitive, s)[..i]
  {
  }

  /** Only letters have another case. */
  lemma ViewKeeps(casesensitive: bool, s: string, i: nat)
    requires i < |s|
    ensures var v := View(casesensitive, s)[i];
      && v == (if casesensitive then s[i] else Upper(s[i]))
      && (v == '.' <==> s[i] == '.') && (IsDigit(v) <==> IsDigit(s[i])) && (IsDigit(s[i]) ==> v == s[i])
  {
  }

  /** setPattern stores the sets of a case-insensitive pattern in upper case. */
  function StoredElem(casesensitive: bool, e: Elem): Elem {
    match e
    case CharSet(ranges) => CharSet(View(casesensitive, ranges))
    case NegSet(ranges) => NegSet(View(casesensitive, ranges))
    case _ => e
  }

  function Stored(casesensitive: bool, p: seq<Elem>): (q: seq<Elem>)
    ensures |q| == |p| && forall k | 0 <= k < |p| :: q[k] == StoredElem(casesensitive, p[k])
  {
    seq(|p|, k requires 0 <= k < |p| => StoredElem(casesensitive, p[k]))
  }

  /** The literals are compared in upper case. */
  function SoughtElem(casesensitive: bool, e: Elem): Elem {
    if e.LiteralString? then LiteralString(View(casesensitive, e.text)) else e
  }

  function Sought(casesensitive: bool, p: seq<Elem>): (q: seq<Elem>)
    ensures |q| == |p| && forall k | 0 <= k < |p| :: q[k] == SoughtElem(casesensitive, p[k])
  {
    seq(|p|, k requires 0 <= k < |p| => SoughtElem(casesensitive, p[k]))
  }

  predicate EndsInLiteral(p: seq<Elem>) {
    |p| >= 2 && p[|p| - 2].LiteralString? && p[|p| - 1] == End
  }

  function LastText(p: seq<Elem>): string
    requires EndsInLiteral(p)
  {
    p[|p| - 2].text
  }

  /** The pattern ends in ** and a literal: then the matcher only looks at the end of the line. */
  predicate Shortcut(p: seq<Elem>) {
    EndsInLiteral(p) && |p| >= 3 && p[|p| - 3] == AnySeq
  }

  /** The pattern without the last `n` characters of its last literal. */
  function Cut(p: seq<Elem>, n: nat): (q: seq<Elem>)
    requires n > 0 ==> EndsInLiteral(p) && n <= |LastText(p)|
    ensures |q| == |p|
  {
    if n == 0 then p else p[|p| - 2 := LiteralString(LastText(p)[..|LastText(p)| - n])]
  }

  /** What the matcher looks for from element `k` on: the shortcut ignores what is cut off. */
  ghost function Wanted(p: seq<Elem>, casesensitive: bool, suffixlen: nat): (q: seq<Elem>)
    requires suffixlen > 0 ==> EndsInLiteral(p) && suffixlen <= |LastText(p)|
    ensures |q| == |p|
  {
    Sought(casesensitive, if Shortcut(p) then p else Cut(p, suffixlen))
  }

  /** The answer of the matcher: the rest of the line is in the language, and the shortcut also looks at the case. */
  ghost predicate Answer(p: seq<Elem>, casesensitive: bool, suffixlen: nat, line: string, start: nat, from: nat)
    requires suffixlen > 0 ==> EndsInLiteral(p) && suffixlen <= |LastText(p)|
    requires start <= |line| && from < |p|
  {
    && InLanguage(Wanted(p, casesensitive, suffixlen)[from..], View(casesensitive, line)[start..])
    && (Shortcut(p) ==> EndsWith(line, LastText(p)))
  }

  /** What is wanted at element `k`, when the shortcut does not come before it. */
  lemma WantedAt(p: seq<Elem>, casesensitive: bool, suffixlen: nat, k: nat)
    requires suffixlen > 0 ==> EndsInLiteral(p) && suffixlen <= |LastText(p)|
    requires k < |p| && (Shortcut(p) ==> k <= |p| - 3)
    ensures var wanted := Wanted(p, casesensitive, suffixlen);
      && wanted[k..] == [wanted[k]] + wanted[k + 1..]
      && if p[k].LiteralString? then
           var n := if k == |p| - 2 then suffixlen else 0;
           (n > 0 ==> p[k].text == LastText(p)) &&
           wanted[k] == LiteralString(View(casesensitive, p[k].text[..|p[k].text| - n]))
         else wanted[k] == p[k]
  {
    if p[k].LiteralString? {
      assert p[k].text[..|p[k].text|] == p[k].text;
    }
  }

  /** What is wanted from the shortcut on. */
  lemma WantedShortcut(p: seq<Elem>, casesensitive: bool, suffixlen: nat)
    requires suffixlen > 0 ==> EndsInLiteral(p) && suffixlen <= |LastText(p)|
    requires Shortcut(p)
    ensures Wanted(p, casesensitive, suffixlen)[|p| - 3..] ==
            [AnySeq, LiteralString(View(casesensitive, LastText(p))), End]
  {
  }

  /** The characters of a run of digits are seen as they are, and as the whole run. */
  lemma DigitsSeen(casesensitive: bool, line: string, s: nat, t: nat)
    requires s <= t <= |line| && (forall c | c in line[s..t] :: IsDigit(c)) && (t < |line| ==> !IsDigit(line[t]))
    ensures var seen := View(casesensitive, line);
      seen[s..t] == line[s..t] && (t < |line| ==> !IsDigit(seen[t]))
  {
    forall i | s <= i < t
      ensures View(casesensitive, line)[i] == line[i]
    {
      assert line[i] == line[s..t][i - s];
      ViewKeeps(casesensitive, line, i);
    }
    if t < |line| {
      ViewKeeps(casesensitive, line, t);
    }
  }

  /** A line that ends in a text also ends in it when case does not matter. */
  lemma SuffixSeen(casesensitive: bool, line: string, s: nat, text: string)
    requires s <= |line|
    ensures EndsWith(line[s..], text) <==>
            EndsWith(View(casesensitive, line)[s..], View(casesensitive, text)) && EndsWith(line, text)
  {
    if |text| <= |line| - s {
      assert line[s..][|line| - s - |text|..] == line[|line| - |text|..];
      var seen := View(casesensitive, line);
      assert seen[s..][|line| - s - |text|..] == seen[|line| - |text|..];
      ViewOfRest(casesensitive, line, |line| - |text|);
    }
  }

  lemma StoredComplete(casesensitive: bool, elems: seq<Elem>, fullstring: bool)
    ensures Complete(Stored(casesensitive, elems), fullstring) == Stored(casesensitive, Complete(elems, fullstring))
  {
  }

  lemma StoredIsUsable(casesensitive: bool, p: seq<Elem>)
    requires Usable(p)
    ensures Usable(Stored(casesensitive, p))
  {
  }

  lemma StoredAsWritten(p: seq<Elem>)
    ensures Stored(true, p) == p && Sought(true, p) == p
  {
  }

  /** The answer for a whole line.  Where case matters, the shortcut changes nothing. */
  lemma AnswerToAll(p: seq<Elem>, casesensitive: bool, suffixlen: nat, line: string)
    requires p != [] && (suffixlen > 0 ==> EndsInLiteral(p) && suffixlen <= |LastText(p)|)
    ensures Answer(p, casesensitive, suffixlen, line, 0, 0) <==>
            && InLanguage(Wanted(p, casesensitive, suffixlen), View(casesensitive, line))
            && (!casesensitive && Shortcut(p) ==> EndsWith(line, LastText(p)))
  {
    var wanted, seen := Wanted(p, casesensitive, suffixlen), View(casesensitive, line);
    assert wanted[0..] == wanted && seen[0..] == seen;
    if casesensitive && Shortcut(p) && InLanguage(wanted, seen) {
      StoredAsWritten(p);
      assert p[|p| - 2..] == [LiteralString(LastText(p)), End];
      LastLiteralIsSuffix(p, LastText(p), line);
    }
  }

  predicate HasCase(c: char) {
    'a' <= c <= 'z' || 'A' <= c <= 'Z'
  }

  /** The other case of a letter. */
  function Flip(c: char): (d: char)
    ensures Upper(d) == Upper(c) && (d != c <==> HasCase(c))
  {
    if 'A' <= c <= 'Z' then (c as int - 'A' as int + 'a' as int) as char else Upper(c)
  }

  /** Without regard to case the pattern describes the line. */
  ghost predicate Described(p: seq<Elem>, line: string) {
    InLanguage(Sought(false, p), Uppercase(line))
  }

  /** When the matcher ignores case as it should: unless its suffix shortcut meets a literal that has letters, in a
      pattern that describes any line at all. */
  lemma IgnoringCaseExactly(p: seq<Elem>)
    requires Usable(p)
    ensures (forall line: string :: Answer(p, false, 0, line, 0, 0) <==> Described(p, line)) <==>
            !Shortcut(p) || (forall c | c in LastText(p) :: !HasCase(c)) || (forall line: string :: !Described(p, line))
  {
    assert p != [];
    hide Usable, InLanguage, Sought, Uppercase, EndsWith;
    forall line: string
      ensures Answer(p, false, 0, line, 0, 0) <==> Described(p, line) && (Shortcut(p) ==> EndsWith(line, LastText(p)))
    {
      AnswerToAll(p, false, 0, line);
    }
    if Shortcut(p) {
      var text := LastText(p);
      if forall c | c in text :: !HasCase(c) {
        forall line: string | Described(p, line)
          ensures EndsWith(line, text)
        {
          CaselessSuffix(p, line);
        }
      } else if line: string :| Described(p, line) {
        var other := OtherCase(p, line);
        assert Described(p, other) && !EndsWith(other, text);
      }
    }
  }

  /** The line A is not found by the pattern **a, though case should not matter. */
  lemma CaseIsMissed()
    ensures var p := [AnySeq, LiteralString("a"), End]; Described(p, "A") && !Answer(p, false, 0, "A", 0, 0)
  {
    var p := [AnySeq, LiteralString("a"), End];
    assert Uppercase("A") == "A" && Uppercase("a") == "A";
    assert Sought(false, p) == [AnySeq, LiteralString("A"), End];
    AnySeqLiteralEnd("A", "A");
    AnswerToAll(p, false, 0, "A");
  }

  /** The line a is not found by the pattern **ab without its last character. */
  lemma CutIsMissed()
    ensures var p := [AnySeq, LiteralString("ab"), End];
      InLanguage(Cut(p, 1), "a") && !Answer(p, true, 1, "a", 0, 0)
  {
    var p := [AnySeq, LiteralString("ab"), End];
    assert "ab"[..1] == "a";
    assert Cut(p, 1) == [AnySeq, LiteralString("a"), End];
    AnySeqLiteralEnd("a", "a");
  }

  /** A described line ends in the last literal, but for the case. */
  lemma DescribedSuffix(p: seq<Elem>, line: string)
    requires EndsInLiteral(p) && Described(p, line)
    ensures EndsWith(Uppercase(line), Uppercase(LastText(p))) && |line| >= |LastText(p)|
  {
    var q := Sought(false, p);
    assert q[|q| - 2..] == [LiteralString(Uppercase(LastText(p))), End];
    LastLiteralIsSuffix(q, Uppercase(LastText(p)), Uppercase(line));
  }

  lemma CaselessSuffix(p: seq<Elem>, line: string)
    requires EndsInLiteral(p) && Described(p, line) && forall c | c in LastText(p) :: !HasCase(c)
    ensures EndsWith(line, LastText(p))
  {
    DescribedSuffix(p, line);
    var text, tail := LastText(p), line[|line| - |LastText(p)|..];
    forall i | 0 <= i < |text|
      ensures tail[i] == text[i]
    {
      assert text[i] in text;
      assert Uppercase(line)[|line| - |text|..][i] == Uppercase(text)[i];
    }
  }

  /** The line with its end in another case than the last literal. */
  lemma OtherCase(p: seq<Elem>, line: string) returns (other: string)
    requires EndsInLiteral(p) && Described(p, line) && exists c :: c in LastText(p) && HasCase(c)
    ensures Described(p, other) && !EndsWith(other, LastText(p))
  {
    DescribedSuffix(p, line);
    var text := LastText(p);
    var k := |line| - |text|;
    var flipped := seq(|text|, i requires 0 <= i < |text| => Flip(text[i]));
    other := line[..k] + flipped;
    forall i | 0 <= i < |line|
      ensures Uppercase(other)[i] == Uppercase(line)[i]
    {
      if i >= k {
        assert Uppercase(line)[k..][i - k] == Uppercase(text)[i - k];
      }
    }
    assert Uppercase(other) == Uppercase(line);
    var c :| c in text && HasCase(c);
    var i :| 0 <= i < |text| && text[i] == c;
    assert flipped[i] != text[i];
    assert other[|other| - |text|..] == flipped;
  }

  /** When the matcher ignores what is cut off the last literal as it should: unless its suffix shortcut meets the
      literal, in a pattern that describes any line at all. */
  lemma CuttingExactly(p: seq<Elem>, n: nat)
    requires Usable(p) && EndsInLiteral(p) && 0 < n <= |LastText(p)|
    ensures (forall line: string :: Answer(p, true, n, line, 0, 0) <==> InLanguage(Cut(p, n), line)) <==>
            !Shortcut(p) || (forall line: string :: !InLanguage(p, line))
  {
    assert p[..|p| - 1][..if |p| >= 3 then |p| - 3 else 0] == p[..if |p| >= 3 then |p| - 3 else 0];
    assert |p| >= 3 ==> End !in p[..|p| - 3];
    hide Usable, InLanguage, EndsWith, Sought, Cut;
    StoredAsWritten(p);
    StoredAsWritten(Cut(p, n));
    forall line: string
      ensures Answer(p, true, n, line, 0, 0) <==> InLanguage(if Shortcut(p) then p else Cut(p, n), line)
    {
      AnswerToAll(p, true, n, line);
    }
    if Shortcut(p) {
      var text := LastText(p);
      if line: string :| InLanguage(p, line) {
        var other := ShorterLine(p, n, line);
        assert InLanguage(Cut(p, n), other) && !InLanguage(p, other);
      }
      if line: string :| InLanguage(Cut(p, n), line) {
        var other := LongerLine(p, n, line);
        assert InLanguage(p, other);
      }
    }
  }

  /** A pattern describes some line when the cut pattern does. */
  lemma LongerLine(p: seq<Elem>, n: nat, line: string) returns (other: string)
    requires Shortcut(p) && 0 < n <= |LastText(p)| && InLanguage(Cut(p, n), line) && End !in p[..|p| - 3]
    ensures InLanguage(p, other)
  {
    hide InLanguage;
    var text, q := LastText(p), Cut(p, n);
    var cut := text[..|text| - n];
    assert q[..|p| - 3] == p[..|p| - 3];
    EndsInTail(q, cut, line);
    NewTail(q, cut, text, "x", line);
    other := line[..|line| - |cut|] + "x" + text;
    assert q[|p| - 2 := LiteralString(text)] == p;
  }

  /** Cutting characters off a described line ends in one that only the cut pattern describes. */
  lemma ShorterLine(p: seq<Elem>, n: nat, line: string) returns (other: string)
    requires Shortcut(p) && 0 < n <= |LastText(p)| && InLanguage(p, line) && End !in p[..|p| - 3]
    ensures InLanguage(Cut(p, n), other) && !InLanguage(p, other)
    decreases |line|
  {
    hide InLanguage;
    var text := LastText(p);
    EndsInTail(p, text, line);
    NewTail(p, text, text[..|text| - n], "", line);
    other := line[..|line| - |text|] + "" + text[..|text| - n];
    if InLanguage(p, other) {
      other := ShorterLine(p, n, other);
    }
  }

  lemma EndsInTail(p: seq<Elem>, text: string, line: string)
    requires |p| >= 2 && p[|p| - 2..] == [LiteralString(text), End] && InLanguage(p, line)
    ensures |line| >= |text| && line[|line| - |text|..] == text
  {
    LastLiteralIsSuffix(p, text, line);
  }

  /** A piece stays a piece in front of a rest that begins alike, or not with a digit. */
  lemma SamePiece(e: Elem, piece: string, rest: string, other: string)
    requires Piece(e, piece, rest) && e != End
    requires other == "" || !IsDigit(other[0]) || (rest != "" && rest[0] == other[0])
    ensures Piece(e, piece, other)
  {
  }

  /** The exchange of the end of a line leaves what comes before, and what begins after it. */
  lemma Behind(line: string, n: nat, a: string, b: string, glue: string)
    requires n + |a| <= |line| && line[|line| - |a|..] == a && (glue == "x" || (glue == "" && b <= a))
    ensures var other := line[..|line| - |a|] + glue + b;
      && n <= |other| && other[..n] == line[..n]
      && other[n..] == line[n..][..|line[n..]| - |a|] + glue + b
      && (other[n..] == "" || !IsDigit(other[n..][0]) || (line[n..] != "" && line[n..][0] == other[n..][0]))
  {
    var other := line[..|line| - |a|] + glue + b;
    assert other[n..] == line[n..][..|line[n..]| - |a|] + glue + b;
    if n + |a| == |line| {
      assert line[n..] == a && other[n..] == glue + b;
    } else {
      assert other[n..][0] == line[n];
    }
  }

  /** Behind ** the last literal can be exchanged: for a beginning of it, or for any other behind an x. */
  lemma {:induction false} NewTail(p: seq<Elem>, a: string, b: string, glue: string, line: string)
    requires |p| >= 3 && p[|p| - 3..] == [AnySeq, LiteralString(a), End] && (glue == "x" || (glue == "" && b <= a))
    requires InLanguage(p, line) && |line| >= |a| && End !in p[..|p| - 3]
    ensures InLanguage(p[|p| - 2 := LiteralString(b)], line[..|line| - |a|] + glue + b)
    decreases |p|
  {
    hide InLanguage;
    var q, other := p[|p| - 2 := LiteralString(b)], line[..|line| - |a|] + glue + b;
    if |p| == 3 {
      assert q == [AnySeq, LiteralString(b), End];
      assert other[|other| - |b|..] == b;
      AnySeqLiteralEnd(other, b);
    } else {
      FirstPiece(p, line);
      var n :| 0 <= n <= |line| && Takes(p, line, n);
      assert p[1..][..|p| - 4] == p[..|p| - 3][1..];
      assert p[1..][|p| - 4..] == p[|p| - 3..];
      assert p[1..][|p| - 3..] == [LiteralString(a), End];
      EndsInTail(p[1..], a, line[n..]);
      NewTail(p[1..], a, b, glue, line[n..]);
      assert q[1..] == p[1..][|p| - 3 := LiteralString(b)];
      Behind(line, n, a, b, glue);
      SamePiece(p[0], line[..n], line[n..], other[n..]);
      TakesIsIn(q, other, n);
    }
  }
}
