/** The class PatternMatcher: the pattern tokenizer and the backtracking matcher with its shortcuts and modes. */
module PatternMatchers {
  import opened PatternLanguage
  import opened PatternTokens
  import opened PatternCases
  import opened PatternSubstrings
  import PatternProperties
  import opened PatternSyntax
  import Numerals
  import opened Sequences

  /** isInSet: the ranges are pairs of characters, in upper case when case does not matter. */
  method IsInSet(given: char, ranges: string, casesensitive: bool) returns (b: bool)
    requires |ranges| % 2 == 0
    ensures b <==> InRanges(if casesensitive then given else Upper(given), ranges)
  {
    var c := if casesensitive then given else Upper(given);
    var i := 0;
    while i < |ranges|
      invariant 0 <= i <= |ranges| && i % 2 == 0
      invariant forall k | 0 <= k && 2 * k + 1 < i :: !(ranges[2 * k] <= c <= ranges[2 * k + 1])
    {
      if ranges[i] <= c <= ranges[i + 1] {
        assert ranges[2 * (i / 2)] <= c <= ranges[2 * (i / 2) + 1];
        return true;
      }
      i := i + 2;
    }
    b := false;
  }

  lemma NoDigits()
    ensures Number("") == 0
  {
  }

  lemma NextDigit(digits: string, c: char)
    requires (forall d | d in digits :: IsDigit(d)) && IsDigit(c)
    ensures forall d | d in digits + [c] :: IsDigit(d)
    ensures Number(digits + [c]) == 10 * Number(digits) + (c as int - '0' as int)
  {
    var all := digits + [c];
    assert all[..|all| - 1] == digits && all[|all| - 1] == c;
  }

  /** atol and the loop that skips the digits. */
  method ReadNumber(line: string, start: nat) returns (num: nat, s: nat)
    requires start <= |line|
    ensures start <= s <= |line| && (forall c | c in line[start..s] :: '0' <= c <= '9')
    ensures s < |line| ==> !('0' <= line[s] <= '9')
    ensures num == Number(line[start..s]) == Numerals.Positional(line[start..s], 10)
  {
    hide Number;
    num, s := 0, start;
    NoDigits();
    while s < |line| && IsDigit(line[s])
      invariant start <= s <= |line| && (forall c | c in line[start..s] :: IsDigit(c))
      invariant num == Number(line[start..s])
    {
      assert line[start..s + 1] == line[start..s] + [line[s]];
      NextDigit(line[start..s], line[s]);
      num := 10 * num + (line[s] as int - '0' as int);
      s := s + 1;
    }
    NumberIsDecimal(line[start..s]);
  }

  method StringEndsWith(line: string, s: nat, ending: string) returns (b: bool)
    requires s <= |line|
    ensures b <==> EndsWith(line[s..], ending)
  {
    b := |line| - s >= |ending| && line[|line| - |ending|..] == ending;
    assert |line| - s >= |ending| ==> line[s..][|line| - s - |ending|..] == line[|line| - |ending|..];
  }

  lemma SingleCharPiece(p: seq<Elem>, line: string, ok: bool)
    requires p != [] && (p[0].AnyChar? || p[0].CommonChar? || p[0].CharSet? || p[0].NegSet?)
    requires ok == (line != "" && Piece(p[0], line[..1], line[1..]))
    ensures InLanguage(p, line) <==> ok && InLanguage(p[1..], line[1..])
  {
    if line == "" {
      NoPiece(p, line);
    } else {
      OnlyPiece(p, line, 1);
    }
  }

  lemma LiteralPiece(p: seq<Elem>, line: string, text: string)
    requires p != [] && p[0] == LiteralString(text)
    ensures InLanguage(p, line) <==> text <= line && InLanguage(p[1..], line[|text|..])
  {
    if text <= line {
      assert line[..|text|] == text;
      OnlyPiece(p, line, |text|);
    } else {
      NoPiece(p, line);
    }
  }

  /** Of the prefixes that are runs of digits only the whole run can be a piece of a numeric range. */
  lemma NumRangePiece(p: seq<Elem>, line: string, n: nat)
    requires p != [] && p[0].NumRange? && n <= |line|
    requires (forall c | c in line[..n] :: IsDigit(c)) && (n < |line| ==> !IsDigit(line[n]))
    ensures InLanguage(p, line) <==> Piece(p[0], line[..n], line[n..]) && InLanguage(p[1..], line[n..])
  {
    forall m | 0 <= m <= |line| && m != n
      ensures !Piece(p[0], line[..m], line[m..])
    {
      if m < n {
        assert line[m..][0] == line[..n][m];
      } else {
        assert line[..m][n] == line[n];
      }
    }
    OnlyPiece(p, line, n);
  }

  /** A sequence either takes nothing or takes the next character first, if it may. */
  lemma SeqPiece(p: seq<Elem>, line: string)
    requires p != [] && (p[0].AnySeq? || p[0].CommonSeq?)
    ensures InLanguage(p, line) <==> InLanguage(p[1..], line) || SeqAdvances(p, line)
  {
    hide InLanguage, SeqAdvances;
    FirstPiece(p, line);
    assert line[0..] == line && line[..0] == "";
    if InLanguage(p[1..], line) {
      TakesIsIn(p, line, 0);
    }
    if SeqAdvances(p, line) {
      AdvanceIsIn(p, line);
    }
    if n :| 0 <= n <= |line| && Takes(p, line, n) {
      if n > 0 {
        TakesAdvances(p, line, n);
      }
    }
  }

  ghost predicate SeqAdvances(p: seq<Elem>, line: string)
    requires p != []
  {
    line != "" && (p[0].CommonSeq? ==> line[0] != '.') && InLanguage(p, line[1..])
  }

  lemma AdvanceIsIn(p: seq<Elem>, line: string)
    requires p != [] && (p[0].AnySeq? || p[0].CommonSeq?) && SeqAdvances(p, line)
    ensures InLanguage(p, line)
  {
    hide InLanguage;
    FirstPiece(p, line[1..]);
    var m :| 0 <= m <= |line| - 1 && Takes(p, line[1..], m);
    assert line[..m + 1] == [line[0]] + line[1..][..m] && line[m + 1..] == line[1..][m..];
    TakesIsIn(p, line, m + 1);
  }

  lemma TakesAdvances(p: seq<Elem>, line: string, n: nat)
    requires p != [] && (p[0].AnySeq? || p[0].CommonSeq?) && 0 < n <= |line| && Takes(p, line, n)
    ensures SeqAdvances(p, line)
  {
    hide InLanguage;
    assert line[..n] == [line[0]] + line[1..][..n - 1] && line[n..] == line[1..][n - 1..];
    TakesIsIn(p, line[1..], n - 1);
  }

  /** The check of the last two characters turns away no line of the language. */
  lemma LastTwo(p: seq<Elem>, text: string, line: string)
    requires |p| >= 2 && p[|p| - 2] == LiteralString(text) && p[|p| - 1] == End && |text| >= 2
    ensures InLanguage(p, line) ==>
      |line| >= 2 && line[|line| - 1] == text[|text| - 1] && line[|line| - 2] == text[|text| - 2]
  {
    if InLanguage(p, line) {
      assert p[|p| - 2..] == [LiteralString(text), End];
      LastLiteralIsSuffix(p, text, line);
      var tail := line[|line| - |text|..];
      assert line[|line| - 1] == tail[|text| - 1] && line[|line| - 2] == tail[|text| - 2];
    }
  }

  /** Parses "[n..m]" or "{n..m}"; the position returned is that of the closing character. */
  method ParseNumRange(str: CString, start: nat, closingchar: char) returns (r: Option<(int, int, nat)>)
    requires start < |str| && closingchar != '\0'
    ensures r == NumRangeAt(str, start, closingchar)
  {
    var lo: int, up: int := -1, -1;
    var s := start + 1;
    if IsDigit(At(str, s)) {
      lo, s := ReadNumber(str, s);
      DigitsRead(str, start + 1, s);
    }
    if At(str, s) != '.' || At(str, s + 1) != '.' {
      return None;
    }
    s := s + 2;
    if IsDigit(At(str, s)) {
      ghost var from := s;
      up, s := ReadNumber(str, s);
      DigitsRead(str, from, s);
    }
    if At(str, s) != closingchar {
      return None;
    }
    r := Some((lo, up, s));
  }

  method ParseLiteralString(str: CString, start: nat) returns (e: Elem, s: nat, error: Error)
    requires start < |str|
    ensures (e, s, error) == var l := LiteralAt(str, start, ""); (LiteralString(l.0), l.1, l.2)
    ensures start <= s <= |str|
  {
    var text := "";
    s := start;
    error := NoError;
    while s < |str| && str[s] != '?' && str[s] != '{' && str[s] != '*'
      invariant start <= s <= |str| && LiteralAt(str, s, text) == LiteralAt(str, start, "")
    {
      if str[s] == '\\' {
        if s + 1 == |str| {
          return LiteralString(text), s, LoneBackslash;
        }
        s := s + 1;
      }
      text := text + [str[s]];
      if str[s] == '[' {
        var range := ParseNumRange(str, s, ']');
        if range != None {
          break;
        }
      }
      s := s + 1;
    }
    e := LiteralString(text);
  }

  /** One range of a set: "A-Z" as "AZ", "X" as "XX". */
  method NextRange(str: CString, start: nat, sbeg: nat, ghost written: string) returns (range: string, s: nat)
    requires start < |str| && (str[start] != '}' || start == sbeg)
    ensures start < s <= |str| && RangesAt(str, start, sbeg, written) == RangesAt(str, s, sbeg, written + range)
  {
    if At(str, start + 1) == '-' && start + 2 < |str| && str[start + 2] != '}' {
      range := [str[start], str[start + 2]];
      s := start + 3;
    } else {
      range := [str[start], str[start]];
      s := start + 1;
    }
  }

  method ParseSet(str: CString, start: nat, casesensitive: bool) returns (e: Elem, s: nat, error: Error)
    requires start < |str|
    ensures (e, s, error) == var r := SetAt(str, start); (StoredElem(casesensitive, r.0), r.1, r.2)
    ensures start < s <= |str|
  {
    s := start + 1;
    var negated := At(str, s) == '^';
    if negated {
      s := s + 1;
    }
    var sbeg := s;
    var ranges := "";
    ghost var written := "";
    ViewAppend(casesensitive, "", "");
    hide View, Upper;
    while s < |str| && (str[s] != '}' || s == sbeg)
      invariant sbeg <= s <= |str| && RangesAt(str, s, sbeg, written) == RangesAt(str, sbeg, sbeg, "")
      invariant ranges == View(casesensitive, written)
    {
      var range;
      range, s := NextRange(str, s, sbeg, written);
      ViewAppend(casesensitive, written, range);
      written := written + range;
      ranges := ranges + View(casesensitive, range);
    }
    e := if negated then NegSet(ranges) else CharSet(ranges);
    error := NoError;
    if s == |str| {
      error := UnmatchedBrace;
    } else {
      s := s + 1;
    }
  }

  /** One round of the tokenizer. */
  method NextElem(patt: CString, start: nat, dottedpath: bool, casesensitive: bool, afterLiteral: bool)
    returns (e: Elem, s: nat, error: Error, ghost written: Elem)
    requires start < |patt|
    ensures start <= s <= |patt| && e == StoredElem(casesensitive, written)
    ensures error != NoError ==> Tokens(patt, start, dottedpath, afterLiteral) == Tokenized([], error)
    ensures error == NoError ==>
      Tokens(patt, start, dottedpath, afterLiteral) == Tokens(patt, s, dottedpath, e.LiteralString?).After([written])
    ensures error == NoError && s == start ==> !afterLiteral && e.LiteralString?
  {
    error := NoError;
    match patt[start] {
      case '?' =>
        e, s := if dottedpath then CommonChar else AnyChar, start + 1;
      case '[' =>
        var range := None;
        if afterLiteral {
          range := ParseNumRange(patt, start, ']');
        }
        if range == None {
          LiteralProgress(patt, start);
          e, s, error := ParseLiteralString(patt, start);
        } else {
          e, s := NumRange(range.value.0, range.value.1), range.value.2;
        }
      case '{' =>
        var range := ParseNumRange(patt, start, '}');
        if range != None {
          e, s := NumRange(range.value.0, range.value.1), range.value.2 + 1;
        } else {
          e, s, error := ParseSet(patt, start, casesensitive);
          written := SetAt(patt, start).0;
          return;
        }
      case '*' =>
        if At(patt, start + 1) == '*' {
          e, s := AnySeq, start + 2;
        } else {
          e, s := if dottedpath then CommonSeq else AnySeq, start + 1;
        }
      case _ =>
        LiteralProgress(patt, start);
        e, s, error := ParseLiteralString(patt, start);
    }
    written := e;
  }

  /** What is sought in a completed pattern is found by its elements. */
  lemma SoughtIsFound(elems: seq<Elem>, fullstring: bool)
    ensures forall line: string ::
      InLanguage(Complete(elems, fullstring), line) <==> Found(elems, fullstring, line)
    ensures forall line: string ::
      InLanguage(Sought(false, Stored(false, Complete(elems, fullstring))), Uppercase(line)) <==>
      FoundInAnyCase(elems, fullstring, line)
  {
    assert Sought(false, Stored(false, Complete(elems, fullstring))) == Complete(Sees(elems), fullstring);
    hide Sought, Stored, Complete, InLanguage, Found, FoundInAnyCase, Uppercase, Sees;
    forall line: string
      ensures InLanguage(Complete(elems, fullstring), line) <==> Found(elems, fullstring, line)
    {
      CompleteFinds(elems, fullstring, line);
    }
    forall line: string
      ensures InLanguage(Complete(Sees(elems), fullstring), Uppercase(line)) <==>
              FoundInAnyCase(elems, fullstring, line)
    {
      CompleteFinds(Sees(elems), fullstring, Uppercase(line));
      FoundAsSeen(elems, fullstring, line);
    }
  }

  class PatternMatcher {
    var pattern: seq<Elem>
    var iscasesensitive: bool

    constructor ()
      ensures pattern == []
    {
      pattern, iscasesensitive := [], true;
    }

    /** Tokenizes `patt`; when that fails the elements found so far stay.  Otherwise the matcher looks for what the
        elements take from the whole line, or from any part of it. */
    method SetPattern(patt: CString, dottedpath: bool, fullstring: bool, casesensitive: bool) returns (error: Error)
      modifies this
      ensures iscasesensitive == casesensitive && error == Tokens(patt, 0, dottedpath, false).error
      ensures error != NoError ==> pattern == Stored(casesensitive, Tokens(patt, 0, dottedpath, false).elems)
      ensures error == NoError ==>
        pattern == Stored(casesensitive, Complete(Tokens(patt, 0, dottedpath, false).elems, fullstring))
      ensures error == NoError ==> Usable(pattern)
      ensures var elems := Tokens(patt, 0, dottedpath, false).elems;
        && (error == NoError && casesensitive ==>
              forall line: string :: InLanguage(pattern, line) <==> Found(elems, fullstring, line))
        && (error == NoError && !casesensitive ==>
              forall line: string ::
                InLanguage(Sought(false, pattern), Uppercase(line)) <==> FoundInAnyCase(elems, fullstring, line))
    {
      hide Tokens, Complete, Usable, Found, FoundInAnyCase, InLanguage, Sought, Stored, Uppercase;
      iscasesensitive := casesensitive;
      error := Tokenize(patt, dottedpath);
      if error == NoError {
        ghost var elems := Tokens(patt, 0, dottedpath, false).elems;
        Finish(fullstring);
        StoredComplete(casesensitive, elems, fullstring);
        PatternProperties.SetPatternIsUsable(patt, dottedpath, fullstring);
        StoredIsUsable(casesensitive, Complete(elems, fullstring));
        SoughtIsFound(elems, fullstring);
        StoredAsWritten(elems);
        StoredAsWritten(Complete(elems, fullstring));
      }
    }

    method Tokenize(patt: CString, dottedpath: bool) returns (error: Error)
      modifies this`pattern
      ensures error == Tokens(patt, 0, dottedpath, false).error
      ensures pattern == Stored(iscasesensitive, Tokens(patt, 0, dottedpath, false).elems)
    {
      hide Tokens, StoredElem;
      pattern := [];
      error := NoError;
      ghost var all := Tokens(patt, 0, dottedpath, false);
      ghost var elems: seq<Elem> := [];
      var s := 0;
      while s < |patt|
        invariant 0 <= s <= |patt| && error == NoError && pattern == Stored(iscasesensitive, elems)
        invariant all == Tokens(patt, s, dottedpath, LiteralLast(pattern)).After(elems)
        decreases |patt| - s, if LiteralLast(pattern) then 0 else 1
      {
        assert elems + [] == elems;
        var e;
        ghost var written;
        e, s, error, written := NextElem(patt, s, dottedpath, iscasesensitive, LiteralLast(pattern));
        if error != NoError {
          return;
        }
        pattern := pattern + [e];
        AfterAfter(Tokens(patt, s, dottedpath, e.LiteralString?), elems, written);
        elems := elems + [written];
      }
      NothingLeft(patt, dottedpath, LiteralLast(pattern));
      assert elems + [] == elems;
    }

    method Finish(fullstring: bool)
      modifies this`pattern
      ensures pattern == Complete(old(pattern), fullstring)
    {
      if !fullstring {
        if pattern == [] || pattern[|pattern| - 1] != AnySeq {
          pattern := pattern + [AnySeq];
        }
        if pattern[0] != AnySeq {
          pattern := [AnySeq] + pattern;
        }
      }
      pattern := pattern + [End];
    }

    /** Matches the line from position `start` against the pattern from element `from`, without the last
        `suffixlen` characters of the last literal. */
    method DoMatch(line: string, start: nat, from: nat, suffixlen: nat) returns (b: bool)
      requires Usable(pattern) && from < |pattern| && start <= |line| && (Shortcut(pattern) ==> from <= |pattern| - 3)
      requires suffixlen > 0 ==> EndsInLiteral(pattern) && suffixlen <= |LastText(pattern)|
      ensures b <==> Answer(pattern, iscasesensitive, suffixlen, line, start, from)
      decreases |pattern| - from
    {
      hide Wanted, Cut, Sought, View, Upper, IsDigit, InLanguage, Piece, EndsWith, WholePairs;
      ghost var wanted, seen := Wanted(pattern, iscasesensitive, suffixlen), View(iscasesensitive, line);
      var s, k := start, from;
      while true
        invariant from <= k < |pattern| && start <= s <= |line| && (Shortcut(pattern) ==> k <= |pattern| - 3)
        invariant InLanguage(wanted[from..], seen[start..]) <==> InLanguage(wanted[k..], seen[s..])
        decreases |pattern| - k
      {
        var e := pattern[k];
        if e.AnySeq? || e.CommonSeq? || e.End? {
          b := MatchRest(line, s, k, suffixlen);
          return;
        }
        var ok;
        ok, s := MatchElem(line, s, k, suffixlen);
        if !ok {
          return false;
        }
        k := k + 1;
      }
    }

    /** One element other than a sequence and END takes its piece of the line. */
    method MatchElem(line: string, start: nat, k: nat, suffixlen: nat) returns (ok: bool, s: nat)
      requires Usable(pattern) && k < |pattern| && start <= |line| && (Shortcut(pattern) ==> k <= |pattern| - 3)
      requires suffixlen > 0 ==> EndsInLiteral(pattern) && suffixlen <= |LastText(pattern)|
      requires !(pattern[k].AnySeq? || pattern[k].CommonSeq? || pattern[k].End?)
      ensures k + 1 < |pattern| && (Shortcut(pattern) ==> k + 1 <= |pattern| - 3) && start <= s <= |line|
      ensures var wanted, seen := Wanted(pattern, iscasesensitive, suffixlen), View(iscasesensitive, line);
        InLanguage(wanted[k..], seen[start..]) <==> ok && InLanguage(wanted[k + 1..], seen[s..])
    {
      hide Wanted, Cut, Sought, Upper, IsDigit, InLanguage, EndsWith;
      ghost var wanted, seen := Wanted(pattern, iscasesensitive, suffixlen), View(iscasesensitive, line);
      ghost var p, l := wanted[k..], seen[start..];
      WantedAt(pattern, iscasesensitive, suffixlen, k);
      if start < |line| {
        ViewKeeps(iscasesensitive, line, start);
      }
      hide View;
      s := start;
      match pattern[k] {
        case LiteralString(text) =>
          ok, s := MatchLiteral(line, start, text, if k == |pattern| - 2 then suffixlen else 0, p);
        case AnyChar =>
          SingleCharPiece(p, l, s < |line|);
          ok, s := s < |line|, if s < |line| then s + 1 else s;
        case CommonChar =>
          ok := s < |line| && line[s] != '.';
          SingleCharPiece(p, l, ok);
          s := if ok then s + 1 else s;
        case CharSet(ranges) =>
          ok := s < |line|;
          if ok {
            ok := IsInSet(line[s], ranges, iscasesensitive);
          }
          SingleCharPiece(p, l, ok);
          s := if ok then s + 1 else s;
        case NegSet(ranges) =>
          ok := s < |line|;
          if ok {
            var found := IsInSet(line[s], ranges, iscasesensitive);
            ok := !found;
          }
          SingleCharPiece(p, l, ok);
          s := if ok then s + 1 else s;
        case NumRange(fromnum, tonum) =>
          ok, s := MatchNumber(line, start, fromnum, tonum, p);
      }
    }

    /** The literal, or what is left of it, stands at `start`. */
    method MatchLiteral(line: string, start: nat, text: string, cut: nat, ghost p: seq<Elem>)
      returns (ok: bool, s: nat)
      requires start <= |line| && cut <= |text|
      requires p != [] && p[0] == LiteralString(View(iscasesensitive, text[..|text| - cut]))
      ensures start <= s <= |line|
      ensures var seen := View(iscasesensitive, line);
        InLanguage(p, seen[start..]) <==> ok && InLanguage(p[1..], seen[s..])
    {
      hide InLanguage, View;
      var len := |text| - cut;
      var literal := View(iscasesensitive, text[..len]);
      LiteralPiece(p, View(iscasesensitive, line)[start..], literal);
      ViewOfRest(iscasesensitive, line, start);
      ok := literal <= View(iscasesensitive, line[start..]);
      s := if ok then start + len else start;
    }

    /** The whole run of digits at `start`, when it is within the bounds. */
    method MatchNumber(line: string, start: nat, fromnum: int, tonum: int, ghost p: seq<Elem>)
      returns (ok: bool, s: nat)
      requires start <= |line| && p != [] && p[0] == NumRange(fromnum, tonum)
      ensures start <= s <= |line|
      ensures var seen := View(iscasesensitive, line);
        InLanguage(p, seen[start..]) <==> ok && InLanguage(p[1..], seen[s..])
    {
      hide InLanguage, View, Number;
      ghost var seen := View(iscasesensitive, line);
      var num, t := ReadNumber(line, start);
      DigitsSeen(iscasesensitive, line, start, t);
      assert seen[start..][..t - start] == line[start..t] && seen[start..][t - start..] == seen[t..];
      NumRangePiece(p, seen[start..], t - start);
      ok := t > start && (fromnum < 0 || fromnum <= num) && (tonum < 0 || num <= tonum);
      s := t;
    }

    /** From a sequence or END on: the two shortcuts, the backtracking, or the end of the line. */
    method MatchRest(line: string, s: nat, k: nat, suffixlen: nat) returns (b: bool)
      requires Usable(pattern) && k < |pattern| && s <= |line| && (Shortcut(pattern) ==> k <= |pattern| - 3)
      requires suffixlen > 0 ==> EndsInLiteral(pattern) && suffixlen <= |LastText(pattern)|
      requires pattern[k].AnySeq? || pattern[k].CommonSeq? || pattern[k].End?
      ensures b <==> Answer(pattern, iscasesensitive, suffixlen, line, s, k)
      decreases |pattern| - k, 1
    {
      hide Wanted, Cut, Sought, View, Upper, IsDigit, InLanguage, Piece, EndsWith, WholePairs;
      ghost var p, l := Wanted(pattern, iscasesensitive, suffixlen)[k..], View(iscasesensitive, line)[s..];
      WantedAt(pattern, iscasesensitive, suffixlen, k);
      if pattern[k].End? {
        assert k == |pattern| - 1 && p == [End];
        EndIsEmpty(l);
        return s == |line|;
      }
      if pattern[k].AnySeq? && k == |pattern| - 2 {
        WantedAt(pattern, iscasesensitive, suffixlen, k + 1);
        assert p == [AnySeq, End];
        AnySeqEnd(l);
        return true;
      }
      if pattern[k].AnySeq? && k == |pattern| - 3 && pattern[k + 1].LiteralString? {
        var text := pattern[k + 1].text;
        WantedShortcut(pattern, iscasesensitive, suffixlen);
        AnySeqLiteralEnd(l, View(iscasesensitive, text));
        SuffixSeen(iscasesensitive, line, s, text);
        b := StringEndsWith(line, s, text);
        return;
      }
      b := Backtrack(line, s, k, suffixlen);
    }

    /** Tries the rest of the pattern at every place the sequence element may reach. */
    method Backtrack(line: string, start: nat, k: nat, suffixlen: nat) returns (b: bool)
      requires Usable(pattern) && k < |pattern| - 1 && start <= |line| && (pattern[k].AnySeq? || pattern[k].CommonSeq?)
      requires suffixlen > 0 ==> EndsInLiteral(pattern) && suffixlen <= |LastText(pattern)|
      requires Shortcut(pattern) ==> k < |pattern| - 3
      ensures b <==> Answer(pattern, iscasesensitive, suffixlen, line, start, k)
      decreases |pattern| - k, 0
    {
      hide Wanted, Cut, Sought, View, Upper, IsDigit, InLanguage, Piece, EndsWith, WholePairs, SeqAdvances;
      var s := start;
      while true
        invariant start <= s <= |line|
        invariant Answer(pattern, iscasesensitive, suffixlen, line, start, k) <==>
                  Answer(pattern, iscasesensitive, suffixlen, line, s, k)
        decreases |line| - s
      {
        SeqWanted(line, s, k, suffixlen);
        b := DoMatch(line, s, k + 1, suffixlen);
        if b {
          return;
        }
        if s == |line| || (pattern[k].CommonSeq? && line[s] == '.') {
          return false;
        }
        s := s + 1;
      }
    }

    lemma SeqWanted(line: string, s: nat, k: nat, suffixlen: nat)
      requires Usable(pattern) && k < |pattern| - 1 && s <= |line| && (pattern[k].AnySeq? || pattern[k].CommonSeq?)
      requires suffixlen > 0 ==> EndsInLiteral(pattern) && suffixlen <= |LastText(pattern)|
      requires Shortcut(pattern) ==> k < |pattern| - 3
      ensures var wanted, seen := Wanted(pattern, iscasesensitive, suffixlen), View(iscasesensitive, line);
        InLanguage(wanted[k..], seen[s..]) <==>
        InLanguage(wanted[k + 1..], seen[s..]) ||
        (s < |line| && (pattern[k].CommonSeq? ==> line[s] != '.') && InLanguage(wanted[k..], seen[s + 1..]))
    {
      hide Wanted, View, Upper, IsDigit, InLanguage;
      var wanted, seen := Wanted(pattern, iscasesensitive, suffixlen), View(iscasesensitive, line);
      WantedAt(pattern, iscasesensitive, suffixlen, k);
      SeqPiece(wanted[k..], seen[s..]);
      if s < |line| {
        ViewKeeps(iscasesensitive, line, s);
        assert seen[s..][1..] == seen[s + 1..];
      }
    }

    /** matches: for case-sensitive patterns the check of the last two characters, then the backtracking matcher. */
    method Matches(line: string) returns (b: bool)
      requires Usable(pattern)
      ensures iscasesensitive ==> (b <==> InLanguage(pattern, line))
      ensures !iscasesensitive ==>
        (b <==> (InLanguage(Sought(false, pattern), Uppercase(line))
                 && (Shortcut(pattern) ==> EndsWith(line, LastText(pattern)))))
    {
      if |pattern| >= 2 && iscasesensitive {
        var e := pattern[|pattern| - 2];
        if e.LiteralString? {
          var pattlen, linelen := |e.text|, |line|;
          if pattlen >= 2 && linelen >= 2 &&
             (line[linelen - 1] != e.text[pattlen - 1] || line[linelen - 2] != e.text[pattlen - 2]) {
            LastTwo(pattern, e.text, line);
            return false;
          }
        }
      }
      b := DoMatch(line, 0, 0, 0);
      AnswerToAll(pattern, iscasesensitive, 0, line);
      StoredAsWritten(pattern);
    }
  }
}
