/** What patterns mean: usable patterns, plain text, escaped text, and a backslash at the end. */
module PatternProperties {
  import opened PatternLanguage
  import opened PatternTokens
  import opened Sequences

  /** The tokenizer never makes an END, and its sets hold whole pairs. */
  lemma {:induction false} TokensAreUsable(s: CString, i: nat, dottedpath: bool, afterLiteral: bool)
    requires i <= |s|
    ensures forall e | e in Tokens(s, i, dottedpath, afterLiteral).elems :: e != End && WholePairs(e)
    decreases |s| - i, if afterLiteral then 0 else 1
  {
    if i < |s| {
      if s[i] == '?' {
        TokensAreUsable(s, i + 1, dottedpath, false);
      } else if s[i] == '{' {
        var range := NumRangeAt(s, i, '}');
        TokensAreUsable(s, if range.Some? then range.value.2 + 1 else SetAt(s, i).1, dottedpath, false);
      } else if s[i] == '*' {
        TokensAreUsable(s, if At(s, i + 1) == '*' then i + 2 else i + 1, dottedpath, false);
      } else if s[i] == '[' && afterLiteral && NumRangeAt(s, i, ']').Some? {
        TokensAreUsable(s, NumRangeAt(s, i, ']').value.2, dottedpath, false);
      } else {
        LiteralProgress(s, i);
        if LiteralAt(s, i, "").2 == NoError {
          TokensAreUsable(s, LiteralAt(s, i, "").1, dottedpath, true);
        }
      }
    }
  }

  /** Whatever text sets a pattern without an error, the matcher can run on it. */
  lemma SetPatternIsUsable(s: CString, dottedpath: bool, fullstring: bool)
    ensures Usable(Complete(Tokens(s, 0, dottedpath, false).elems, fullstring))
  {
    TokensAreUsable(s, 0, dottedpath, false);
  }

  /** containsWildcards. */
  predicate ContainsWildcards(s: CString) {
    '?' in s || '*' in s || '\\' in s || '{' in s || exists k :: 0 <= k < |s| - 1 && s[k] == '.' && s[k + 1] == '.'
  }

  lemma {:induction false} PlainLiteral(s: CString, i: nat, text: string)
    requires i <= |s| && !ContainsWildcards(s)
    ensures LiteralAt(s, i, text) == (text + s[i..], |s|, NoError)
    decreases |s| - i
  {
    if i < |s| {
      assert NumRangeAt(s, i, ']').None?;
      PlainLiteral(s, i + 1, text + [s[i]]);
      assert text + [s[i]] + s[i + 1..] == text + s[i..];
    } else {
      assert text + s[i..] == text;
    }
  }

  /** The elements a text stands for that is nothing but itself. */
  function Literally(text: string): seq<Elem> {
    if text == "" then [] else [LiteralString(text)]
  }

  lemma PlainTokens(s: CString, dottedpath: bool)
    requires !ContainsWildcards(s)
    ensures Tokens(s, 0, dottedpath, false) == Tokenized(Literally(s), NoError)
  {
    if s != "" {
      PlainLiteral(s, 0, "");
      LiteralProgress(s, 0);
      assert "" + s[0..] == s;
      NothingLeft(s, dottedpath, true);
    }
  }

  lemma LiterallyMatches(text: string, line: string)
    ensures InLanguage(Complete(Literally(text), true), line) <==> line == text
  {
    if text == "" {
      assert Complete(Literally(text), true) == [End];
      EndIsEmpty(line);
    } else {
      assert Complete(Literally(text), true) == [LiteralString(text), End];
      LiteralEnd(text, line);
    }
  }

  ghost predicate Contains(line: string, text: string) {
    exists k :: OccursAt(line, text, k)
  }

  predicate OccursAt(line: string, text: string, k: int) {
    0 <= k <= |line| - |text| && line[k..k + |text|] == text
  }

  lemma SubstringEnd(text: string, line: string)
    ensures InLanguage([LiteralString(text), AnySeq, End], line) <==> text <= line
  {
    var p := [LiteralString(text), AnySeq, End];
    assert p[1..] == [AnySeq, End];
    FirstPiece(p, line);
    if text <= line {
      AnySeqEnd(line[|text|..]);
      assert Takes(p, line, |text|);
    }
  }

  lemma SubstringMatches(text: string, line: string)
    ensures InLanguage(Complete(Literally(text), false), line) <==> Contains(line, text)
  {
    if text == "" {
      assert Complete(Literally(text), false) == [AnySeq, End];
      AnySeqEnd(line);
      assert OccursAt(line, text, 0);
    } else {
      var p := [AnySeq, LiteralString(text), AnySeq, End];
      assert Complete(Literally(text), false) == p;
      AnySeqSubstring(p, text, line);
    }
  }

  lemma AnySeqSubstring(p: seq<Elem>, text: string, line: string)
    requires p == [AnySeq, LiteralString(text), AnySeq, End]
    ensures InLanguage(p, line) <==> Contains(line, text)
  {
    assert p[1..] == [LiteralString(text), AnySeq, End];
    FirstPiece(p, line);
    if n :| 0 <= n <= |line| && Takes(p, line, n) {
      SubstringEnd(text, line[n..]);
      assert line[n..n + |text|] == line[n..][..|text|];
      assert OccursAt(line, text, n);
    }
    if k :| OccursAt(line, text, k) {
      SubstringEnd(text, line[k..]);
      assert line[k..][..|text|] == line[k..k + |text|];
      assert Takes(p, line, k);
    }
  }

  /** Without wildcards a full-string match is equality, and a substring match is containment. */
  lemma NoWildcardsIsPlain(s: CString, dottedpath: bool, line: string)
    requires !ContainsWildcards(s)
    ensures Tokens(s, 0, dottedpath, false).error == NoError
    ensures InLanguage(Complete(Tokens(s, 0, dottedpath, false).elems, true), line) <==> line == s
    ensures InLanguage(Complete(Tokens(s, 0, dottedpath, false).elems, false), line) <==> Contains(line, s)
  {
    PlainTokens(s, dottedpath);
    LiterallyMatches(s, line);
    SubstringMatches(s, line);
  }

  /** Every character with a backslash before it. */
  function Escape(text: CString): (s: CString)
    ensures |s| == 2 * |text|
    ensures forall k | 0 <= k < |text| :: s[2 * k] == '\\' && s[2 * k + 1] == text[k]
  {
    if text == "" then ""
    else
      var before: CString := text[..|text| - 1];
      Escape(before) + ['\\', text[|text| - 1]]
  }

  lemma {:induction false} EscapedLiteral(text: CString, k: nat, before: string)
    requires k <= |text|
    ensures LiteralAt(Escape(text), 2 * k, before) == (before + text[k..], 2 * |text|, NoError)
    decreases |text| - k
  {
    if k < |text| {
      var s := Escape(text);
      assert s[2 * k] == '\\' && s[2 * k + 1] == text[k];
      assert k + 1 < |text| ==> s[2 * (k + 1)] == '\\';
      assert NumRangeAt(s, 2 * k + 1, ']').None?;
      EscapedLiteral(text, k + 1, before + [text[k]]);
      assert before + [text[k]] + text[k + 1..] == before + text[k..];
    } else {
      assert before + text[k..] == before;
    }
  }

  lemma EscapedTokens(text: CString, dottedpath: bool)
    ensures Tokens(Escape(text), 0, dottedpath, false) == Tokenized(Literally(text), NoError)
  {
    hide LiteralAt, NumRangeAt, SetAt, Escape;
    if text != "" {
      var s := Escape(text);
      assert s[2 * 0] == '\\';
      EscapedLiteral(text, 0, "");
      LiteralProgress(s, 0);
      assert "" + text[0..] == text;
      NothingLeft(s, dottedpath, true);
    }
  }

  /** Escaping: the escaped text matches exactly the text, whatever characters it has. */
  lemma EscapeRoundTrip(text: CString, dottedpath: bool, line: string)
    ensures Tokens(Escape(text), 0, dottedpath, false).error == NoError
    ensures InLanguage(Complete(Tokens(Escape(text), 0, dottedpath, false).elems, true), line) <==> line == text
  {
    EscapedTokens(text, dottedpath);
    LiterallyMatches(text, line);
  }

  /** A backslash takes the special meaning from the next character, and the literal goes on behind it,
      exactly when that is not an opening bracket of a numeric range. */
  lemma EscapedCharExactly(s: CString, i: nat, text: string)
    requires i + 1 < |s| && s[i] == '\\'
    ensures LiteralAt(s, i, text) == LiteralAt(s, i + 2, text + [s[i + 1]]) <==>
            !(s[i + 1] == '[' && NumRangeAt(s, i + 1, ']').Some?)
  {
  }

  /** An escaped bracket that stays special. */
  lemma EscapedRangeIsARange()
    ensures Tokens("\\[1..2]", 0, false, false) ==
            Tokenized([LiteralString("["), NumRange(1, 2), LiteralString("]")], NoError)
  {
    var s := "\\[1..2]";
    assert NumRangeAt(s, 1, ']') == Some((1, 2, 6)) by {
      assert DigitsEnd(s, 3) == 3 && DigitsEnd(s, 6) == 6;
      assert s[2..3] == "1" && s[5..6] == "2" && "1"[..0] == "2"[..0] == "";
      assert Number("1") == 1 && Number("2") == 2;
    }
    hide NumRangeAt;
    assert LiteralAt(s, 0, "") == ("[", 1, NoError) by {
      assert "" + ['['] == "[";
    }
    assert LiteralAt(s, 6, "") == ("]", 7, NoError) by {
      assert "" + [']'] == "]";
      assert LiteralAt(s, 7, "]") == ("]", 7, NoError);
    }
    hide LiteralAt;
    assert Tokens(s, 7, false, true) == Tokenized([], NoError);
    assert Tokens(s, 6, false, false) == Tokenized([LiteralString("]")], NoError);
    assert Tokens(s, 1, false, true) == Tokenized([NumRange(1, 2), LiteralString("]")], NoError);
  }

  /** The number of backslashes directly before `end`, none of them before `start`. */
  function Backslashes(s: string, start: nat, end: nat): nat
    requires start <= end <= |s|
  {
    if start == end || s[end - 1] != '\\' then 0 else 1 + Backslashes(s, start, end - 1)
  }

  lemma {:induction false} StartIsFree(s: string, start: nat, other: nat, end: nat, k: nat)
    requires start <= k < end <= |s| && other <= k + 1 && s[k] != '\\'
    ensures Backslashes(s, start, end) == Backslashes(s, other, end)
    decreases end
  {
    if k < end - 1 {
      StartIsFree(s, start, other, end - 1, k);
    }
  }

  lemma {:induction false} TwoBackslashes(s: string, start: nat, end: nat)
    requires start + 2 <= end <= |s| && s[start] == '\\'
    ensures Backslashes(s, start, end) % 2 == Backslashes(s, start + 2, end) % 2
    decreases end
  {
    if end == start + 2 {
      assert Backslashes(s, start, start + 1) == 1;
    } else {
      TwoBackslashes(s, start, end - 1);
    }
  }

  /** A literal eats backslashes in pairs. */
  lemma {:induction false} LiteralPairs(s: CString, i: nat, text: string)
    requires i <= |s|
    ensures LiteralAt(s, i, text).2 == LoneBackslash ==> Backslashes(s, i, |s|) % 2 == 1
    ensures LiteralAt(s, i, text) == (LiteralAt(s, i, text).0, |s|, NoError) ==> Backslashes(s, i, |s|) % 2 == 0
    ensures LiteralAt(s, i, text).2 == NoError && LiteralAt(s, i, text).1 < |s| ==> s[LiteralAt(s, i, text).1] in "?{*["
    decreases |s| - i
  {
    if i < |s| && s[i] !in "?{*" && !(s[i] == '\\' && i + 1 == |s|) {
      var j := if s[i] == '\\' then i + 1 else i;
      if !(s[j] == '[' && NumRangeAt(s, j, ']').Some?) {
        LiteralPairs(s, j + 1, text + [s[j]]);
        if s[i] == '\\' {
          TwoBackslashes(s, i, |s|);
        } else {
          StartIsFree(s, i, i + 1, |s|, i);
        }
      }
    }
  }

  /** When the tokenizer gets to the end, it stops in an escape exactly when the text ends in an odd number of
      backslashes. */
  lemma {:induction false} LoneBackslashIsOdd(s: CString, i: nat, dottedpath: bool, afterLiteral: bool)
    requires i <= |s|
    ensures Tokens(s, i, dottedpath, afterLiteral).error == LoneBackslash ==> Backslashes(s, i, |s|) % 2 == 1
    ensures Tokens(s, i, dottedpath, afterLiteral).error == NoError ==> Backslashes(s, i, |s|) % 2 == 0
    decreases |s| - i, if afterLiteral then 0 else 1
  {
    hide NumRangeAt, SetAt, LiteralAt;
    if i < |s| {
      if s[i] == '?' {
        LoneBackslashIsOdd(s, i + 1, dottedpath, false);
        StartIsFree(s, i, i + 1, |s|, i);
      } else if s[i] == '{' {
        var range := NumRangeAt(s, i, '}');
        SetAtClosing(s, i);
        var j := if range.Some? then range.value.2 + 1 else SetAt(s, i).1;
        if range.Some? || SetAt(s, i).2 == NoError {
          LoneBackslashIsOdd(s, j, dottedpath, false);
          StartIsFree(s, i, j, |s|, j - 1);
        }
      } else if s[i] == '*' {
        var j := if At(s, i + 1) == '*' then i + 2 else i + 1;
        LoneBackslashIsOdd(s, j, dottedpath, false);
        StartIsFree(s, i, j, |s|, j - 1);
      } else if s[i] == '[' && afterLiteral && NumRangeAt(s, i, ']').Some? {
        var j := NumRangeAt(s, i, ']').value.2;
        LoneBackslashIsOdd(s, j, dottedpath, false);
        StartIsFree(s, i, j, |s|, j);
      } else {
        LiteralProgress(s, i);
        LiteralPairs(s, i, "");
        var (text, j, error) := LiteralAt(s, i, "");
        if error == NoError {
          LoneBackslashIsOdd(s, j, dottedpath, true);
          if j < |s| {
            StartIsFree(s, i, j, |s|, j);
          }
        }
      }
    }
  }

  lemma {:induction false} RangesAtClosing(s: CString, i: nat, begin: nat, ranges: string)
    requires i <= |s|
    ensures RangesAt(s, i, begin, ranges).1 < |s| ==> s[RangesAt(s, i, begin, ranges).1] == '}'
    decreases |s| - i
  {
    if i < |s| && !(s[i] == '}' && i != begin) {
      if At(s, i + 1) == '-' && i + 2 < |s| && s[i + 2] != '}' {
        RangesAtClosing(s, i + 3, begin, ranges + [s[i], s[i + 2]]);
      } else {
        RangesAtClosing(s, i + 1, begin, ranges + [s[i], s[i]]);
      }
    }
  }

  lemma SetAtClosing(s: CString, i: nat)
    requires i < |s|
    ensures SetAt(s, i).2 == NoError ==> s[SetAt(s, i).1 - 1] == '}'
  {
    var begin := if At(s, i + 1) == '^' then i + 2 else i + 1;
    RangesAtClosing(s, begin, begin, "");
  }

  /** The first closing brace from `k` on, or the end. */
  function Closing(s: string, k: nat): (e: nat)
    ensures k <= |s| ==> k <= e <= |s| && (e < |s| ==> s[e] == '}')
    ensures k > |s| ==> e == |s|
    decreases |s| - k
  {
    if k >= |s| then |s| else if s[k] == '}' then k else Closing(s, k + 1)
  }

  /** Where the inside of the braces opened at `i` begins. */
  function Inside(s: string, i: nat): nat {
    if At(s, i + 1) == '^' then i + 2 else i + 1
  }

  /** Read from `i` on, some opening brace without a backslash before it finds no closing one behind the
      first character of its inside. */
  predicate OpenBrace(s: string, i: nat)
    decreases |s| - i
  {
    if i >= |s| then false
    else if s[i] == '\\' then OpenBrace(s, i + 2)
    else if s[i] == '{' then
      Closing(s, Inside(s, i) + 1) >= |s| || OpenBrace(s, Closing(s, Inside(s, i) + 1) + 1)
    else OpenBrace(s, i + 1)
  }

  /** Characters other than braces do not matter. */
  lemma {:induction false} ClosingLater(s: string, k: nat, j: nat)
    requires k <= j <= |s| && '}' !in s[k..j]
    ensures Closing(s, k) == Closing(s, j)
    decreases j - k
  {
    if k < j {
      assert s[k] in s[k..j] && s[k..j] == [s[k]] + s[k + 1..j];
      ClosingLater(s, k + 1, j);
    }
  }

  lemma {:induction false} SetCloses(s: CString, i: nat, begin: nat, ranges: string)
    requires begin <= i <= |s|
    ensures RangesAt(s, i, begin, ranges).1 == Closing(s, if i == begin then begin + 1 else i)
    decreases |s| - i
  {
    if i < |s| && !(s[i] == '}' && i != begin) {
      if At(s, i + 1) == '-' && i + 2 < |s| && s[i + 2] != '}' {
        assert s[i + 1..i + 3] == ['-', s[i + 2]];
        ClosingLater(s, i + 1, i + 3);
        SetCloses(s, i + 3, begin, ranges + [s[i], s[i + 2]]);
      } else {
        SetCloses(s, i + 1, begin, ranges + [s[i], s[i]]);
      }
    }
  }

  /** Inside a numeric range there are only digits and dots. */
  lemma NumRangeInside(s: CString, i: nat, closing: char)
    requires i < |s| && NumRangeAt(s, i, closing).Some? && closing != '\0'
    ensures forall k | i < k < NumRangeAt(s, i, closing).value.2 :: IsDigit(s[k]) || s[k] == '.'
  {
    var j := Bound(s, i + 1).1;
    var e := NumRangeAt(s, i, closing).value.2;
    assert forall c | c in s[i + 1..j] :: IsDigit(c);
    assert forall c | c in s[j + 2..e] :: IsDigit(c);
    forall k | i < k < e
      ensures IsDigit(s[k]) || s[k] == '.'
    {
      if k < j {
        assert s[i + 1..j][k - i - 1] == s[k];
      } else if k > j + 1 {
        assert s[j + 2..e][k - j - 2] == s[k];
      }
    }
  }

  lemma {:induction false} NothingOpens(s: string, i: nat, j: nat)
    requires i <= j <= |s| && '\\' !in s[i..j] && '{' !in s[i..j]
    ensures OpenBrace(s, i) == OpenBrace(s, j)
    decreases j - i
  {
    if i < j {
      assert s[i] in s[i..j] && s[i..j] == [s[i]] + s[i + 1..j];
      NothingOpens(s, i + 1, j);
    }
  }

  lemma RangeOpensNothing(s: CString, i: nat)
    requires i < |s| && s[i] == '[' && NumRangeAt(s, i, ']').Some?
    ensures OpenBrace(s, i) == OpenBrace(s, NumRangeAt(s, i, ']').value.2)
  {
    hide NumRangeAt, Closing;
    NumRangeInside(s, i, ']');
    NothingOpens(s, i + 1, NumRangeAt(s, i, ']').value.2);
  }

  /** A literal opens no braces. */
  lemma {:induction false} LiteralOpensNothing(s: CString, i: nat, text: string)
    requires i <= |s|
    ensures LiteralAt(s, i, text).2 == NoError ==> OpenBrace(s, i) == OpenBrace(s, LiteralAt(s, i, text).1)
    ensures LiteralAt(s, i, text).2 == LoneBackslash ==> !OpenBrace(s, i)
    decreases |s| - i
  {
    if i < |s| && s[i] !in "?{*" && !(s[i] == '\\' && i + 1 == |s|) {
      var j := if s[i] == '\\' then i + 1 else i;
      if !(s[j] == '[' && NumRangeAt(s, j, ']').Some?) {
        LiteralOpensNothing(s, j + 1, text + [s[j]]);
      }
    }
  }

  /** A brace is reported as unmatched exactly when the text leaves one open. */
  lemma {:induction false} UnmatchedBraceExactly(s: CString, i: nat, dottedpath: bool, afterLiteral: bool)
    requires i <= |s|
    ensures Tokens(s, i, dottedpath, afterLiteral).error == UnmatchedBrace <==> OpenBrace(s, i)
    decreases |s| - i, if afterLiteral then 0 else 1
  {
    hide NumRangeAt, SetAt, LiteralAt, Closing, Inside;
    if i < |s| {
      if s[i] == '?' {
        UnmatchedBraceExactly(s, i + 1, dottedpath, false);
      } else if s[i] == '{' {
        BracesClose(s, i);
        var range := NumRangeAt(s, i, '}');
        if range.Some? || SetAt(s, i).2 == NoError {
          UnmatchedBraceExactly(s, if range.Some? then range.value.2 + 1 else SetAt(s, i).1, dottedpath, false);
        }
      } else if s[i] == '*' {
        UnmatchedBraceExactly(s, if At(s, i + 1) == '*' then i + 2 else i + 1, dottedpath, false);
      } else if s[i] == '[' && afterLiteral && NumRangeAt(s, i, ']').Some? {
        var j := NumRangeAt(s, i, ']').value.2;
        RangeOpensNothing(s, i);
        UnmatchedBraceExactly(s, j, dottedpath, false);
      } else {
        LiteralProgress(s, i);
        LiteralOpensNothing(s, i, "");
        if LiteralAt(s, i, "").2 == NoError {
          UnmatchedBraceExactly(s, LiteralAt(s, i, "").1, dottedpath, true);
        }
      }
    }
  }

  /** Braces are closed by the first closing brace, as a numeric range and as a set. */
  lemma BracesClose(s: CString, i: nat)
    requires i < |s|
    ensures NumRangeAt(s, i, '}').Some? ==> NumRangeAt(s, i, '}').value.2 == Closing(s, Inside(s, i) + 1)
    ensures SetAt(s, i).2 == NoError ==> SetAt(s, i).1 == Closing(s, Inside(s, i) + 1) + 1 <= |s|
    ensures SetAt(s, i).2 == NoError <==> Closing(s, Inside(s, i) + 1) < |s|
  {
    hide NumRangeAt, SetAt, Closing, Inside;
    SetOfBracesCloses(s, i);
    if NumRangeAt(s, i, '}').Some? {
      RangeCloses(s, i);
    }
  }

  lemma SetOfBracesCloses(s: CString, i: nat)
    requires i < |s|
    ensures SetAt(s, i).2 == NoError ==> SetAt(s, i).1 == Closing(s, Inside(s, i) + 1) + 1 <= |s|
    ensures SetAt(s, i).2 == NoError <==> Closing(s, Inside(s, i) + 1) < |s|
  {
    hide NumRangeAt, RangesAt, Closing;
    var begin := Inside(s, i);
    SetCloses(s, begin, begin, "");
    assert RangesAt(s, begin, begin, "").1 == Closing(s, begin + 1);
  }

  lemma RangeCloses(s: CString, i: nat)
    requires i < |s| && NumRangeAt(s, i, '}').Some?
    ensures NumRangeAt(s, i, '}').value.2 == Closing(s, Inside(s, i) + 1)
  {
    hide NumRangeAt;
    var e := NumRangeAt(s, i, '}').value.2;
    NumRangeInside(s, i, '}');
    assert s[i + 1] in s[i + 1..e] && s[i + 1..e] == [s[i + 1]] + s[i + 2..e];
    ClosingLater(s, i + 2, e);
  }

  /** Exactly which texts are no patterns: those that leave a brace open, and of the others those that end in
      an odd number of backslashes. */
  lemma ErrorsExactly(s: CString, dottedpath: bool)
    ensures Tokens(s, 0, dottedpath, false).error == UnmatchedBrace <==> OpenBrace(s, 0)
    ensures Tokens(s, 0, dottedpath, false).error == LoneBackslash <==>
            !OpenBrace(s, 0) && Backslashes(s, 0, |s|) % 2 == 1
    ensures Tokens(s, 0, dottedpath, false).error == NoError <==>
            !OpenBrace(s, 0) && Backslashes(s, 0, |s|) % 2 == 0
  {
    UnmatchedBraceExactly(s, 0, dottedpath, false);
    LoneBackslashIsOdd(s, 0, dottedpath, false);
  }
}
