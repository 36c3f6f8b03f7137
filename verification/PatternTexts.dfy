/** Whole patterns: what is written part by part is read back part by part, and means what the parts mean. */
module PatternTexts {
  import opened PatternLanguage
  import opened PatternTokens
  import opened PatternSyntax
  import opened PatternSubstrings
  import opened Sequences

  /** A character of plain text, with or without a backslash before it. */
  datatype Letter = Plain(c: char) | Escaped(c: char)

  datatype Part =
    | Text(letters: seq<Letter>)
    | Question
    | Star
    | DoubleStar
    | Chars(negated: bool, items: seq<Item>)
    | Braces(from: string, to: string)
    | Brackets(from: string, to: string) // the brackets themselves belong to the text before and behind

  function LetterText(letter: Letter): (text: string)
    ensures text != ""
  {
    match letter
    case Plain(c) => [c]
    case Escaped(c) => ['\\', c]
  }

  function LettersText(letters: seq<Letter>): string {
    if letters == [] then "" else LetterText(letters[0]) + LettersText(letters[1..])
  }

  /** The text the letters stand for. */
  function Said(letters: seq<Letter>): string {
    if letters == [] then "" else [letters[0].c] + Said(letters[1..])
  }

  function PartText(part: Part): string {
    match part
    case Text(letters) => LettersText(letters)
    case Question => "?"
    case Star => "*"
    case DoubleStar => "**"
    case Chars(negated, items) => SetText(negated, items)
    case Braces(from, to) => "{" + (from + (".." + (to + "}")))
    case Brackets(from, to) => from + (".." + to)
  }

  /** The pattern as it is written. */
  function Written(parts: seq<Part>): string {
    if parts == [] then "" else PartText(parts[0]) + Written(parts[1..])
  }

  predicate Digits(digits: string) {
    forall c | c in digits :: IsDigit(c)
  }

  /** A bound of a numeric range; -1 when it is left out. */
  function Value(digits: string): int
    requires Digits(digits)
  {
    if digits == "" then -1 else Number(digits)
  }

  /** Letters that are read back before `after`: wildcards and backslashes have a backslash before them, and a
      bracket opens a numeric range exactly when it is the last letter and a range is to follow. */
  predicate LettersFit(letters: seq<Letter>, after: string, opening: bool) {
    letters == [] ||
    var rest := LettersText(letters[1..]) + after;
    && (letters[0].Plain? ==> letters[0].c !in "?{*\\")
    && (letters[0].c == '[' && NumRangeAt(['['] + rest, 0, ']').Some? <==> opening && |letters| == 1)
    && LettersFit(letters[1..], after, opening)
  }

  predicate StartsWithText(parts: seq<Part>) {
    parts != [] && parts[0].Text?
  }

  predicate StartsWithBrackets(parts: seq<Part>) {
    parts != [] && parts[0].Brackets?
  }

  /** Parts that are read back: the texts fit, no text follows a text, no star follows a star, a set does
      not look like a numeric range, and what is between brackets has brackets around it. */
  predicate Fit(parts: seq<Part>) {
    parts == [] ||
    var rest := parts[1..];
    var after := Written(rest);
    && Fit(rest)
    && (parts[0].Text? || !StartsWithBrackets(rest))
    && match parts[0]
       case Text(letters) =>
         letters != [] && LettersFit(letters, after, StartsWithBrackets(rest)) && !StartsWithText(rest)
       case Question => true
       case Star => after == "" || after[0] != '*'
       case DoubleStar => true
       case Chars(negated, items) =>
         SetReadable(negated, items) && NumRangeAt(SetText(negated, items) + after, 0, '}').None?
       case Braces(from, to) => Digits(from) && Digits(to)
       case Brackets(from, to) => Digits(from) && Digits(to) && StartsWithText(rest) && after[0] == ']'
  }

  /** What a part takes from a line, in the words of the pattern syntax. */
  ghost predicate Means(part: Part, dottedpath: bool, piece: string, rest: string)
    requires part.Braces? || part.Brackets? ==> Digits(part.from) && Digits(part.to)
  {
    match part
    case Text(letters) => piece == Said(letters)
    case Question => |piece| == 1 && (dottedpath ==> piece != ".")
    case Star => dottedpath ==> '.' !in piece
    case DoubleStar => true
    case Chars(negated, items) =>
      |piece| == 1 && ((exists k :: 0 <= k < |items| && InItem(piece[0], items[k])) <==> !negated)
    case Braces(from, to) => InBounds(from, to, piece, rest)
    case Brackets(from, to) => InBounds(from, to, piece, rest)
  }

  /** A whole number within the bounds, either of which may be left out. */
  ghost predicate InBounds(from: string, to: string, piece: string, rest: string)
    requires Digits(from) && Digits(to)
  {
    && piece != "" && Digits(piece) && (rest == "" || !IsDigit(rest[0]))
    && (from != "" ==> Number(from) <= Number(piece)) && (to != "" ==> Number(piece) <= Number(to))
  }

  /** The first `n` characters of the line split into one piece for each part. */
  ghost predicate Follows(parts: seq<Part>, dottedpath: bool, line: string, n: nat)
    requires Fit(parts) && n <= |line|
  {
    if parts == [] then n == 0 else exists m :: 0 <= m <= n && FollowsWith(parts, dottedpath, line, n, m)
  }

  ghost predicate FollowsWith(parts: seq<Part>, dottedpath: bool, line: string, n: nat, m: nat)
    requires Fit(parts) && parts != [] && m <= n <= |line|
  {
    Means(parts[0], dottedpath, line[..m], line[m..]) && Follows(parts[1..], dottedpath, line[m..], n - m)
  }

  ghost predicate FollowsAt(parts: seq<Part>, dottedpath: bool, line: string, i: nat, j: nat)
    requires Fit(parts) && i <= j <= |line|
  {
    Follows(parts, dottedpath, line[i..], j - i)
  }

  /** The whole line is as the parts say, or some part of it is. */
  ghost predicate Described(parts: seq<Part>, dottedpath: bool, fullstring: bool, line: string)
    requires Fit(parts)
  {
    if fullstring then Follows(parts, dottedpath, line, |line|)
    else exists i, j :: 0 <= i <= j <= |line| && FollowsAt(parts, dottedpath, line, i, j)
  }

  function PartElem(part: Part, dottedpath: bool): Elem
    requires part.Braces? || part.Brackets? ==> Digits(part.from) && Digits(part.to)
  {
    match part
    case Text(letters) => LiteralString(Said(letters))
    case Question => if dottedpath then CommonChar else AnyChar
    case Star => if dottedpath then CommonSeq else AnySeq
    case DoubleStar => AnySeq
    case Chars(negated, items) => SetElem(negated, items)
    case Braces(from, to) => NumRange(Value(from), Value(to))
    case Brackets(from, to) => NumRange(Value(from), Value(to))
  }

  function Elems(parts: seq<Part>, dottedpath: bool): seq<Elem>
    requires Fit(parts)
  {
    if parts == [] then [] else [PartElem(parts[0], dottedpath)] + Elems(parts[1..], dottedpath)
  }

  /** Each element takes what its part means. */
  lemma ElemMeansPart(part: Part, dottedpath: bool, piece: string, rest: string)
    requires part.Braces? || part.Brackets? ==> Digits(part.from) && Digits(part.to)
    ensures Piece(PartElem(part, dottedpath), piece, rest) <==> Means(part, dottedpath, piece, rest)
  {
    if part.Chars? {
      SetTakes(part.negated, part.items, piece, rest);
    }
  }

  /** The elements take from a line what the parts mean. */
  lemma {:induction false} ElemsMeanParts(parts: seq<Part>, dottedpath: bool, line: string, n: nat)
    requires Fit(parts) && n <= |line|
    ensures Covers(Elems(parts, dottedpath), line, n) <==> Follows(parts, dottedpath, line, n)
    decreases |parts|
  {
    if parts != [] {
      hide Fit;
      var p := Elems(parts, dottedpath);
      forall m | 0 <= m <= n
        ensures CoversWith(p, line, n, m) <==> FollowsWith(parts, dottedpath, line, n, m)
      {
        ElemMeansPart(parts[0], dottedpath, line[..m], line[m..]);
        ElemsMeanParts(parts[1..], dottedpath, line[m..], n - m);
      }
    }
  }

  lemma FoundIsDescribed(parts: seq<Part>, dottedpath: bool, fullstring: bool, line: string)
    requires Fit(parts)
    ensures Found(Elems(parts, dottedpath), fullstring, line) <==> Described(parts, dottedpath, fullstring, line)
  {
    hide Covers, Follows, Fit;
    if fullstring {
      ElemsMeanParts(parts, dottedpath, line, |line|);
    } else {
      forall i, j | 0 <= i <= j <= |line|
        ensures CoversAt(Elems(parts, dottedpath), line, i, j) <==> FollowsAt(parts, dottedpath, line, i, j)
      {
        ElemsMeanParts(parts, dottedpath, line[i..], j - i);
      }
    }
  }

  /** A run of digits ends at the same place in the rest of a text. */
  lemma {:induction false} DigitsShift(s: string, k: nat, i: nat)
    requires k <= i <= |s|
    ensures DigitsEnd(s, i) == k + DigitsEnd(s[k..], i - k)
    decreases |s| - i
  {
    if i < |s| {
      assert s[k..][i - k] == s[i];
      DigitsShift(s, k, i + 1);
    }
  }

  lemma AtShift(s: string, k: nat, i: nat)
    requires k <= i && k <= |s|
    ensures At(s[k..], i - k) == At(s, i)
  {
  }

  lemma BoundShift(s: string, k: nat, i: nat)
    requires k <= i <= |s|
    ensures Bound(s[k..], i - k).1 == Bound(s, i).1 - k
  {
    AtShift(s, k, i);
    DigitsShift(s, k, i);
  }

  /** The dots and the closing character of a numeric range stand where they must. */
  predicate RangeAhead(s: string, i: nat, closing: char)
    requires i < |s|
  {
    var j := Bound(s, i + 1).1;
    j + 2 <= |s| && At(s, j) == '.' && At(s, j + 1) == '.' && At(s, Bound(s, j + 2).1) == closing
  }

  lemma RangeAheadExactly(s: string, i: nat, closing: char)
    requires i < |s|
    ensures NumRangeAt(s, i, closing).Some? <==> RangeAhead(s, i, closing)
  {
  }

  /** Whether a numeric range is read depends on the rest of the text alone. */
  lemma NumRangeShift(s: string, i: nat, closing: char)
    requires i < |s|
    ensures NumRangeAt(s, i, closing).Some? <==> NumRangeAt(s[i..], 0, closing).Some?
  {
    hide At, Bound, NumRangeAt;
    RangeAheadExactly(s, i, closing);
    RangeAheadExactly(s[i..], 0, closing);
    BoundShift(s, i, i + 1);
    var j := Bound(s, i + 1).1;
    AtShift(s, i, j);
    AtShift(s, i, j + 1);
    if j + 2 <= |s| {
      BoundShift(s, i, j + 2);
      AtShift(s, i, Bound(s, j + 2).1);
    }
  }

  /** One letter is read: the literal ends before it as a bracket, or goes on behind it. */
  lemma LetterIsRead(s: CString, i: nat, letter: Letter, rest: string, text: string)
    requires i <= |s| && s[i..] == LetterText(letter) + rest && (letter.Plain? ==> letter.c !in "?{*\\")
    ensures |rest| < |s| - i && s[|s| - |rest|..] == rest && s[|s| - |rest| - 1..] == [letter.c] + rest
    ensures LiteralAt(s, i, text) ==
            if letter.c == '[' && NumRangeAt(['['] + rest, 0, ']').Some?
            then (text + [letter.c], |s| - |rest| - 1, NoError)
            else LiteralAt(s, |s| - |rest|, text + [letter.c])
  {
    hide NumRangeAt;
    var j := if letter.Plain? then i else i + 1;
    assert s[i] == s[i..][0] && s[j] == s[i..][j - i] == letter.c;
    assert s[j + 1..] == rest;
    assert s[j..] == [letter.c] + rest;
    NumRangeShift(s, j, ']');
  }

  lemma LiteralEnds(s: CString, i: nat, text: string)
    requires i <= |s| && (s[i..] == "" || s[i..][0] in "?{*")
    ensures LiteralAt(s, i, text) == (text, i, NoError)
  {
    assert i < |s| ==> s[i] == s[i..][0];
  }

  lemma FirstSaid(letters: seq<Letter>)
    requires letters != []
    ensures Said(letters) == [letters[0].c] + Said(letters[1..])
  {
  }

  lemma OneLetter(letter: Letter, after: string)
    ensures LettersText([]) + after == after && Said([letter]) == [letter.c]
  {
  }

  lemma FirstLetter(letters: seq<Letter>, after: string, opening: bool)
    requires letters != [] && LettersFit(letters, after, opening)
    ensures var rest := LettersText(letters[1..]) + after;
      && LettersText(letters) + after == LetterText(letters[0]) + rest
      && (letters[0].Plain? ==> letters[0].c !in "?{*\\")
      && (letters[0].c == '[' && NumRangeAt(['['] + rest, 0, ']').Some? <==> opening && |letters| == 1)
      && LettersFit(letters[1..], after, opening)
  {
    hide NumRangeAt, LetterText;
  }

  /** From position `i` the literal parser adds `said` to `text` and stops before `after`, or before the bracket that
      opens a range. */
  ghost predicate LiteralReads(s: CString, i: nat, text: string, said: string, after: string, opening: bool)
    requires i <= |s|
  {
    && |after| <= |s| - i && s[|s| - |after|..] == after
    && (opening ==> |after| < |s| - i && s[|s| - |after| - 1..] == ['['] + after)
    && LiteralAt(s, i, text) == (text + said, |s| - |after| - (if opening then 1 else 0), NoError)
  }

  lemma NoLetters(s: CString, i: nat, after: string, text: string)
    requires i <= |s| && s[i..] == LettersText([]) + after && (after == "" || after[0] in "?{*")
    ensures LiteralReads(s, i, text, Said([]), after, false)
  {
    hide LiteralAt;
    assert "" + after == after && text + "" == text;
    LiteralEnds(s, i, text);
  }

  /** The bracket before a numeric range is the last letter. */
  lemma BracketIsRead(s: CString, i: nat, letter: Letter, after: string, text: string)
    requires i <= |s| && s[i..] == LetterText(letter) + after && letter.c == '['
    requires NumRangeAt(['['] + after, 0, ']').Some?
    ensures LiteralReads(s, i, text, [letter.c], after, true)
  {
    hide LiteralAt, NumRangeAt;
    LetterIsRead(s, i, letter, after, text);
  }

  /** Any other letter is added to the text. */
  lemma LetterGoesOn(s: CString, i: nat, letter: Letter, rest: string, text: string) returns (j: nat)
    requires i <= |s| && s[i..] == LetterText(letter) + rest && (letter.Plain? ==> letter.c !in "?{*\\")
    requires !(letter.c == '[' && NumRangeAt(['['] + rest, 0, ']').Some?)
    ensures i < j <= |s| && s[j..] == rest && LiteralAt(s, i, text) == LiteralAt(s, j, text + [letter.c])
  {
    hide LiteralAt, NumRangeAt;
    LetterIsRead(s, i, letter, rest, text);
    j := |s| - |rest|;
  }

  lemma ReadsMore(s: CString, i: nat, j: nat, text: string, c: char, said: string, after: string, opening: bool)
    requires i < j <= |s| && LiteralAt(s, i, text) == LiteralAt(s, j, text + [c])
    requires LiteralReads(s, j, text + [c], said, after, opening)
    ensures LiteralReads(s, i, text, [c] + said, after, opening)
  {
    hide LiteralAt;
    assert text + [c] + said == text + ([c] + said);
  }

  /** Letters are read as what they say, up to what comes after or the bracket of a numeric range. */
  lemma {:induction false} LettersAreRead(s: CString, i: nat, letters: seq<Letter>, after: string, opening: bool,
                                          text: string)
    requires i <= |s| && s[i..] == LettersText(letters) + after && LettersFit(letters, after, opening)
    requires if opening then letters != [] else after == "" || after[0] in "?{*"
    ensures LiteralReads(s, i, text, Said(letters), after, opening)
    decreases |letters|
  {
    hide NumRangeAt, LiteralAt, LetterText, LettersText, LettersFit, Said, LiteralReads;
    if letters == [] {
      NoLetters(s, i, after, text);
    } else {
      var letter, rest := letters[0], LettersText(letters[1..]) + after;
      FirstLetter(letters, after, opening);
      if opening && |letters| == 1 {
        assert letters[1..] == [] && letters == [letter];
        OneLetter(letter, after);
        BracketIsRead(s, i, letter, after, text);
      } else {
        var j := LetterGoesOn(s, i, letter, rest, text);
        LettersAreRead(s, j, letters[1..], after, opening, text + [letter.c]);
        ReadsMore(s, i, j, text, letter.c, Said(letters[1..]), after, opening);
        FirstSaid(letters);
      }
    }
  }

  /** Where the pieces of a numeric range stand. */
  lemma RangeStands(s: CString, i: nat, from: string, to: string, closing: char, tail: string)
    requires i <= |s| && s[i..] == from + (".." + (to + ([closing] + tail)))
    ensures var dots := i + |from|;
      var end := dots + 2 + |to|;
      && end + 1 + |tail| == |s| && s[i..dots] == from && s[dots] == '.' && s[dots + 1] == '.'
      && s[dots + 2..end] == to && s[end] == closing && s[end..] == [closing] + tail && s[end + 1..] == tail
  {
    var dots := i + |from|;
    var end := dots + 2 + |to|;
    Follow(s, i, from, ".." + (to + ([closing] + tail)));
    Follow(s, dots, "..", to + ([closing] + tail));
    assert s[dots] == s[dots..dots + 2][0] && s[dots + 1] == s[dots..dots + 2][1];
    Follow(s, dots + 2, to, [closing] + tail);
    Follow(s, end, [closing], tail);
    assert s[end] == s[end..end + 1][0];
  }

  /** The numeric range that is written with `from` and `to` is read with their values. */
  lemma RangeIsRead(s: CString, i: nat, from: string, to: string, closing: char, tail: string)
    requires i < |s| && s[i + 1..] == from + (".." + (to + ([closing] + tail))) && !IsDigit(closing)
    requires Digits(from) && Digits(to)
    ensures |tail| + 1 < |s| - i && s[|s| - |tail| - 1] == closing
    ensures s[|s| - |tail|..] == tail && s[|s| - |tail| - 1..] == [closing] + tail
    ensures NumRangeAt(s, i, closing) == Some((Value(from), Value(to), |s| - |tail| - 1))
  {
    hide Number, IsDigit, NumRangeAt;
    var dots := i + 1 + |from|;
    RangeStands(s, i + 1, from, to, closing, tail);
    NumRangeIsItsBounds(s, i, dots, dots + 2 + |to|, closing);
  }

  /** A text that is made of two parts is the one, then the other. */
  lemma Follow(s: string, i: nat, first: string, second: string)
    requires i <= |s| && s[i..] == first + second
    ensures i + |first| <= |s| && s[i..i + |first|] == first && s[i + |first|..] == second
  {
    assert s[i..i + |first|] == s[i..][..|first|];
    assert s[i + |first|..] == s[i..][|first|..];
  }

  /** At position `i` the element `e` is read, and `remaining` is left; after a literal when `literal`. */
  ghost predicate ReadAs(s: CString, i: nat, dottedpath: bool, afterLiteral: bool, e: Elem, remaining: string,
                         literal: bool)
    requires i <= |s|
  {
    var j := |s| - |remaining|;
    && 0 <= j <= |s| && s[j..] == remaining
    && Tokens(s, i, dottedpath, afterLiteral) == Tokens(s, j, dottedpath, literal).After([e])
  }

  lemma LiteralIsRead(s: CString, i: nat, text: string, j: nat, dottedpath: bool)
    requires i < |s| && s[i] !in "?{*" && LiteralAt(s, i, "") == (text, j, NoError)
    ensures Tokens(s, i, dottedpath, false) == Tokens(s, j, dottedpath, true).After([LiteralString(text)])
  {
    hide LiteralAt, NumRangeAt, SetAt;
    LiteralProgress(s, i);
  }

  /** A text does not begin with a wildcard. */
  lemma TextFirst(s: CString, i: nat, letters: seq<Letter>, after: string, opening: bool)
    requires i <= |s| && s[i..] == LettersText(letters) + after
    requires letters != [] && LettersFit(letters, after, opening)
    ensures i < |s| && s[i] !in "?{*"
  {
    hide NumRangeAt, LettersFit, LettersText;
    FirstLetter(letters, after, opening);
    var rest := LettersText(letters[1..]) + after;
    assert s[i] == s[i..][0] == LetterText(letters[0])[0];
  }

  lemma TextIsRead(s: CString, i: nat, letters: seq<Letter>, after: string, opening: bool, dottedpath: bool)
    requires i <= |s| && s[i..] == LettersText(letters) + after
    requires letters != [] && LettersFit(letters, after, opening)
    requires opening || after == "" || after[0] in "?{*"
    ensures ReadAs(s, i, dottedpath, false, LiteralString(Said(letters)), (if opening then "[" else "") + after, true)
  {
    hide LiteralAt, NumRangeAt, LettersFit, LettersText, Said, Tokens;
    TextFirst(s, i, letters, after, opening);
    LettersAreRead(s, i, letters, after, opening, "");
    assert "" + Said(letters) == Said(letters);
    assert "" + after == after;
    LiteralIsRead(s, i, Said(letters), |s| - |after| - (if opening then 1 else 0), dottedpath);
  }

  lemma RangeToken(s: CString, i: nat, dottedpath: bool, afterLiteral: bool)
    requires i < |s| && s[i] == '{' && NumRangeAt(s, i, '}').Some?
    ensures var (from, to, end) := NumRangeAt(s, i, '}').value;
            Tokens(s, i, dottedpath, afterLiteral) == Tokens(s, end + 1, dottedpath, false).After([NumRange(from, to)])
  {
    hide LiteralAt, NumRangeAt, SetAt;
  }

  lemma BracesStand(from: string, to: string, after: string)
    ensures PartText(Braces(from, to)) + after == "{" + (from + (".." + (to + (['}'] + after))))
  {
    assert "}" + after == ['}'] + after;
  }

  lemma BracesAreRead(s: CString, i: nat, from: string, to: string, after: string, dottedpath: bool, afterLiteral: bool)
    requires i <= |s| && s[i..] == PartText(Braces(from, to)) + after && Digits(from) && Digits(to)
    ensures ReadAs(s, i, dottedpath, afterLiteral, NumRange(Value(from), Value(to)), after, false)
  {
    hide LiteralAt, NumRangeAt, SetAt, Value, Digits, Tokens;
    BracesStand(from, to, after);
    hide PartText;
    Follow(s, i, "{", from + (".." + (to + (['}'] + after))));
    assert s[i] == s[i..i + 1][0] == '{';
    RangeIsRead(s, i, from, to, '}', after);
    RangeToken(s, i, dottedpath, afterLiteral);
  }

  lemma BracketToken(s: CString, i: nat, dottedpath: bool)
    requires i < |s| && s[i] == '[' && NumRangeAt(s, i, ']').Some?
    ensures var (from, to, end) := NumRangeAt(s, i, ']').value;
            Tokens(s, i, dottedpath, true) == Tokens(s, end, dottedpath, false).After([NumRange(from, to)])
  {
    hide LiteralAt, NumRangeAt, SetAt;
  }

  lemma BracketsStand(from: string, to: string, after: string)
    requires after != "" && after[0] == ']'
    ensures "[" + PartText(Brackets(from, to)) + after == "[" + (from + (".." + (to + ([']'] + after[1..]))))
    ensures after == [']'] + after[1..]
  {
  }

  lemma BracketsAreRead(s: CString, i: nat, from: string, to: string, after: string, dottedpath: bool)
    requires i <= |s| && s[i..] == "[" + PartText(Brackets(from, to)) + after && Digits(from) && Digits(to)
    requires after != "" && after[0] == ']'
    ensures ReadAs(s, i, dottedpath, true, NumRange(Value(from), Value(to)), after, false)
  {
    hide LiteralAt, NumRangeAt, SetAt, Value, Digits, Tokens, PartText;
    BracketsStand(from, to, after);
    assert s[i] == s[i..][0] == '[';
    assert s[i + 1..] == s[i..][1..];
    RangeIsRead(s, i, from, to, ']', after[1..]);
    BracketToken(s, i, dottedpath);
  }

  lemma SetIsRead(s: CString, i: nat, negated: bool, items: seq<Item>, after: string, dottedpath: bool,
                  afterLiteral: bool)
    requires i <= |s| && s[i..] == SetText(negated, items) + after && SetReadable(negated, items)
    requires NumRangeAt(SetText(negated, items) + after, 0, '}').None?
    ensures ReadAs(s, i, dottedpath, afterLiteral, SetElem(negated, items), after, false)
  {
    hide LiteralAt, NumRangeAt, SetAt, SetReadable, SetElem;
    assert s[i] == s[i..][0] == '{';
    NumRangeShift(s, i, '}');
    SetIsItsItems(s, i, negated, items, after);
  }

  lemma WildcardIsRead(s: CString, i: nat, part: Part, after: string, dottedpath: bool, afterLiteral: bool)
    requires i <= |s| && s[i..] == PartText(part) + after
    requires part.Question? || part.DoubleStar? || (part.Star? && (after == "" || after[0] != '*'))
    ensures ReadAs(s, i, dottedpath, afterLiteral, PartElem(part, dottedpath), after, false)
  {
    hide LiteralAt, NumRangeAt, SetAt;
    var n := |PartText(part)|;
    assert s[i] == s[i..][0];
    assert s[i + n..] == s[i..][n..] == after;
    assert n == 2 ==> s[i + 1] == s[i..][1];
    assert n == 1 && after != "" ==> s[i + 1] == s[i..][1] == after[0];
  }

  /** The text from a position on that the parts are read from: a range between brackets is read from its
      opening bracket on. */
  function Remaining(parts: seq<Part>): string {
    (if StartsWithBrackets(parts) then "[" else "") + Written(parts)
  }

  /** What is no text and not between brackets starts with a wildcard. */
  lemma WildcardFirst(parts: seq<Part>)
    requires !StartsWithText(parts) && !StartsWithBrackets(parts)
    ensures Written(parts) == "" || Written(parts)[0] in "?{*"
  {
  }

  /** The first part is read as its element, and the others are left. */
  lemma FirstIsRead(s: CString, i: nat, parts: seq<Part>, dottedpath: bool, afterLiteral: bool)
    requires i <= |s| && Fit(parts) && parts != [] && s[i..] == Remaining(parts)
    requires StartsWithBrackets(parts) ==> afterLiteral
    requires StartsWithText(parts) ==> !afterLiteral
    ensures ReadAs(s, i, dottedpath, afterLiteral, PartElem(parts[0], dottedpath), Remaining(parts[1..]),
                   parts[0].Text?)
  {
    hide ReadAs, LettersFit, SetReadable, NumRangeAt, Digits, Value;
    var part, after := parts[0], Written(parts[1..]);
    assert !part.Text? ==> Remaining(parts[1..]) == after;
    match part {
      case Text(letters) =>
        if !StartsWithBrackets(parts[1..]) {
          WildcardFirst(parts[1..]);
        }
        TextIsRead(s, i, letters, after, StartsWithBrackets(parts[1..]), dottedpath);
      case Braces(from, to) => BracesAreRead(s, i, from, to, after, dottedpath, afterLiteral);
      case Brackets(from, to) => BracketsAreRead(s, i, from, to, after, dottedpath);
      case Chars(negated, items) => SetIsRead(s, i, negated, items, after, dottedpath, afterLiteral);
      case _ => WildcardIsRead(s, i, part, after, dottedpath, afterLiteral);
    }
  }

  lemma ReadOn(s: CString, i: nat, dottedpath: bool, afterLiteral: bool, e: Elem, remaining: string, literal: bool,
               more: seq<Elem>)
    requires i <= |s| && ReadAs(s, i, dottedpath, afterLiteral, e, remaining, literal)
    requires Tokens(s, |s| - |remaining|, dottedpath, literal) == Tokenized(more, NoError)
    ensures Tokens(s, i, dottedpath, afterLiteral) == Tokenized([e] + more, NoError)
  {
    hide Tokens;
  }

  /** The parts from position `i` on are read as their elements. */
  lemma {:induction false} PartsAreRead(s: CString, i: nat, parts: seq<Part>, dottedpath: bool, afterLiteral: bool)
    requires i <= |s| && Fit(parts) && s[i..] == Remaining(parts)
    requires StartsWithBrackets(parts) ==> afterLiteral
    requires StartsWithText(parts) ==> !afterLiteral
    ensures Tokens(s, i, dottedpath, afterLiteral) == Tokenized(Elems(parts, dottedpath), NoError)
    decreases |parts|
  {
    hide Tokens, LettersFit, SetReadable, NumRangeAt, Digits, PartElem, PartText;
    if parts == [] {
      assert |s[i..]| == 0;
      NothingLeft(s, dottedpath, afterLiteral);
    } else {
      var e, rest := PartElem(parts[0], dottedpath), parts[1..];
      hide Written;
      FirstIsRead(s, i, parts, dottedpath, afterLiteral);
      PartsAreRead(s, |s| - |Remaining(rest)|, rest, dottedpath, parts[0].Text?);
      ReadOn(s, i, dottedpath, afterLiteral, e, Remaining(rest), parts[0].Text?, Elems(rest, dottedpath));
    }
  }

  /** A pattern written part by part is no error, and it matches exactly the lines that are as its parts say, from
      beginning to end, or somewhere when it is a substring pattern. */
  lemma WrittenPatternMeansItsParts(s: CString, parts: seq<Part>, dottedpath: bool, fullstring: bool, line: string)
    requires s == Written(parts) && Fit(parts) && !StartsWithBrackets(parts)
    ensures Tokens(s, 0, dottedpath, false) == Tokenized(Elems(parts, dottedpath), NoError)
    ensures InLanguage(Complete(Tokens(s, 0, dottedpath, false).elems, fullstring), line) <==>
            Described(parts, dottedpath, fullstring, line)
  {
    hide Tokens, Complete, InLanguage, Found, Described;
    assert Remaining(parts) == s;
    PartsAreRead(s, 0, parts, dottedpath, false);
    FoundIsDescribed(parts, dottedpath, fullstring, line);
    CompleteFinds(Elems(parts, dottedpath), fullstring, line);
  }
}
