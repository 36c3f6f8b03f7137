/** What the tokenizer makes of a pattern text. */
module PatternTokens {
  import opened PatternLanguage
  import opened Sequences

  datatype Error = NoError | UnmatchedBrace | LoneBackslash

  /** The character a C string pointer reads: the terminator at the end. */
  function At(s: string, i: nat): char {
    if i < |s| then s[i] else '\0'
  }

  /** The end of the run of digits that starts at `i`. */
  function DigitsEnd(s: string, i: nat): (e: nat)
    requires i <= |s|
    ensures i <= e <= |s| && (forall c | c in s[i..e] :: IsDigit(c)) && (e < |s| ==> !IsDigit(s[e]))
    decreases |s| - i
  {
    if i < |s| && IsDigit(s[i]) then
      var e := DigitsEnd(s, i + 1);
      assert s[i..e] == [s[i]] + s[i + 1..e];
      e
    else i
  }

  /** A run of digits has only one end. */
  lemma {:induction false} DigitsRead(s: string, i: nat, e: nat)
    requires i <= e <= |s| && (forall c | c in s[i..e] :: IsDigit(c)) && (e < |s| ==> !IsDigit(s[e]))
    ensures DigitsEnd(s, i) == e
    decreases e - i
  {
    if i < e {
      assert s[i] in s[i..e] && s[i..e] == [s[i]] + s[i + 1..e];
      DigitsRead(s, i + 1, e);
    }
  }

  /** One bound of a numeric range and the position behind it; -1 when it is missing. */
  function Bound(s: string, i: nat): (r: (int, nat))
    requires i <= |s|
    ensures i <= r.1 <= |s| && -1 <= r.0
  {
    if IsDigit(At(s, i)) then (Number(s[i..DigitsEnd(s, i)]), DigitsEnd(s, i)) else (-1, i)
  }

  /** The numeric range whose opening character stands at `i`: bounds and place of the closing one. */
  function NumRangeAt(s: string, i: nat, closing: char): (r: Option<(int, int, nat)>)
    requires i < |s|
    ensures r.Some? && closing != '\0' ==> i + 2 < r.value.2 < |s| && s[r.value.2] == closing
    ensures r.Some? ==> exists k :: i < k && k + 1 < |s| && s[k] == '.' && s[k + 1] == '.'
  {
    var (lo, j) := Bound(s, i + 1);
    if At(s, j) != '.' || At(s, j + 1) != '.' then None
    else
      var (up, e) := Bound(s, j + 2);
      if At(s, e) != closing then None else Some((lo, up, e))
  }

  /** The literal that starts at `i` after `text`: its text, where it ends, and whether a lone backslash
      ended the pattern.  An opening bracket of a numeric range is taken, but not passed. */
  function LiteralAt(s: CString, i: nat, text: string): (r: (string, nat, Error))
    requires i <= |s|
    ensures i <= r.1 <= |s| && (r.2 == NoError || r.2 == LoneBackslash)
    ensures text <= r.0
    decreases |s| - i
  {
    if i == |s| || s[i] in "?{*" then (text, i, NoError)
    else if s[i] == '\\' && i + 1 == |s| then (text, i, LoneBackslash)
    else
      var j := if s[i] == '\\' then i + 1 else i;
      var more := text + [s[j]];
      if s[j] == '[' && NumRangeAt(s, j, ']').Some? then (more, j, NoError)
      else LiteralAt(s, j + 1, more)
  }

  /** The ranges of a set from `i` on, and where they end; `}` as first character is part of the set. */
  function RangesAt(s: CString, i: nat, begin: nat, ranges: string): (r: (string, nat))
    requires i <= |s|
    ensures i <= r.1 <= |s| && |r.0| % 2 == |ranges| % 2
    decreases |s| - i
  {
    if i == |s| || (s[i] == '}' && i != begin) then (ranges, i)
    else if At(s, i + 1) == '-' && i + 2 < |s| && s[i + 2] != '}' then
      RangesAt(s, i + 3, begin, ranges + [s[i], s[i + 2]])
    else RangesAt(s, i + 1, begin, ranges + [s[i], s[i]])
  }

  function SetAt(s: CString, i: nat): (r: (Elem, nat, Error))
    requires i < |s|
    ensures i < r.1 <= |s| && (r.0.CharSet? || r.0.NegSet?) && |r.0.ranges| % 2 == 0
    ensures r.2 == NoError || r.2 == UnmatchedBrace
  {
    var negated := At(s, i + 1) == '^';
    var begin := if negated then i + 2 else i + 1;
    var (ranges, e) := RangesAt(s, begin, begin, "");
    (if negated then NegSet(ranges) else CharSet(ranges),
     if e == |s| then e else e + 1,
     if e == |s| then UnmatchedBrace else NoError)
  }

  datatype Tokenized = Tokenized(elems: seq<Elem>, error: Error) {
    function After(before: seq<Elem>): Tokenized {
      Tokenized(before + elems, error)
    }
  }

  lemma AfterAfter(rest: Tokenized, before: seq<Elem>, e: Elem)
    ensures rest.After([e]).After(before) == rest.After(before + [e])
  {
    assert before + ([e] + rest.elems) == before + [e] + rest.elems;
  }

  predicate LiteralLast(elems: seq<Elem>) {
    elems != [] && elems[|elems| - 1].LiteralString?
  }

  /** The elements from position `i` on.  At an opening bracket no input may be consumed, but then the
      next element is a numeric range. */
  function Tokens(s: CString, i: nat, dottedpath: bool, afterLiteral: bool): (r: Tokenized)
    requires i <= |s|
    decreases |s| - i, if afterLiteral then 0 else 1
  {
    if i == |s| then Tokenized([], NoError)
    else if s[i] == '?' then
      Tokens(s, i + 1, dottedpath, false).After([if dottedpath then CommonChar else AnyChar])
    else if s[i] == '{' then
      var range := NumRangeAt(s, i, '}');
      if range.Some? then
        Tokens(s, range.value.2 + 1, dottedpath, false).After([NumRange(range.value.0, range.value.1)])
      else
        var (e, j, error) := SetAt(s, i);
        if error != NoError then Tokenized([], error) else Tokens(s, j, dottedpath, false).After([e])
    else if s[i] == '*' then
      if At(s, i + 1) == '*' then Tokens(s, i + 2, dottedpath, false).After([AnySeq])
      else Tokens(s, i + 1, dottedpath, false).After([if dottedpath then CommonSeq else AnySeq])
    else if s[i] == '[' && afterLiteral && NumRangeAt(s, i, ']').Some? then
      var range := NumRangeAt(s, i, ']').value;
      Tokens(s, range.2, dottedpath, false).After([NumRange(range.0, range.1)])
    else
      LiteralProgress(s, i);
      var (text, j, error) := LiteralAt(s, i, "");
      if error != NoError then Tokenized([], error)
      else Tokens(s, j, dottedpath, true).After([LiteralString(text)])
  }

  lemma NothingLeft(s: CString, dottedpath: bool, afterLiteral: bool)
    ensures Tokens(s, |s|, dottedpath, afterLiteral) == Tokenized([], NoError)
  {
  }

  /** Only an opening bracket of a numeric range is left in place by the literal parser. */
  lemma LiteralProgress(s: CString, i: nat)
    requires i < |s| && s[i] !in "?{*"
    ensures LiteralAt(s, i, "").2 == NoError && LiteralAt(s, i, "").1 == i ==>
      s[i] == '[' && NumRangeAt(s, i, ']').Some?
  {
  }

  /** The pattern set: ** on both sides for a substring match, and END behind it. */
  function Complete(elems: seq<Elem>, fullstring: bool): seq<Elem> {
    var back := if fullstring || (elems != [] && elems[|elems| - 1] == AnySeq) then elems else elems + [AnySeq];
    var both := if fullstring || back[0] == AnySeq then back else [AnySeq] + back;
    both + [End]
  }
}
