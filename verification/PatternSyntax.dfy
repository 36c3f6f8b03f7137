/** What pattern texts mean: sets, numeric ranges, and whole patterns written out part by part. */
module PatternSyntax {
  import opened PatternLanguage
  import opened PatternTokens
  import opened Sequences
  import Numerals

  /** What stands in the braces of a set: single characters and spans of characters. */
  datatype Item = One(c: char) | Span(from: char, to: char)

  function PairOf(item: Item): string {
    match item
    case One(c) => [c, c]
    case Span(from, to) => [from, to]
  }

  function TextOf(item: Item): (text: string)
    ensures text != ""
  {
    match item
    case One(c) => [c]
    case Span(from, to) => [from, '-', to]
  }

  function ItemsText(items: seq<Item>): string {
    if items == [] then ""
    else TextOf(items[0]) + ItemsText(items[1..])
  }

  /** The pairs of characters the items stand for. */
  function Pairs(items: seq<Item>): (ranges: string)
    ensures |ranges| == 2 * |items|
  {
    if items == [] then ""
    else PairOf(items[0]) + Pairs(items[1..])
  }

  predicate InItem(c: char, item: Item) {
    match item
    case One(d) => c == d
    case Span(from, to) => from <= c <= to
  }

  /** The items can be read back: a closing brace only as the very first character, and no minus sign
      between a single character and a further one. */
  predicate Readable(items: seq<Item>, first: bool) {
    items == [] ||
    (&& (first || ItemsText(items)[0] != '}')
     && (items[0].Span? ==> items[0].to != '}')
     && (items[0].One? ==> var rest := ItemsText(items[1..]); |rest| < 2 || rest[0] != '-')
     && Readable(items[1..], false))
  }

  lemma {:induction false} PairsInOrder(items: seq<Item>, k: nat)
    requires k < |items|
    ensures match items[k]
      case One(c) => Pairs(items)[2 * k] == c && Pairs(items)[2 * k + 1] == c
      case Span(from, to) => Pairs(items)[2 * k] == from && Pairs(items)[2 * k + 1] == to
  {
    if k > 0 {
      PairsInOrder(items[1..], k - 1);
    }
  }

  /** The ranges of a set hold exactly the characters of its items. */
  lemma PairsAreTheItems(items: seq<Item>, c: char)
    ensures InRanges(c, Pairs(items)) <==> exists k :: 0 <= k < |items| && InItem(c, items[k])
  {
    hide Pairs;
    if InRanges(c, Pairs(items)) {
      var k :| 0 <= k && 2 * k + 1 < |Pairs(items)| && Pairs(items)[2 * k] <= c <= Pairs(items)[2 * k + 1];
      PairsInOrder(items, k);
      assert InItem(c, items[k]);
    }
    if k :| 0 <= k < |items| && InItem(c, items[k]) {
      PairsInOrder(items, k);
      assert Pairs(items)[2 * k] <= c <= Pairs(items)[2 * k + 1];
    }
  }

  /** One item is read. */
  lemma ItemIsRead(s: CString, begin: nat, i: nat, item: Item, more: string, tail: string, ranges: string)
    requires begin <= i <= |s| && s[i..] == TextOf(item) + (more + "}" + tail)
    requires TextOf(item)[0] != '}' || i == begin
    requires item.Span? ==> item.to != '}'
    requires item.One? ==> |more| < 2 || more[0] != '-'
    ensures i + |TextOf(item)| <= |s| && s[i + |TextOf(item)|..] == more + "}" + tail
    ensures RangesAt(s, i, begin, ranges) == RangesAt(s, i + |TextOf(item)|, begin, ranges + PairOf(item))
  {
    var n, rest := |TextOf(item)|, more + "}" + tail;
    assert s[i + n..] == s[i..][n..] == rest;
    assert s[i] == s[i..][0] == TextOf(item)[0];
    match item
    case One(c) =>
      assert s[i + 1] == rest[0];
      if rest[0] == '-' {
        assert s[i + 2] == rest[1];
        assert |more| == 1 ==> rest[1] == '}';
      }
    case Span(from, to) =>
      assert s[i + 1] == s[i..][1] == '-' && s[i + 2] == s[i..][2] == to;
  }

  /** The items of a set from position `i` up to its closing brace. */
  lemma {:induction false} ItemsAreRead(s: CString, begin: nat, i: nat, items: seq<Item>, tail: string, ranges: string)
    requires begin <= i <= |s| && s[i..] == ItemsText(items) + "}" + tail
    requires Readable(items, i == begin) && (items == [] ==> i > begin)
    ensures i + |ItemsText(items)| < |s|
    ensures RangesAt(s, i, begin, ranges) == (ranges + Pairs(items), i + |ItemsText(items)|)
    decreases |items|
  {
    if items == [] {
      assert s[i] == s[i..][0] == '}';
      assert ranges + Pairs(items) == ranges;
    } else {
      hide RangesAt, PairOf, TextOf;
      var item, rest := items[0], items[1..];
      var next := i + |TextOf(item)|;
      assert ItemsText(items)[0] == TextOf(item)[0];
      assert ItemsText(items) + "}" + tail == TextOf(item) + (ItemsText(rest) + "}" + tail);
      ItemIsRead(s, begin, i, item, ItemsText(rest), tail, ranges);
      ItemsAreRead(s, begin, next, rest, tail, ranges + PairOf(item));
      assert Pairs(items) == PairOf(item) + Pairs(rest);
      hide ItemsText, Readable, Pairs;
      assert ranges + PairOf(item) + Pairs(rest) == ranges + Pairs(items);
      assert next + |ItemsText(rest)| == i + |ItemsText(items)|;
    }
  }

  /** The number of a run of digits is the decimal one. */
  lemma {:induction false} NumberIsDecimal(digits: string)
    requires forall c | c in digits :: '0' <= c <= '9'
    ensures Number(digits) == Numerals.Positional(digits, 10)
  {
    if digits != "" {
      var first, last := digits[..|digits| - 1], digits[|digits| - 1];
      assert digits == first + [last] && last in digits && forall c | c in first :: c in digits;
      NumberIsDecimal(first);
      Numerals.PositionalAppend(first, last, 10);
    }
  }

  /** "{n..m}" and "[n..m]": both bounds, either of them open. */
  lemma NumRangeIsItsBounds(s: CString, i: nat, dots: nat, end: nat, closing: char)
    requires i < dots && dots + 1 < end < |s| && s[dots] == '.' && s[dots + 1] == '.' && s[end] == closing
    requires !IsDigit(closing)
    requires (forall c | c in s[i + 1..dots] :: IsDigit(c)) && (forall c | c in s[dots + 2..end] :: IsDigit(c))
    ensures NumRangeAt(s, i, closing) ==
            Some((if dots == i + 1 then -1 else Number(s[i + 1..dots]),
                  if end == dots + 2 then -1 else Number(s[dots + 2..end]), end))
  {
    DigitsRead(s, i + 1, dots);
    DigitsRead(s, dots + 2, end);
    if i + 1 < dots {
      assert s[i + 1] in s[i + 1..dots];
    }
    if dots + 2 < end {
      assert s[dots + 2] in s[dots + 2..end];
    }
  }

  /** A set: its items in braces, behind a caret when it is negated. */
  function SetText(negated: bool, items: seq<Item>): string {
    "{" + (if negated then "^" else "") + ItemsText(items) + "}"
  }

  /** A set can be read back: its items can, it does not look negated when it is not. */
  predicate SetReadable(negated: bool, items: seq<Item>) {
    items != [] && Readable(items, true) && (negated || ItemsText(items)[0] != '^')
  }

  function SetElem(negated: bool, items: seq<Item>): Elem {
    if negated then NegSet(Pairs(items)) else CharSet(Pairs(items))
  }

  /** A set is read as its items. */
  lemma SetIsItsItems(s: CString, i: nat, negated: bool, items: seq<Item>, tail: string)
    requires i <= |s| && s[i..] == SetText(negated, items) + tail && SetReadable(negated, items)
    ensures i + |SetText(negated, items)| <= |s| && s[i + |SetText(negated, items)|..] == tail
    ensures SetAt(s, i) == (SetElem(negated, items), i + |SetText(negated, items)|, NoError)
  {
    hide RangesAt, Readable, Pairs, ItemsText;
    var begin := if negated then i + 2 else i + 1;
    var body := ItemsText(items) + "}" + tail;
    assert SetText(negated, items) + tail == "{" + (if negated then "^" else "") + body;
    assert s[begin..] == s[i..][begin - i..] == body;
    assert s[i + 1] == s[i..][1];
    assert "" + Pairs(items) == Pairs(items);
    ItemsAreRead(s, begin, begin, items, tail, "");
    assert s[i + |SetText(negated, items)|..] == body[|ItemsText(items)| + 1..];
  }

  /** What a set takes: one character of its items, or one character of none of them. */
  lemma SetTakes(negated: bool, items: seq<Item>, piece: string, rest: string)
    ensures Piece(SetElem(negated, items), piece, rest) <==>
            |piece| == 1 && ((exists k :: 0 <= k < |items| && InItem(piece[0], items[k])) <==> !negated)
  {
    if |piece| == 1 {
      PairsAreTheItems(items, piece[0]);
    }
  }
}
