/** Numerals: what the texts of Int128 values stand for, by the places of their digits. */
module Int128Numerals {
  import opened Int128Text
  import opened Numerals
  import opened Sequences
  import opened Words

  /** A digit of the radix, letters in upper case. */
  predicate IsDigitOf(c: char, radix: nat) {
    ('0' <= c <= '9' || 'A' <= c < 'a') && Worth(c) < radix
  }

  /** The text is the number in this radix, without leading zeros. */
  ghost predicate IsNumeral(s: string, radix: nat, n: nat) {
    && s != "" && s[0] != '0' && (forall k | 0 <= k < |s| :: IsDigitOf(s[k], radix))
    && Positional(s, radix) == n
  }

  /** The text of a value that is not 0, in a radix that is allowed. */
  ghost predicate IsText(s: string, radix: nat, v: int) {
    if v >= 0 then IsNumeral(s, radix, v) else s != "" && s[0] == '-' && IsNumeral(s[1..], radix, -v)
  }

  /** The digits of a number are its numeral. */
  lemma {:induction false} DigitsAreNumeral(n: nat, radix: nat)
    requires 2 <= radix <= 37
    ensures n > 0 ==> IsNumeral(Digits(n, radix), radix, n)
  {
    if n > 0 {
      Shrinks(n, radix);
      DivModFacts(n, radix);
      NoLeadingZero(n, radix);
      var first, last := Digits(n / radix, radix), DigitChar(n % radix);
      assert Digits(n, radix) == first + [last];
      PositionalAppend(first, last, radix);
      if n / radix > 0 {
        DigitsAreNumeral(n / radix, radix);
      }
    }
  }

  /** The text of every value but 0 and -2^127, in every radix from 2 to 37. */
  lemma TextIsNumeral(v: int, radix: nat)
    requires 2 <= radix <= 37 && v != 0 && v != -0x8000_0000_0000_0000_0000_0000_0000_0000
    ensures IsText(Text(v, radix), radix, v)
  {
    var n: nat := if v < 0 then -v else v;
    DigitsAreNumeral(n, radix);
    assert ("-" + Digits(n, radix))[1..] == Digits(n, radix);
  }

  lemma {:induction false} PowerPositive(radix: nat, n: nat)
    requires radix > 0
    ensures Power(radix, n) > 0
  {
    if n > 0 {
      PowerPositive(radix, n - 1);
    }
  }

  lemma NumeralIsPositive(s: string, radix: nat, n: nat)
    requires IsNumeral(s, radix, n)
    ensures n > 0
  {
    PowerPositive(radix, |s| - 1);
    assert IsDigitOf(s[0], radix);
    assert Worth(s[0]) * Power(radix, |s| - 1) > 0;
  }

  /** A numeral without its last digit. */
  lemma NumeralEnds(s: string, radix: nat, n: nat)
    requires IsNumeral(s, radix, n)
    ensures var first := s[..|s| - 1];
      && n / radix == Positional(first, radix) && n % radix == Worth(s[|s| - 1])
      && (first != "" ==> IsNumeral(first, radix, n / radix))
  {
    var first, last := s[..|s| - 1], s[|s| - 1];
    assert s == first + [last];
    PositionalAppend(first, last, radix);
    assert IsDigitOf(last, radix);
    DivModUnique(n, radix, Positional(first, radix), Worth(last));
  }

  /** A number has only one numeral: the texts are determined by what they stand for. */
  lemma {:induction false} NumeralIsUnique(s: string, t: string, radix: nat, n: nat)
    requires IsNumeral(s, radix, n) && IsNumeral(t, radix, n)
    ensures s == t
    decreases |s|
  {
    NumeralEnds(s, radix, n);
    NumeralEnds(t, radix, n);
    var x, y := s[|s| - 1], t[|t| - 1];
    assert IsDigitOf(x, radix) && IsDigitOf(y, radix) && Worth(x) == Worth(y);
    var a, b := s[..|s| - 1], t[..|t| - 1];
    if a != "" && b != "" {
      NumeralIsUnique(a, b, radix, n / radix);
    } else if a != "" {
      NumeralIsPositive(a, radix, n / radix);
    } else if b != "" {
      NumeralIsPositive(b, radix, n / radix);
    }
    assert s == a + [x] && t == b + [y];
  }

  /** The characters `set` takes for digits: those of the radix, in either case, and one letter too many. */
  predicate TakenForDigit(c: char, radix: nat) {
    ('0' <= c <= '9' && Worth(c) < radix) || ('A' <= c && c as int - 'A' as int + 10 <= radix)
    || ('a' <= c && c as int - 'a' as int + 10 <= radix)
  }

  lemma DigitIsTaken(c: char, radix: nat)
    requires radix == 8 || radix == 10 || radix == 16
    ensures DigitValue(c, radix) == if TakenForDigit(c, radix) then Some(Worth(c)) else None
  {
  }

  function WithPrefix(radix: nat, s: string): string {
    (if radix == 8 then "0" else if radix == 16 then "0x" else "") + s
  }

  function WithSign(minus: bool, s: string): string {
    if minus then "-" + s else s
  }

  /** A text as `set` reads it: a minus sign or none, the prefix of the radix, digits, and a rest that begins with
      no digit. */
  ghost predicate IsReading(sz: string, minus: bool, radix: nat, digits: string, rest: string) {
    && (radix == 8 || radix == 10 || radix == 16)
    && sz == WithSign(minus, WithPrefix(radix, digits + rest))
    && (forall c | c in digits :: TakenForDigit(c, radix)) && (rest == "" || !TakenForDigit(rest[0], radix))
    && (radix == 8 && digits == "" ==> rest == "" || rest[0] != 'x')
    && (radix == 10 && digits != "" ==> digits[0] != '0')
    && (radix == 10 && digits == "" && !minus ==> rest == "" || rest[0] != '-')
  }

  function NumberRead(minus: bool, radix: nat, digits: string): int {
    var n: int := Positional(digits, radix);
    if minus then -n else n
  }

  lemma ReadOn(acc: nat, radix: nat, worth: nat, power: nat, rest: nat)
    ensures (acc * radix + worth) * power + rest == acc * (radix * power) + (worth * power + rest)
  {
    assert (acc * radix) * power == acc * (radix * power);
  }

  lemma {:induction false} DigitsAreRead(digits: string, rest: string, radix: nat, acc: nat)
    requires radix == 8 || radix == 10 || radix == 16
    requires (forall c | c in digits :: TakenForDigit(c, radix)) && (rest == "" || !TakenForDigit(rest[0], radix))
    ensures Accumulate(digits + rest, radix, acc) == acc * Power(radix, |digits|) + Positional(digits, radix)
    decreases |digits|
  {
    var s := digits + rest;
    if digits == "" {
      assert s == rest;
      if rest != "" {
        DigitIsTaken(rest[0], radix);
      }
    } else {
      assert s[0] == digits[0] && s[1..] == digits[1..] + rest;
      DigitIsTaken(digits[0], radix);
      DigitsAreRead(digits[1..], rest, radix, acc * radix + Worth(digits[0]));
      ReadOn(acc, radix, Worth(digits[0]), Power(radix, |digits| - 1), Positional(digits[1..], radix));
    }
  }

  lemma PrefixIsRead(radix: nat, digits: string, rest: string)
    requires radix == 8 || radix == 10 || radix == 16
    requires (forall c | c in digits :: TakenForDigit(c, radix)) && (rest == "" || !TakenForDigit(rest[0], radix))
    requires radix == 8 && digits == "" ==> rest == "" || rest[0] != 'x'
    requires radix == 10 && digits != "" ==> digits[0] != '0'
    ensures var t := WithPrefix(radix, digits + rest);
      Prefix(t).1 == radix && t[Prefix(t).0..] == digits + rest
    ensures radix == 10 && digits == "" ==> WithPrefix(radix, digits + rest) == rest
    ensures radix != 10 || digits != "" ==> WithPrefix(radix, digits + rest)[0] != '-'
  {
    var t, s := WithPrefix(radix, digits + rest), digits + rest;
    if digits != "" {
      assert s[0] == digits[0] && digits[0] in digits;
    } else {
      assert s == rest;
    }
    assert radix == 8 ==> t[1..] == s && (s != "" ==> t[1] == s[0]);
    assert radix == 16 ==> t[2..] == s;
    assert radix == 10 ==> t == s && t[0..] == s;
  }

  /** What is read is the number of the digits in their places. */
  lemma ReadingIsPositional(sz: string, minus: bool, radix: nat, digits: string, rest: string)
    requires IsReading(sz, minus, radix, digits, rest)
    ensures Parse(sz) == NumberRead(minus, radix, digits)
  {
    PrefixIsRead(radix, digits, rest);
    DigitsAreRead(digits, rest, radix, 0);
    hide Accumulate, Positional, TakenForDigit, Prefix, WithPrefix;
    assert minus ==> sz[1..] == WithPrefix(radix, digits + rest);
  }

  lemma AllReadingsArePositional(sz: string)
    ensures forall minus, radix, digits, rest | IsReading(sz, minus, radix, digits, rest) ::
      Parse(sz) == NumberRead(minus, radix, digits)
  {
    forall minus, radix, digits, rest | IsReading(sz, minus, radix, digits, rest)
      ensures Parse(sz) == NumberRead(minus, radix, digits)
    {
      ReadingIsPositional(sz, minus, radix, digits, rest);
    }
  }

  /** Where the digits end. */
  lemma DigitsEndSomewhere(s: string, radix: nat) returns (k: nat)
    ensures k <= |s| && (forall c | c in s[..k] :: TakenForDigit(c, radix)) && (k < |s| ==> !TakenForDigit(s[k], radix))
  {
    k := 0;
    while k < |s| && TakenForDigit(s[k], radix)
      invariant 0 <= k <= |s| && forall c | c in s[..k] :: TakenForDigit(c, radix)
    {
      assert s[..k + 1] == s[..k] + [s[k]];
      k := k + 1;
    }
  }

  lemma UnsignedIsRead(t: string) returns (radix: nat, digits: string, rest: string)
    ensures IsReading(WithSign(true, t), true, radix, digits, rest)
    ensures radix == 10 && digits == "" ==> rest == t
  {
    hide TakenForDigit;
    radix := if t == "" || t[0] != '0' then 10 else if |t| > 1 && t[1] == 'x' then 16 else 8;
    var start := if radix == 10 then 0 else if radix == 8 then 1 else 2;
    var s := t[start..];
    assert t == WithPrefix(radix, s);
    var k := DigitsEndSomewhere(s, radix);
    digits, rest := s[..k], s[k..];
    assert digits + rest == s;
    assert digits != "" ==> digits[0] == s[0];
  }

  /** Every text can be read. */
  lemma EveryTextIsRead(sz: string) returns (minus: bool, radix: nat, digits: string, rest: string)
    ensures IsReading(sz, minus, radix, digits, rest)
  {
    minus := sz != "" && sz[0] == '-';
    var t := if minus then sz[1..] else sz;
    radix, digits, rest := UnsignedIsRead(t);
    hide TakenForDigit, WithPrefix;
    var unsigned := WithPrefix(radix, digits + rest);
    assert WithSign(true, t)[1..] == t && WithSign(true, unsigned)[1..] == unsigned;
    assert sz == WithSign(minus, t);
  }
}
