/** The text form of Int128 values: what toString writes and what set reads. */
module Int128Text {
  import opened Sequences
  import opened Words

  /** Digits above nine are upper-case letters. */
  function DigitChar(c: nat): char
    requires c < 37
  {
    (c + if c > 9 then 55 else 48) as char
  }

  /** The digit `set` takes a character for, if any.  The letter tests admit one letter too many. */
  function DigitValue(c: char, radix: nat): Option<nat>
    requires 8 <= radix <= 16
  {
    if '0' <= c <= '9' && (c as int) < 48 + radix then Some(c as int - 48)
    else if 'a' <= c && (c as int) <= 97 + radix - 10 then Some(c as int - 97 + 10)
    else if 'A' <= c && (c as int) <= 65 + radix - 10 then Some(c as int - 65 + 10)
    else None
  }

  /** `set` reads exactly the digits of the radix, and from radix ten on also the letter for the
      value `radix` itself. */
  lemma DigitValueExactly(c: char, radix: nat)
    requires radix == 8 || radix == 10 || radix == 16
    ensures DigitValue(c, radix).Some? ==> DigitValue(c, radix).value <= radix
    ensures DigitValue(c, radix) == Some(radix) <==>
            radix >= 10 && (c as int == 65 + radix - 10 || c as int == 97 + radix - 10)
  {
  }

  lemma DigitRoundTrip(c: nat, radix: nat)
    requires c < radix && 8 <= radix <= 16
    ensures DigitValue(DigitChar(c), radix) == Some(c)
  {
  }

  /** The digits of a positive number, most significant first. */
  function Digits(n: nat, radix: nat): string
    requires 2 <= radix <= 37
  {
    if n == 0 then "" else
      Shrinks(n, radix);
      Digits(n / radix, radix) + [DigitChar(n % radix)]
  }

  lemma Shrinks(n: nat, radix: nat)
    requires n > 0 && radix >= 2
    ensures 0 <= n / radix < n && 0 <= n % radix < radix
    ensures 2 * (n / radix) <= n
  {
    DivModFacts(n, radix);
    MulMonotoneLeft(n / radix, 2, radix);
  }

  lemma MulMonotoneLeft(q: int, a: int, b: int)
    requires 0 <= q && a <= b
    ensures a * q <= q * b
  {
  }

  /** toString; -2^127 has no absolute value, and comes out as minus nothing. */
  function Text(v: int, radix: nat): string {
    if v == 0 then "0"
    else if radix < 2 || radix > 37 then "(invalid radix)"
    else if v == -0x8000_0000_0000_0000_0000_0000_0000_0000 then "-0"
    else if v < 0 then "-" + Digits(-v, radix)
    else Digits(v, radix)
  }

  /** Reads digits up to the first character that is none. */
  function Accumulate(s: string, radix: nat, acc: nat): nat
    requires 8 <= radix <= 16
  {
    if s == "" || DigitValue(s[0], radix).None? then acc
    else Accumulate(s[1..], radix, acc * radix + DigitValue(s[0], radix).value)
  }

  /** Where the digits of an unsigned text start, and in which radix. */
  function Prefix(t: string): (p: (nat, nat))
    ensures p.0 <= |t| && 8 <= p.1 <= 16
  {
    if t == "" || t[0] != '0' then (0, 10)
    else if |t| > 1 && t[1] == 'x' then (2, 16)
    else (1, 8)
  }

  /** The number `set` reads, before it is reduced modulo 2^128. */
  function Parse(sz: string): int {
    var minus := sz != "" && sz[0] == '-';
    var t := if minus then sz[1..] else sz;
    var v: int := Accumulate(t[Prefix(t).0..], Prefix(t).1, 0);
    if minus then -v else v
  }

  ghost predicate AllDigits(s: string, radix: nat)
    requires 8 <= radix <= 16
  {
    forall c | c in s :: DigitValue(c, radix).Some?
  }

  lemma {:induction false} AccumulateAppend(s: string, c: char, radix: nat, acc: nat)
    requires 8 <= radix <= 16 && AllDigits(s, radix) && DigitValue(c, radix).Some?
    ensures Accumulate(s + [c], radix, acc) == Accumulate(s, radix, acc) * radix + DigitValue(c, radix).value
  {
    if s == "" {
      assert (s + [c])[1..] == "";
    } else {
      assert (s + [c])[1..] == s[1..] + [c];
      AccumulateAppend(s[1..], c, radix, acc * radix + DigitValue(s[0], radix).value);
    }
  }

  /** Reading back the digits written gives the number. */
  lemma {:induction false} DigitsRoundTrip(n: nat, radix: nat)
    requires 8 <= radix <= 16
    ensures AllDigits(Digits(n, radix), radix) && Accumulate(Digits(n, radix), radix, 0) == n
  {
    if n > 0 {
      Shrinks(n, radix);
      DigitsRoundTrip(n / radix, radix);
      DigitRoundTrip(n % radix, radix);
      AccumulateAppend(Digits(n / radix, radix), DigitChar(n % radix), radix, 0);
      DivModFacts(n, radix);
    }
  }

  /** A positive number is written without leading zero, so `set` stays in radix ten. */
  lemma {:induction false} NoLeadingZero(n: nat, radix: nat)
    requires n > 0 && 2 <= radix <= 37
    ensures Digits(n, radix) != "" && Digits(n, radix)[0] !in "0-"
  {
    Shrinks(n, radix);
    if n / radix > 0 {
      NoLeadingZero(n / radix, radix);
    } else {
      DivModFacts(n, radix);
    }
  }

  /** Reading the decimal text gives the value back for every value except -2^127. */
  lemma DecimalRoundTripExactly(v: int)
    requires -0x8000_0000_0000_0000_0000_0000_0000_0000 <= v
    ensures Parse(Text(v, 10)) == if v == -0x8000_0000_0000_0000_0000_0000_0000_0000 then 0 else v
  {
    if v == 0 || v == -0x8000_0000_0000_0000_0000_0000_0000_0000 {
      ZeroTexts();
    } else {
      var n := if v < 0 then -v else v;
      NoLeadingZero(n, 10);
      DigitsRoundTrip(n, 10);
      var t := Digits(n, 10);
      assert ("-" + t)[1..] == t && t[0..] == t;
    }
  }

  lemma ZeroTexts()
    ensures Parse("0") == 0 && Parse("-0") == 0
  {
    assert "0"[1..] == "" && "-0"[1..] == "0";
  }

  /** Reading "0x" and the hexadecimal text gives the value back exactly for non-negative values. */
  lemma HexRoundTripExactly(v: int)
    requires -0x8000_0000_0000_0000_0000_0000_0000_0000 <= v
    ensures Parse("0x" + Text(v, 16)) == if v >= 0 then v else 0
  {
    var t := Text(v, 16);
    assert ("0x" + t)[2..] == t && ("0x" + t)[0] == '0' && ("0x" + t)[1] == 'x';
    assert Parse("0x" + t) == Accumulate(t, 16, 0);
    if v > 0 {
      DigitsRoundTrip(v, 16);
    } else if v == 0 {
      assert "0"[1..] == "";
    } else {
      assert t[0] == '-';
    }
  }
}
