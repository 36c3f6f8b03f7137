/** What numerals stand for: every digit counts as often as its place says. */
module Numerals {

  /** What a digit is worth, in either case of the letters. */
  function Worth(c: char): nat {
    if 'a' <= c then c as int - 'a' as int + 10
    else if 'A' <= c then c as int - 'A' as int + 10
    else if '0' <= c then c as int - '0' as int
    else 0
  }

  function Power(radix: nat, n: nat): nat {
    if n == 0 then 1 else radix * Power(radix, n - 1)
  }

  /** Every digit counts as often as its place says. */
  function Positional(s: string, radix: nat): nat {
    if s == "" then 0 else Worth(s[0]) * Power(radix, |s| - 1) + Positional(s[1..], radix)
  }

  lemma OneMorePlace(worth: nat, power: nat, rest: nat, radix: nat, last: nat)
    ensures worth * (radix * power) + (rest * radix + last) == (worth * power + rest) * radix + last
  {
    assert worth * (radix * power) == (worth * power) * radix;
  }

  /** A digit behind the others moves them all by one place. */
  lemma {:induction false} PositionalAppend(s: string, c: char, radix: nat)
    ensures Positional(s + [c], radix) == Positional(s, radix) * radix + Worth(c)
  {
    var all := s + [c];
    if s == "" {
      assert all[1..] == "";
    } else {
      assert all[1..] == s[1..] + [c];
      PositionalAppend(s[1..], c, radix);
      OneMorePlace(Worth(s[0]), Power(radix, |s| - 1), Positional(s[1..], radix), radix, Worth(c));
    }
  }
}
