/** Small facts about sequences and sets that several components share. */
module Sequences {

  datatype Option<T> = None | Some(value: T)

  ghost predicate Distinct<T>(s: seq<T>) {
    forall i, j | 0 <= i < j < |s| :: s[i] != s[j]
  }

  ghost function Elements<T>(s: seq<T>): (e: set<T>)
    ensures e == {} ==> s == []
  {
    var e := set x | x in s;
    assert s != [] ==> s[0] in e;
    e
  }

  lemma AppendDistinct<T>(s: seq<T>, x: T)
    requires Distinct(s) && x !in Elements(s)
    ensures Distinct(s + [x]) && Elements(s + [x]) == Elements(s) + {x}
  {
    forall y | y in s + [x]
      ensures y in Elements(s) + {x}
    {
    }
  }

  /** `s` without the elements of `gone`, order kept. */
  ghost function Remove<T>(s: seq<T>, gone: set<T>): seq<T> {
    if s == [] then [] else (if s[0] in gone then [] else [s[0]]) + Remove(s[1..], gone)
  }

  lemma {:induction false} RemoveElements<T>(s: seq<T>, gone: set<T>)
    ensures forall y | y in Remove(s, gone) :: y in s && y !in gone
    ensures forall y | y in s && y !in gone :: y in Remove(s, gone)
    ensures |Remove(s, gone)| <= |s|
  {
    if s != [] {
      RemoveElements(s[1..], gone);
      assert s == [s[0]] + s[1..];
    }
  }

  lemma {:induction false} RemoveKeepsDistinct<T>(s: seq<T>, gone: set<T>)
    requires Distinct(s)
    ensures Distinct(Remove(s, gone))
  {
    if s != [] {
      RemoveKeepsDistinct(s[1..], gone);
      RemoveElements(s[1..], gone);
      assert s[0] !in s[1..];
    }
  }

  lemma {:induction false} RemoveNothing<T>(s: seq<T>, gone: set<T>)
    requires forall y | y in s :: y !in gone
    ensures Remove(s, gone) == s
  {
    if s != [] {
      RemoveNothing(s[1..], gone);
    }
  }

  lemma {:induction false} RemoveTwice<T>(s: seq<T>, a: set<T>, b: set<T>)
    ensures Remove(Remove(s, a), b) == Remove(s, a + b)
  {
    if s != [] {
      RemoveTwice(s[1..], a, b);
      var r := Remove(s[1..], a);
      if s[0] in a {
        assert Remove(s, a) == r;
      } else {
        assert Remove(s, a) == [s[0]] + r && ([s[0]] + r)[1..] == r;
      }
    }
  }

  /** Erasing position `k` of a duplicate-free sequence removes exactly that element. */
  lemma {:induction false} EraseIsRemove<T>(s: seq<T>, k: nat)
    requires Distinct(s) && k < |s|
    ensures Remove(s, {s[k]}) == s[..k] + s[k + 1..]
  {
    if k == 0 {
      RemoveNothing(s[1..], {s[0]});
    } else {
      EraseIsRemove(s[1..], k - 1);
      assert s[..k] + s[k + 1..] == [s[0]] + (s[1..][..k - 1] + s[1..][k..]);
    }
  }

  lemma {:induction false} SubsetIsSmaller<T>(a: set<T>, b: set<T>)
    requires a <= b
    ensures |a| <= |b|
  {
    if a != {} {
      var x :| x in a;
      SubsetIsSmaller(a - {x}, b - {x});
    }
  }
}
