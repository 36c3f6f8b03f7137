/** One side of the two-sided link index of a graph: every node lists its links, every link has its end. */
module Adjacency {
  import opened Sequences

  /** Each link of `ends` stands once in the list of its end, and the lists hold nothing else. */
  ghost predicate Indexed<N, L>(lists: map<N, seq<L>>, ends: map<L, N>) {
    && (forall n | n in lists :: Distinct(lists[n]))
    && (forall n, l | n in lists && l in lists[n] :: l in ends && ends[l] == n)
    && (forall l | l in ends :: ends[l] in lists && l in lists[ends[l]])
  }

  /** The lists without the links of `gone`. */
  ghost function Drop<N, L>(lists: map<N, seq<L>>, gone: set<L>): map<N, seq<L>> {
    map n | n in lists :: Remove(lists[n], gone)
  }

  lemma DropKeepsIndexed<N, L>(lists: map<N, seq<L>>, ends: map<L, N>, gone: set<L>)
    requires Indexed(lists, ends)
    ensures Indexed(Drop(lists, gone), ends - gone)
  {
    forall n | n in lists
      ensures Distinct(Drop(lists, gone)[n])
    {
      RemoveKeepsDistinct(lists[n], gone);
    }
    forall n, l | n in lists && l in Drop(lists, gone)[n]
      ensures l in ends - gone && (ends - gone)[l] == n
    {
      DropMember(lists, gone, n, l);
      assert l in lists[n];
    }
    forall l | l in ends - gone
      ensures l in Drop(lists, gone)[ends[l]]
    {
      DropMember(lists, gone, ends[l], l);
    }
  }

  lemma DropMember<N, L>(lists: map<N, seq<L>>, gone: set<L>, n: N, l: L)
    requires n in lists
    ensures l in Drop(lists, gone)[n] <==> l in lists[n] && l !in gone
  {
    RemoveElements(lists[n], gone);
  }

  /** Erasing a link at its end takes it out of the whole index. */
  lemma EraseIsDrop<N, L>(lists: map<N, seq<L>>, ends: map<L, N>, l: L)
    requires Indexed(lists, ends) && l in ends
    ensures lists[ends[l] := Remove(lists[ends[l]], {l})] == Drop(lists, {l})
  {
    forall n | n in lists && n != ends[l]
      ensures Remove(lists[n], {l}) == lists[n]
    {
      RemoveNothing(lists[n], {l});
    }
  }

  lemma DropUnknown<N, L>(lists: map<N, seq<L>>, ends: map<L, N>, gone: set<L>)
    requires Indexed(lists, ends) && gone !! ends.Keys
    ensures Drop(lists, gone) == lists && ends - gone == ends
  {
    forall n | n in lists
      ensures Remove(lists[n], gone) == lists[n]
    {
      RemoveNothing(lists[n], gone);
    }
  }

  lemma DropNothing<N, L>(lists: map<N, seq<L>>)
    ensures Drop(lists, {}) == lists
  {
    forall n | n in lists
      ensures Remove(lists[n], {}) == lists[n]
    {
      RemoveNothing(lists[n], {});
    }
  }

  lemma DropTwice<N, L>(lists: map<N, seq<L>>, a: set<L>, b: set<L>)
    ensures Drop(Drop(lists, a), b) == Drop(lists, a + b)
  {
    forall n | n in lists
      ensures Remove(Remove(lists[n], a), b) == Remove(lists[n], a + b)
    {
      RemoveTwice(lists[n], a, b);
    }
  }

  lemma AppendKeepsIndexed<N, L>(lists: map<N, seq<L>>, ends: map<L, N>, l: L, n: N)
    requires Indexed(lists, ends) && l !in ends && n in lists
    ensures Indexed(lists[n := lists[n] + [l]], ends[l := n])
  {
    var lists', ends' := lists[n := lists[n] + [l]], ends[l := n];
    assert l !in lists[n];
    forall k | k in ends'
      ensures ends'[k] in lists' && k in lists'[ends'[k]]
    {
      assert k != l ==> k in lists[ends[k]];
    }
  }

  /** A new node fits into the index exactly when it lists nothing. */
  lemma NewNodeIndexedExactly<N, L>(lists: map<N, seq<L>>, ends: map<L, N>, n: N, listed: seq<L>)
    requires Indexed(lists, ends) && n !in lists
    ensures Indexed(lists[n := listed], ends) <==> listed == []
  {
    if listed != [] {
      assert listed[0] in lists[n := listed][n];
      assert listed[0] in ends ==> ends[listed[0]] in lists;
    }
  }

  /** A node whose list is empty can be forgotten. */
  lemma ForgetKeepsIndexed<N, L>(lists: map<N, seq<L>>, ends: map<L, N>, n: N)
    requires Indexed(lists, ends) && n in lists && lists[n] == []
    ensures Indexed(lists - {n}, ends)
  {
  }

  lemma DropAllIsEmpty<N, L>(lists: map<N, seq<L>>, gone: set<L>, n: N)
    requires n in lists && forall l | l in lists[n] :: l in gone
    ensures Drop(lists, gone)[n] == []
  {
    var r := Drop(lists, gone)[n];
    if r != [] {
      DropMember(lists, gone, n, r[0]);
    }
  }

  /** Emptying one list drops exactly the links in it. */
  lemma ClearIsDrop<N, L>(lists: map<N, seq<L>>, ends: map<L, N>, n: N)
    requires Indexed(lists, ends) && n in lists
    ensures lists[n := []] == Drop(lists, Elements(lists[n]))
  {
    var gone := Elements(lists[n]);
    DropAllIsEmpty(lists, gone, n);
    forall m | m in lists && m != n
      ensures Remove(lists[m], gone) == lists[m]
    {
      assert forall l | l in lists[m] :: ends[l] == m;
      RemoveNothing(lists[m], gone);
    }
  }

  /** A link is listed exactly at its end. */
  lemma ListedAtEnd<N, L>(lists: map<N, seq<L>>, ends: map<L, N>, n: N)
    requires Indexed(lists, ends) && n in lists
    ensures Elements(lists[n]) == (set l | l in ends && ends[l] == n)
  {
  }

  lemma DropElements<N, L>(lists: map<N, seq<L>>, gone: set<L>, n: N)
    requires n in lists
    ensures n in Drop(lists, gone) && Elements(Drop(lists, gone)[n]) == Elements(lists[n]) - gone
  {
    forall l | l in Elements(Drop(lists, gone)[n])
      ensures l in Elements(lists[n]) - gone
    {
      DropMember(lists, gone, n, l);
    }
    forall l | l in Elements(lists[n]) - gone
      ensures l in Elements(Drop(lists, gone)[n])
    {
      DropMember(lists, gone, n, l);
    }
  }
}
