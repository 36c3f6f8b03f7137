/** The theory behind the two shortest-path searches of Topology: distances with an infinity,
    walks towards the target and their cost, and the invariant that both searches keep.

    A link is charged its own weight plus the weight of the node it leads to, unless that node is
    the target.  So the node a walk starts from and the target are free, and every node in between
    is paid for as a router. */
module ShortestPaths {
  import opened Sequences

  /** A C++ double, without rounding, and its positive infinity. */
  datatype Dist = Fin(v: real) | Infinity

  predicate Less(a: Dist, b: Dist) {
    a.Fin? && (b.Fin? ==> a.v < b.v)
  }

  predicate LessEq(a: Dist, b: Dist) {
    !Less(b, a)
  }

  function Plus(a: Dist, b: Dist): Dist {
    if a.Fin? && b.Fin? then Fin(a.v + b.v) else Infinity
  }

  /** A snapshot of a topology.  A link is usable when it and the node it leaves are enabled. */
  datatype Graph<N, L> = Graph(
    nodes: set<N>,
    target: N,
    links: set<L>,
    source: map<L, N>,
    dest: map<L, N>,
    linkWeight: map<L, Dist>,
    nodeWeight: map<N, Dist>,
    usable: set<L>)
  {
    ghost predicate WellFormed() {
      && target in nodes
      && nodeWeight.Keys == nodes
      && source.Keys == links && dest.Keys == links && linkWeight.Keys == links
      && (forall l | l in links :: source[l] in nodes && dest[l] in nodes)
    }

    /** What the weighted search asserts of a link: it costs something, and its end nothing negative. */
    ghost predicate Positive(l: L)
      requires WellFormed() && l in links
    {
      Less(Fin(0.0), linkWeight[l]) && LessEq(Fin(0.0), nodeWeight[dest[l]])
    }

    /** What the weighted search asserts of a node it pops: the node costs nothing negative, and every usable
        link into it costs something. */
    ghost predicate Fair(n: N)
      requires WellFormed() && n in nodes
    {
      LessEq(Fin(0.0), nodeWeight[n]) && forall l | l in links && l in usable && dest[l] == n :: Positive(l)
    }

    /** The price of travelling over `l`. */
    ghost function Hop(l: L): (h: Dist)
      requires WellFormed() && l in links
    {
      Plus(linkWeight[l], if dest[l] == target then Fin(0.0) else nodeWeight[dest[l]])
    }

    /** `w` leads from `u` to the target over usable links only. */
    ghost predicate IsWalk(u: N, w: seq<L>)
      requires WellFormed()
    {
      if w == [] then u == target
      else w[0] in links && w[0] in usable && source[w[0]] == u && IsWalk(dest[w[0]], w[1..])
    }

    ghost function Cost(u: N, w: seq<L>): (c: Dist)
      requires WellFormed() && IsWalk(u, w)
    {
      if w == [] then Fin(0.0) else Plus(Hop(w[0]), Cost(dest[w[0]], w[1..]))
    }
  }

  ghost predicate Sorted<N>(d: map<N, Dist>, q: seq<N>)
    requires forall x | x in q :: x in d
  {
    forall i, j | 0 <= i < j < |q| :: LessEq(d[q[i]], d[q[j]])
  }

  /** The labels a search writes on the nodes, its work list, the nodes it has popped
      and the links it has relaxed. */
  datatype Search<N, L> = Search(
    dist: map<N, Dist>,
    out: map<N, Option<L>>,
    queue: seq<N>,
    popped: set<N>,
    relaxed: set<L>)
  {
    ghost predicate Shape(g: Graph<N, L>) {
      && g.WellFormed()
      && dist.Keys == g.nodes && out.Keys == g.nodes
      && dist[g.target] == Fin(0.0) && out[g.target] == None
      && (forall n | n in g.nodes :: LessEq(Fin(0.0), dist[n]))
      && popped <= g.nodes
      && (forall x | x in queue :: x in g.nodes && x !in popped && dist[x].Fin?)
      && (forall n | n in g.nodes && dist[n].Fin? :: n in popped || n in queue)
      && (forall n | n in popped :: dist[n].Fin?)
    }

    ghost predicate Ordered(g: Graph<N, L>)
      requires Shape(g)
    {
      && Distinct(queue)
      && Sorted(dist, queue)
      && (forall s, x | s in popped && x in queue :: LessEq(dist[s], dist[x]))
    }

    /** The label of `n` was set through `l`. */
    ghost predicate Via(g: Graph<N, L>, n: N, l: L)
      requires Shape(g) && n in g.nodes
    {
      && l in g.links && l in g.usable && g.source[l] == n && g.dest[l] in popped && g.Positive(l)
      && dist[n] == Plus(dist[g.dest[l]], g.Hop(l))
    }

    ghost predicate Labelled(g: Graph<N, L>)
      requires Shape(g)
    {
      forall n | n in g.nodes && n != g.target ::
        if dist[n].Infinity? then out[n] == None else out[n].Some? && Via(g, n, out[n].value)
    }

    ghost predicate Relaxed(g: Graph<N, L>)
      requires Shape(g)
    {
      forall l | l in relaxed && l in g.links && l in g.usable ::
        && g.dest[l] in popped && g.Positive(l)
        && LessEq(dist[g.source[l]], Plus(dist[g.dest[l]], g.Hop(l)))
    }

    /** What both searches keep at every step. */
    ghost predicate Valid(g: Graph<N, L>) {
      Shape(g) && Ordered(g) && Labelled(g) && Relaxed(g)
    }

    /** `dest` is the node just popped: no popped node is farther. */
    ghost predicate Latest(dest: N) {
      dest in popped && popped <= dist.Keys && forall s | s in popped :: LessEq(dist[s], dist[dest])
    }

    /** Between two pops: every link into a popped node has been relaxed, and popped nodes are fair. */
    ghost predicate Settled(g: Graph<N, L>)
      requires g.WellFormed()
    {
      && (forall l | l in g.links && g.dest[l] in popped :: l in relaxed)
      && (forall n | n in popped && n in g.nodes :: g.Fair(n))
    }
  }

  ghost function Start<N, L>(g: Graph<N, L>): Search<N, L> {
    Search(map n | n in g.nodes :: if n == g.target then Fin(0.0) else Infinity,
           map n | n in g.nodes :: None, [g.target], {}, {})
  }

  lemma StartIsValid<N, L>(g: Graph<N, L>)
    requires g.WellFormed()
    ensures Start(g).Valid(g) && Start(g).Settled(g)
  {
  }

  ghost function Pop<N, L>(s: Search<N, L>): Search<N, L>
    requires s.queue != []
  {
    s.(queue := s.queue[1..], popped := s.popped + {s.queue[0]})
  }

  /** Popping the head keeps the invariant, and the popped node is the farthest popped so far. */
  lemma PopKeepsValid<N, L>(g: Graph<N, L>, s: Search<N, L>)
    requires s.Valid(g) && s.queue != []
    ensures Pop(s).Valid(g) && Pop(s).Latest(s.queue[0]) && s.queue[0] !in s.popped && s.queue[0] in g.nodes
  {
    var t, x := Pop(s), s.queue[0];
    assert s.queue == [x] + t.queue;
    assert t.Shape(g) by {
      assert forall y | y in t.queue :: y in s.queue;
      assert x !in t.queue;
    }
    PopKeepsOrder(g, s);
    LabelsKept(g, s, t);
    assert t.Relaxed(g);
  }

  lemma PopKeepsOrder<N, L>(g: Graph<N, L>, s: Search<N, L>)
    requires s.Shape(g) && s.Ordered(g) && s.queue != [] && Pop(s).Shape(g)
    ensures Pop(s).Ordered(g) && Pop(s).Latest(s.queue[0])
  {
    var t, x := Pop(s), s.queue[0];
    assert forall j | 0 <= j < |t.queue| :: t.queue[j] == s.queue[j + 1];
    forall y | y in t.queue
      ensures y in s.queue && LessEq(s.dist[x], s.dist[y])
    {
      var j :| 0 <= j < |t.queue| && t.queue[j] == y;
      assert s.queue[j + 1] == y;
    }
  }

  /** Labels stay justified while no label changes and more nodes are popped. */
  lemma LabelsKept<N, L>(g: Graph<N, L>, s: Search<N, L>, t: Search<N, L>)
    requires s.Shape(g) && s.Labelled(g) && t.Shape(g)
    requires t.dist == s.dist && t.out == s.out && s.popped <= t.popped
    ensures t.Labelled(g)
  {
    forall n | n in g.nodes && n != g.target && t.dist[n].Fin?
      ensures t.out[n].Some? && t.Via(g, n, t.out[n].value)
    {
      assert s.Via(g, n, s.out[n].value);
    }
  }

  /** Taking `x` out of a work list leaves the others in their order. */
  lemma RemoveKeepsOrder<N>(d: map<N, Dist>, q: seq<N>, x: N)
    requires Distinct(q) && (forall y | y in q :: y in d) && Sorted(d, q)
    ensures Distinct(Remove(q, {x}))
    ensures forall y | y in Remove(q, {x}) :: y in q && y != x
    ensures forall y | y in q && y != x :: y in Remove(q, {x})
    ensures Sorted(d, Remove(q, {x}))
  {
    RemoveElements(q, {x});
    RemoveKeepsDistinct(q, {x});
    if k: nat :| k < |q| && q[k] == x {
      EraseIsRemove(q, k);
    } else {
      RemoveNothing(q, {x});
    }
  }

  /** `k` is the position the weighted search picks: before the first node farther than `nd`. */
  ghost predicate InsertAt<N>(d: map<N, Dist>, q: seq<N>, nd: Dist, k: nat)
    requires forall x | x in q :: x in d
  {
    && k <= |q|
    && (forall i | 0 <= i < k :: LessEq(d[q[i]], nd))
    && (k < |q| ==> Less(nd, d[q[k]]))
  }

  /** Improves the label of the source of `l` and puts it back into the work list at `k`. */
  ghost function Improve<N, L>(g: Graph<N, L>, s: Search<N, L>, l: L, k: nat): Search<N, L>
    requires g.WellFormed() && l in g.links && g.dest[l] in s.dist
    requires k <= |Remove(s.queue, {g.source[l]})|
  {
    var src, q := g.source[l], Remove(s.queue, {g.source[l]});
    s.(dist := s.dist[src := Plus(s.dist[g.dest[l]], g.Hop(l))],
       out := s.out[src := Some(l)],
       queue := q[..k] + [src] + q[k..],
       relaxed := s.relaxed + {l})
  }

  ghost function Skip<N, L>(s: Search<N, L>, l: L): Search<N, L> {
    s.(relaxed := s.relaxed + {l})
  }

  /** The relaxation of `l`: when `l` is usable and gives its source a shorter way, the source takes the label
      and its place among the nodes that wait, otherwise nothing changes. */
  ghost predicate IsRelaxation<N, L>(g: Graph<N, L>, s: Search<N, L>, l: L, t: Search<N, L>)
    requires s.Shape(g) && l in g.links
  {
    if l in g.usable && Less(Plus(s.dist[g.dest[l]], g.Hop(l)), s.dist[g.source[l]]) then ImprovedBy(g, s, l, t)
    else t == Skip(s, l)
  }

  ghost predicate ImprovedBy<N, L>(g: Graph<N, L>, s: Search<N, L>, l: L, t: Search<N, L>)
    requires s.Shape(g) && l in g.links
  {
    var q := Remove(s.queue, {g.source[l]});
    && (forall x | x in q :: x in s.dist)
    && exists k :: 0 <= k <= |q| && t == Improve(g, s, l, k)
                   && InsertAt(s.dist, q, Plus(s.dist[g.dest[l]], g.Hop(l)), k)
  }

  /** A popped node keeps its label. */
  ghost predicate Kept<N, L>(s: Search<N, L>, t: Search<N, L>) {
    forall n | n in s.popped ::
      n in s.dist && n in t.dist && t.dist[n] == s.dist[n] && n in s.out && n in t.out && t.out[n] == s.out[n]
  }

  lemma HopIsPositive<N, L>(g: Graph<N, L>, l: L)
    requires g.WellFormed() && l in g.links && g.Positive(l)
    ensures Less(Fin(0.0), g.Hop(l)) || g.Hop(l) == Infinity
  {
  }

  /** A link whose relaxation would not improve its source needs no change of labels. */
  lemma SkipKeepsValid<N, L>(g: Graph<N, L>, s: Search<N, L>, l: L)
    requires s.Valid(g) && l in g.links && g.dest[l] in s.popped
    requires l in g.usable ==> g.Positive(l) && !Less(Plus(s.dist[g.dest[l]], g.Hop(l)), s.dist[g.source[l]])
    ensures Skip(s, l).Valid(g)
  {
    var t := Skip(s, l);
    SkipKeepsShape(g, s, l);
    LabelsKept(g, s, t);
    SkipKeepsRelaxed(g, s, l);
  }

  lemma SkipKeepsShape<N, L>(g: Graph<N, L>, s: Search<N, L>, l: L)
    requires s.Shape(g) && s.Ordered(g)
    ensures Skip(s, l).Shape(g) && Skip(s, l).Ordered(g)
  {
    hide Graph.WellFormed, Distinct;
  }

  lemma SkipKeepsRelaxed<N, L>(g: Graph<N, L>, s: Search<N, L>, l: L)
    requires s.Shape(g) && s.Relaxed(g) && Skip(s, l).Shape(g) && l in g.links && g.dest[l] in s.popped
    requires l in g.usable ==> g.Positive(l) && !Less(Plus(s.dist[g.dest[l]], g.Hop(l)), s.dist[g.source[l]])
    ensures Skip(s, l).Relaxed(g)
  {
  }

  /** A node whose label improves has never been popped: a popped node is never improved again. */
  lemma PoppedNeverImproves<N, L>(g: Graph<N, L>, s: Search<N, L>, l: L)
    requires s.Shape(g) && l in g.links && l in g.usable && g.Positive(l) && s.Latest(g.dest[l])
    requires Less(Plus(s.dist[g.dest[l]], g.Hop(l)), s.dist[g.source[l]])
    ensures g.source[l] !in s.popped && g.source[l] != g.target
    ensures s.dist[g.source[l]].Fin? ==> g.source[l] in s.queue
  {
    var src, dst := g.source[l], g.dest[l];
    HopIsPositive(g, l);
    assert s.dist[dst].Fin?;
    assert src in s.popped ==> LessEq(s.dist[src], s.dist[dst]);
  }

  /** Relaxing a link of the node just popped keeps the invariant. */
  lemma ImproveKeepsValid<N, L>(g: Graph<N, L>, s: Search<N, L>, l: L, k: nat)
    requires s.Valid(g) && l in g.links && l in g.usable && g.Positive(l) && s.Latest(g.dest[l])
    requires Less(Plus(s.dist[g.dest[l]], g.Hop(l)), s.dist[g.source[l]])
    requires (forall x | x in Remove(s.queue, {g.source[l]}) :: x in s.dist)
    requires InsertAt(s.dist, Remove(s.queue, {g.source[l]}), Plus(s.dist[g.dest[l]], g.Hop(l)), k)
    ensures Improve(g, s, l, k).Valid(g) && Improve(g, s, l, k).Latest(g.dest[l])
  {
    PoppedNeverImproves(g, s, l);
    var t, src := Improve(g, s, l, k), g.source[l];
    var q, nd := Remove(s.queue, {src}), Plus(s.dist[g.dest[l]], g.Hop(l));
    RemoveKeepsOrder(s.dist, s.queue, src);
    InsertKeepsOrder(s.dist, q, src, nd, k);
    ImproveKeepsShape(g, s, t, l, nd);
    ImproveKeepsLabels(g, s, t, l, nd);
    ImproveKeepsRelaxed(g, s, t, l, nd);
  }

  /** A relaxation of a link of the node just popped keeps the invariant and the labels of popped nodes. */
  lemma RelaxationKeepsValid<N, L>(g: Graph<N, L>, s: Search<N, L>, l: L, t: Search<N, L>)
    requires s.Valid(g) && l in g.links && s.Latest(g.dest[l]) && (l in g.usable ==> g.Positive(l))
    requires IsRelaxation(g, s, l, t)
    ensures t.Valid(g) && t.Latest(g.dest[l]) && Kept(s, t)
    ensures t.popped == s.popped && t.relaxed == s.relaxed + {l}
  {
    hide Search.Ordered, Search.Labelled, Search.Relaxed, InsertAt, Remove;
    if l in g.usable && Less(Plus(s.dist[g.dest[l]], g.Hop(l)), s.dist[g.source[l]]) {
      var q := Remove(s.queue, {g.source[l]});
      var k :| 0 <= k <= |q| && InsertAt(s.dist, q, Plus(s.dist[g.dest[l]], g.Hop(l)), k) && t == Improve(g, s, l, k);
      ImproveKeepsValid(g, s, l, k);
      PoppedNeverImproves(g, s, l);
    } else {
      SkipKeepsValid(g, s, l);
    }
  }

  lemma KeptAtFirst<N, L>(g: Graph<N, L>, s: Search<N, L>)
    requires s.Valid(g)
    ensures Kept(s, s)
  {
  }

  lemma KeptTwice<N, L>(s: Search<N, L>, t: Search<N, L>, u: Search<N, L>)
    requires Kept(s, t) && Kept(t, u) && s.popped <= t.popped
    ensures Kept(s, u)
  {
  }

  lemma ImproveKeepsShape<N, L>(g: Graph<N, L>, s: Search<N, L>, t: Search<N, L>, l: L, nd: Dist)
    requires s.Shape(g) && s.Ordered(g) && l in g.links && l in g.usable && g.Positive(l) && s.Latest(g.dest[l])
    requires g.source[l] !in s.popped && g.source[l] != g.target
    requires nd == Plus(s.dist[g.dest[l]], g.Hop(l)) && Less(nd, s.dist[g.source[l]])
    requires t.popped == s.popped && t.dist == s.dist[g.source[l] := nd] && t.out == s.out[g.source[l] := Some(l)]
    requires g.source[l] in t.queue && (forall x | x in s.queue :: x in t.queue)
    requires (forall x | x in t.queue :: x == g.source[l] || x in s.queue)
    requires Distinct(t.queue) && Sorted(t.dist, t.queue)
    ensures t.Shape(g) && t.Ordered(g) && t.Latest(g.dest[l])
  {
    hide Sorted, Distinct, LessEq;
    ShapeAfterImprove(g, s, t, l, nd);
    HopIsPositive(g, l);
    forall p, x | p in s.popped && x in t.queue
      ensures LessEq(t.dist[p], t.dist[x])
    {
      assert LessEq(s.dist[p], s.dist[g.dest[l]]);
      NotNearer(s.dist[p], s.dist[g.dest[l]], g.Hop(l));
    }
  }

  lemma NotNearer(a: Dist, b: Dist, hop: Dist)
    requires LessEq(a, b) && (Less(Fin(0.0), hop) || hop == Infinity)
    ensures LessEq(a, Plus(b, hop))
  {
  }

  lemma ShapeAfterImprove<N, L>(g: Graph<N, L>, s: Search<N, L>, t: Search<N, L>, l: L, nd: Dist)
    requires s.Shape(g) && l in g.links && l in g.usable && g.Positive(l) && s.Latest(g.dest[l])
    requires g.source[l] !in s.popped && g.source[l] != g.target
    requires nd == Plus(s.dist[g.dest[l]], g.Hop(l)) && Less(nd, s.dist[g.source[l]])
    requires t.popped == s.popped && t.dist == s.dist[g.source[l] := nd] && t.out == s.out[g.source[l] := Some(l)]
    requires g.source[l] in t.queue && (forall x | x in s.queue :: x in t.queue)
    requires (forall x | x in t.queue :: x == g.source[l] || x in s.queue)
    ensures t.Shape(g)
  {
    HopIsPositive(g, l);
  }

  /** Insertion before the first farther node keeps a work list sorted and duplicate-free. */
  lemma InsertKeepsOrder<N>(d: map<N, Dist>, q: seq<N>, x: N, nd: Dist, k: nat)
    requires Distinct(q) && x !in q && (forall y | y in q :: y in d) && Sorted(d, q) && InsertAt(d, q, nd, k)
    ensures x in q[..k] + [x] + q[k..] && forall y | y in q :: y in q[..k] + [x] + q[k..]
    ensures forall y | y in q[..k] + [x] + q[k..] :: y == x || y in q
    ensures Distinct(q[..k] + [x] + q[k..]) && Sorted(d[x := nd], q[..k] + [x] + q[k..])
  {
    var r := q[..k] + [x] + q[k..];
    assert q == q[..k] + q[k..];
    assert forall i | 0 <= i < |r| :: r[i] == (if i < k then q[i] else if i == k then x else q[i - 1]);
    forall i, j | 0 <= i < j < |r|
      ensures r[i] != r[j] && LessEq(d[x := nd][r[i]], d[x := nd][r[j]])
    {
      if i == k {
        assert k == j - 1 || LessEq(d[q[k]], d[q[j - 1]]);
      }
    }
  }

  lemma ImproveKeepsLabels<N, L>(g: Graph<N, L>, s: Search<N, L>, t: Search<N, L>, l: L, nd: Dist)
    requires s.Shape(g) && s.Labelled(g) && t.Shape(g)
    requires l in g.links && l in g.usable && g.Positive(l) && g.dest[l] in s.popped && g.source[l] !in s.popped
    requires nd == Plus(s.dist[g.dest[l]], g.Hop(l)) && nd.Fin?
    requires t.popped == s.popped && t.dist == s.dist[g.source[l] := nd] && t.out == s.out[g.source[l] := Some(l)]
    ensures t.Labelled(g)
  {
    forall n | n in g.nodes && n != g.target && t.dist[n].Fin?
      ensures t.out[n].Some? && t.Via(g, n, t.out[n].value)
    {
      assert n != g.source[l] ==> s.Via(g, n, s.out[n].value);
    }
  }

  lemma ImproveKeepsRelaxed<N, L>(g: Graph<N, L>, s: Search<N, L>, t: Search<N, L>, l: L, nd: Dist)
    requires s.Shape(g) && s.Relaxed(g) && t.Shape(g)
    requires l in g.links && l in g.usable && g.Positive(l) && g.dest[l] in s.popped && g.source[l] !in s.popped
    requires nd == Plus(s.dist[g.dest[l]], g.Hop(l)) && Less(nd, s.dist[g.source[l]])
    requires t.popped == s.popped && t.dist == s.dist[g.source[l] := nd] && t.relaxed == s.relaxed + {l}
    ensures t.Relaxed(g)
  {
    forall m | m in t.relaxed && m in g.links && m in g.usable
      ensures g.dest[m] in t.popped && LessEq(t.dist[g.source[m]], Plus(t.dist[g.dest[m]], g.Hop(m)))
    {
      assert m != l ==> LessEq(s.dist[g.source[m]], Plus(s.dist[g.dest[m]], g.Hop(m)));
    }
  }

  /** When the work list runs empty, no walk is cheaper than the label of its first node. */
  lemma {:induction false} NoWalkIsCheaper<N, L>(g: Graph<N, L>, s: Search<N, L>, u: N, w: seq<L>)
    requires s.Valid(g) && s.Settled(g) && s.queue == []
    requires u in g.nodes && g.IsWalk(u, w)
    ensures LessEq(s.dist[u], g.Cost(u, w))
    decreases |w|
  {
    if w != [] {
      NoWalkIsCheaper(g, s, g.dest[w[0]], w[1..]);
      if g.Cost(u, w).Fin? {
        assert w[0] in s.relaxed;
      }
    }
  }

  ghost function Nearer<N, L>(g: Graph<N, L>, s: Search<N, L>, u: N): set<N>
    requires s.Valid(g) && u in g.nodes
  {
    set n | n in g.nodes && Less(s.dist[n], s.dist[u])
  }

  lemma OutLeadsNearer<N, L>(g: Graph<N, L>, s: Search<N, L>, u: N)
    requires s.Valid(g) && u in g.nodes && u != g.target && s.dist[u].Fin?
    ensures s.out[u].Some? && s.Via(g, u, s.out[u].value)
    ensures Nearer(g, s, g.dest[s.out[u].value]) < Nearer(g, s, u)
  {
    var v := g.dest[s.out[u].value];
    assert s.Via(g, u, s.out[u].value);
    HopIsPositive(g, s.out[u].value);
    assert v in Nearer(g, s, u) && v !in Nearer(g, s, v);
    assert Nearer(g, s, v) <= Nearer(g, s, u);
  }

  /** The links met when following outPath from `u`. */
  ghost function OutWalk<N, L>(g: Graph<N, L>, s: Search<N, L>, u: N): (w: seq<L>)
    requires s.Valid(g) && u in g.nodes && s.dist[u].Fin?
    decreases Nearer(g, s, u)
  {
    if u == g.target then [] else
      OutLeadsNearer(g, s, u);
      [s.out[u].value] + OutWalk(g, s, g.dest[s.out[u].value])
  }

  /** Following outPath from a node with a finite label reaches the target at exactly that cost. */
  lemma {:induction false} OutWalkCostsDist<N, L>(g: Graph<N, L>, s: Search<N, L>, u: N)
    requires s.Valid(g) && u in g.nodes && s.dist[u].Fin?
    ensures g.IsWalk(u, OutWalk(g, s, u)) && g.Cost(u, OutWalk(g, s, u)) == s.dist[u]
    decreases Nearer(g, s, u)
  {
    if u != g.target {
      OutLeadsNearer(g, s, u);
      var l := s.out[u].value;
      OutWalkCostsDist(g, s, g.dest[l]);
      assert OutWalk(g, s, u)[1..] == OutWalk(g, s, g.dest[l]);
    }
  }

  /** A search that has run to its end. */
  ghost predicate Finished<N, L>(g: Graph<N, L>, s: Search<N, L>) {
    s.Valid(g) && s.Settled(g) && s.queue == []
  }

  /** The labels of a finished search are determined by the graph alone. */
  lemma FinishedSearchesAgree<N, L>(g: Graph<N, L>, s: Search<N, L>, t: Search<N, L>)
    requires Finished(g, s) && Finished(g, t)
    ensures s.dist == t.dist
  {
    forall u | u in g.nodes
      ensures s.dist[u] == t.dist[u]
    {
      NotFarther(g, s, t, u);
      NotFarther(g, t, s, u);
    }
  }

  lemma NotFarther<N, L>(g: Graph<N, L>, s: Search<N, L>, t: Search<N, L>, u: N)
    requires Finished(g, s) && Finished(g, t) && u in g.nodes
    ensures LessEq(s.dist[u], t.dist[u])
  {
    if t.dist[u].Fin? {
      OutWalkCostsDist(g, t, u);
      NoWalkIsCheaper(g, s, u, OutWalk(g, t, u));
    }
  }

  /** A search runs to its end only when all nodes from which the target is reached at a finite cost are fair ... */
  lemma FinishedIsFair<N, L>(g: Graph<N, L>, s: Search<N, L>)
    requires Finished(g, s)
    ensures forall n, w: seq<L> | n in g.nodes && g.IsWalk(n, w) && g.Cost(n, w).Fin? :: g.Fair(n)
  {
    forall n, w: seq<L> | n in g.nodes && g.IsWalk(n, w) && g.Cost(n, w).Fin?
      ensures g.Fair(n)
    {
      NoWalkIsCheaper(g, s, n, w);
    }
  }

  /** ... and one that pops an unfair node has found a walk of finite cost from there. */
  lemma UnfairIsReached<N, L>(g: Graph<N, L>, s: Search<N, L>, n: N)
    requires s.Valid(g) && n in s.popped && !g.Fair(n)
    ensures exists w: seq<L> :: g.IsWalk(n, w) && g.Cost(n, w).Fin?
  {
    OutWalkCostsDist(g, s, n);
  }

  /** Every usable link costs one: what the unweighted search assumes. */
  ghost predicate UnitCost<N, L>(g: Graph<N, L>)
    requires g.WellFormed()
  {
    && (forall l | l in g.links :: g.linkWeight[l] == Fin(1.0))
    && (forall n | n in g.nodes :: g.nodeWeight[n] == Fin(0.0))
  }

  /** With unit costs the cost of a walk is its number of links. */
  lemma {:induction false} UnitCostIsLength<N, L>(g: Graph<N, L>, u: N, w: seq<L>)
    requires g.WellFormed() && UnitCost(g) && g.IsWalk(u, w)
    ensures g.Cost(u, w) == Fin(|w| as real)
  {
    if w != [] {
      UnitCostIsLength(g, g.dest[w[0]], w[1..]);
    }
  }

  /** While `dest` is scanned by the unweighted search, no queued node is farther than one more link. */
  ghost predicate Level<N, L>(s: Search<N, L>, dest: N) {
    dest in s.dist && forall x | x in s.queue :: x in s.dist && LessEq(s.dist[x], Plus(s.dist[dest], Fin(1.0)))
  }

  /** In the unweighted search "the source is still unlabelled" is the same test as "the source
      improves", and the back of the queue is the place where the ordered insertion puts it. */
  lemma UnitIsFair<N, L>(g: Graph<N, L>)
    requires g.WellFormed() && UnitCost(g)
    ensures forall l | l in g.links :: g.Positive(l)
    ensures forall n | n in g.nodes :: g.Fair(n)
  {
  }

  lemma AppendIsInsertion<N, L>(g: Graph<N, L>, s: Search<N, L>, l: L)
    requires s.Valid(g) && UnitCost(g) && l in g.links && l in g.usable
    requires s.Latest(g.dest[l]) && Level(s, g.dest[l])
    ensures g.Hop(l) == Fin(1.0)
    ensures s.dist[g.source[l]].Infinity? <==> Less(Plus(s.dist[g.dest[l]], g.Hop(l)), s.dist[g.source[l]])
    ensures s.dist[g.source[l]].Infinity? ==>
      && Remove(s.queue, {g.source[l]}) == s.queue
      && InsertAt(s.dist, s.queue, Plus(s.dist[g.dest[l]], g.Hop(l)), |s.queue|)
  {
    if s.dist[g.source[l]].Infinity? {
      RemoveNothing(s.queue, {g.source[l]});
    }
  }

  /** Labelling a fresh node and appending it to the queue is one relaxation of the weighted search. */
  lemma AppendIsImprove<N, L>(g: Graph<N, L>, s: Search<N, L>, l: L)
    requires s.Valid(g) && UnitCost(g) && l in g.links && l in g.usable
    requires s.Latest(g.dest[l]) && Level(s, g.dest[l]) && s.dist[g.source[l]].Infinity?
    ensures Remove(s.queue, {g.source[l]}) == s.queue
    ensures Improve(g, s, l, |s.queue|).Valid(g) && Improve(g, s, l, |s.queue|).Latest(g.dest[l])
    ensures Improve(g, s, l, |s.queue|).queue == s.queue + [g.source[l]]
    ensures Level(Improve(g, s, l, |s.queue|), g.dest[l])
  {
    hide Search.Ordered, Search.Labelled, Search.Relaxed, UnitCost, Remove;
    AppendIsInsertion(g, s, l);
    UnitIsFair(g);
    ImproveKeepsValid(g, s, l, |s.queue|);
    hide Search.Valid, Graph.WellFormed, InsertAt, Level;
    AppendKeepsLevel(s, Improve(g, s, l, |s.queue|), g.dest[l], g.source[l]);
  }

  lemma AppendKeepsLevel<N, L>(s: Search<N, L>, t: Search<N, L>, dest: N, x: N)
    requires Level(s, dest) && dest != x && s.dist[dest].Fin?
    requires t.queue == s.queue + [x] && t.dist == s.dist[x := Plus(s.dist[dest], Fin(1.0))]
    ensures Level(t, dest)
  {
  }

  /** Between two pops no queued node is more than one link farther than another. */
  ghost predicate Flat<N, L>(s: Search<N, L>) {
    forall x, y | x in s.queue && y in s.queue ::
      x in s.dist && y in s.dist && LessEq(s.dist[y], Plus(s.dist[x], Fin(1.0)))
  }

  lemma FlatHeadIsLevel<N, L>(g: Graph<N, L>, s: Search<N, L>)
    requires s.Valid(g) && Flat(s) && s.queue != []
    ensures s.queue[0] in g.nodes && Level(Pop(s), s.queue[0])
  {
    assert forall x | x in Pop(s).queue :: x in s.queue;
  }

  lemma LevelIsFlat<N, L>(g: Graph<N, L>, s: Search<N, L>, dest: N)
    requires s.Valid(g) && dest in s.popped && Level(s, dest)
    ensures Flat(s)
  {
    hide Search.Labelled, Search.Relaxed;
    assert forall x | x in s.queue :: LessEq(s.dist[dest], s.dist[x]);
  }

  /** A finished search is a shortest-path labelling: no walk is cheaper than the label of its first
      node, and following outPath from a labelled node costs exactly its label. */
  lemma FinishedIsShortest<N, L>(g: Graph<N, L>, s: Search<N, L>)
    requires Finished(g, s)
    ensures forall u, w: seq<L> | u in g.nodes && g.IsWalk(u, w) :: LessEq(s.dist[u], g.Cost(u, w))
    ensures forall u | u in g.nodes && s.dist[u].Fin? ::
      g.IsWalk(u, OutWalk(g, s, u)) && g.Cost(u, OutWalk(g, s, u)) == s.dist[u]
  {
    forall u, w: seq<L> | u in g.nodes && g.IsWalk(u, w)
      ensures LessEq(s.dist[u], g.Cost(u, w))
    {
      NoWalkIsCheaper(g, s, u, w);
    }
    forall u | u in g.nodes && s.dist[u].Fin?
      ensures g.IsWalk(u, OutWalk(g, s, u)) && g.Cost(u, OutWalk(g, s, u)) == s.dist[u]
    {
      OutWalkCostsDist(g, s, u);
    }
  }
}
