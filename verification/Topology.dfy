/** The mutable graph of inet/src/base/Topology: node and link editing, lookup by module id,
    and the two single-target shortest-path searches. */
module Topologies {
  import opened Adjacency
  import opened Sequences
  import opened ShortestPaths

  type int32 = i: int | -0x8000_0000 <= i < 0x8000_0000

  /** The cast to unsigned int that puts module id -1 behind all others. */
  function Unsigned(id: int32): (u: nat)
    ensures u < 0x1_0000_0000
  {
    if id < 0 then id + 0x1_0000_0000 else id
  }

  class Link {
    var srcNode: Node?
    var srcGateId: int32
    var destNode: Node?
    var destGateId: int32
    var weight: Dist
    var enabled: bool

    constructor (weight: Dist)
      ensures srcNode == null && destNode == null && srcGateId == destGateId == -1
      ensures this.weight == weight && enabled
    {
      srcNode, destNode, srcGateId, destGateId := null, null, -1, -1;
      this.weight, enabled := weight, true;
    }
  }

  class Node {
    const moduleId: int32
    var weight: Dist
    var enabled: bool
    var inLinks: seq<Link>
    var outLinks: seq<Link>
    var dist: Dist
    var outPath: Link?

    constructor (moduleId: int32)
      ensures this.moduleId == moduleId && weight == Fin(0.0) && enabled
      ensures inLinks == outLinks == [] && dist == Infinity && outPath == null
    {
      this.moduleId, weight, enabled := moduleId, Fin(0.0), true;
      inLinks, outLinks, dist, outPath := [], [], Infinity, null;
    }
  }

  ghost predicate SortedById(nodes: seq<Node>) {
    forall i, j | 0 <= i < j < |nodes| :: Unsigned(nodes[i].moduleId) <= Unsigned(nodes[j].moduleId)
  }

  /** Which id stands first: of two that are not negative the smaller one, and negative ones behind all others. */
  predicate StandsFirst(id: int32, other: int32) {
    if other >= 0 then 0 <= id <= other else id >= 0 || id <= other
  }

  /** The position std::lower_bound returns for `id`. */
  ghost predicate IsLowerBound(nodes: seq<Node>, id: int32, k: nat) {
    && k <= |nodes|
    && (forall i | 0 <= i < k :: Unsigned(nodes[i].moduleId) < Unsigned(id))
    && (forall i | k <= i < |nodes| :: Unsigned(id) <= Unsigned(nodes[i].moduleId))
  }

  method LowerBound(nodes: seq<Node>, id: int32) returns (k: nat)
    requires SortedById(nodes)
    ensures IsLowerBound(nodes, id, k)
  {
    k := 0;
    var count := |nodes|;
    while count > 0
      invariant 0 <= k <= k + count <= |nodes|
      invariant forall i | 0 <= i < k :: Unsigned(nodes[i].moduleId) < Unsigned(id)
      invariant forall i | k + count <= i < |nodes| :: Unsigned(id) <= Unsigned(nodes[i].moduleId)
    {
      var step := count / 2;
      if Unsigned(nodes[k + step].moduleId) < Unsigned(id) {
        k, count := k + step + 1, count - step - 1;
      } else {
        count := step;
      }
    }
  }

  method Find<T(==)>(s: seq<T>, x: T) returns (k: nat)
    requires x in s
    ensures k < |s| && s[k] == x && x !in s[..k]
  {
    k := 0;
    while s[k] != x
      invariant k < |s| && x !in s[..k]
      decreases |s| - k
    {
      assert s == s[..k] + [s[k]] + s[k + 1..];
      k := k + 1;
    }
  }

  lemma InsertKeepsSorted(nodes: seq<Node>, node: Node, pos: nat)
    requires Distinct(nodes) && SortedById(nodes) && node !in nodes
    requires IsLowerBound(nodes, node.moduleId, pos) || (node.moduleId == -1 && pos == |nodes|)
    ensures Distinct(nodes[..pos] + [node] + nodes[pos..]) && SortedById(nodes[..pos] + [node] + nodes[pos..])
  {
    var r := nodes[..pos] + [node] + nodes[pos..];
    forall i, j | 0 <= i < j < |r|
      ensures r[i] != r[j] && Unsigned(r[i].moduleId) <= Unsigned(r[j].moduleId)
    {
      var a, b := if i < pos then i else i - 1, if j < pos then j else j - 1;
      assert i != pos ==> r[i] == nodes[a];
      assert j != pos ==> r[j] == nodes[b];
    }
  }

  /** The order by unsigned ids in plain terms, and where the new node stands in it. */
  lemma OrderInPlainTerms(nodes: seq<Node>, node: Node, pos: nat)
    requires pos <= |nodes| && SortedById(nodes[..pos] + [node] + nodes[pos..])
    requires node.moduleId == -1 || IsLowerBound(nodes, node.moduleId, pos)
    ensures var r := nodes[..pos] + [node] + nodes[pos..];
      && (forall i, j | 0 <= i < j < |r| :: StandsFirst(r[i].moduleId, r[j].moduleId))
      && (node.moduleId != -1 ==>
            && (forall i | 0 <= i < pos :: !StandsFirst(node.moduleId, r[i].moduleId))
            && (forall i | pos < i < |r| :: StandsFirst(node.moduleId, r[i].moduleId)))
  {
  }

  lemma EraseKeepsSorted(nodes: seq<Node>, k: nat)
    requires SortedById(nodes) && k < |nodes|
    ensures SortedById(nodes[..k] + nodes[k + 1..])
  {
    var r := nodes[..k] + nodes[k + 1..];
    forall i, j | 0 <= i < j < |r|
      ensures Unsigned(r[i].moduleId) <= Unsigned(r[j].moduleId)
    {
      var a, b := if i < k then i else i + 1, if j < k then j else j + 1;
      assert r[i] == nodes[a] && r[j] == nodes[b];
    }
  }

  lemma EraseFacts(nodes: seq<Node>, k: nat)
    requires Distinct(nodes) && SortedById(nodes) && k < |nodes|
    ensures nodes[..k] + nodes[k + 1..] == Remove(nodes, {nodes[k]})
    ensures Distinct(nodes[..k] + nodes[k + 1..]) && SortedById(nodes[..k] + nodes[k + 1..])
    ensures forall n | n in nodes[..k] + nodes[k + 1..] :: n in nodes && n != nodes[k]
    ensures forall n | n in nodes && n != nodes[k] :: n in nodes[..k] + nodes[k + 1..]
  {
    hide Distinct, SortedById, Remove;
    EraseKeepsSorted(nodes, k);
    EraseIsRemove(nodes, k);
    RemoveKeepsDistinct(nodes, {nodes[k]});
    RemoveElements(nodes, {nodes[k]});
  }

  lemma RemoveNext<T>(r: seq<T>, q: seq<T>, i: nat, x: T)
    requires i < |q|
    ensures r + Remove(q[i..], {x}) == (if q[i] != x then r + [q[i]] else r) + Remove(q[i + 1..], {x})
  {
    assert q[i..][1..] == q[i + 1..];
  }

  /** std::list::remove: takes out every occurrence. */
  method ListRemove<T(==)>(q: seq<T>, x: T) returns (r: seq<T>)
    ensures r == Remove(q, {x})
  {
    r := [];
    var i := 0;
    while i < |q|
      invariant 0 <= i <= |q|
      invariant r + Remove(q[i..], {x}) == Remove(q, {x})
    {
      RemoveNext(r, q, i, x);
      if q[i] != x {
        r := r + [q[i]];
      }
      i := i + 1;
    }
  }

  lemma PlaceFound(d: map<Node, Dist>, q: seq<Node>, nd: Dist, it: nat)
    requires it <= |q| && forall x | x in q :: x in d && x.dist == d[x]
    requires (forall i | 0 <= i < it :: LessEq(q[i].dist, nd)) && (it < |q| ==> Less(nd, q[it].dist))
    ensures InsertAt(d, q, nd, it)
  {
  }

  lemma QueueFacts(g: Graph<Node, Link>, s: Search<Node, Link>, link: Link)
    requires s.Valid(g) && link in g.links && link in g.usable && g.Positive(link) && s.Latest(g.dest[link])
    requires Less(Plus(s.dist[g.dest[link]], g.Hop(link)), s.dist[g.source[link]])
    ensures g.WellFormed() && g.dest[link] in s.dist && g.source[link] in s.dist
    ensures s.dist[g.source[link]] == Infinity ==> g.source[link] !in s.queue
    ensures forall x | x in s.queue :: x in s.dist && x in g.nodes
  {
    PoppedNeverImproves(g, s, link);
  }

  lemma ImproveLabels(g: Graph<Node, Link>, s: Search<Node, Link>, l: Link, k: nat)
    requires g.WellFormed() && l in g.links && g.dest[l] in s.dist
    requires k <= |Remove(s.queue, {g.source[l]})|
    ensures var t := Improve(g, s, l, k);
      && t.dist == s.dist[g.source[l] := Plus(s.dist[g.dest[l]], g.Hop(l))] && t.out == s.out[g.source[l] := Some(l)]
  {
  }

  lemma PlacedIsImproved(g: Graph<Node, Link>, s: Search<Node, Link>, l: Link, it: nat)
    requires s.Valid(g) && l in g.links && g.dest[l] in s.dist
    requires forall x | x in Remove(s.queue, {g.source[l]}) :: x in s.dist
    requires InsertAt(s.dist, Remove(s.queue, {g.source[l]}), Plus(s.dist[g.dest[l]], g.Hop(l)), it)
    ensures var t, rest := Improve(g, s, l, it), Remove(s.queue, {g.source[l]});
      ImprovedBy(g, s, l, t) && t.queue == rest[..it] + [g.source[l]] + rest[it..]
  {
    hide Graph.WellFormed, Remove, Plus, Search.Ordered, Search.Labelled, Search.Relaxed;
  }

  lemma StartIsFlat(g: Graph<Node, Link>, s: Search<Node, Link>)
    requires s.Valid(g) && s.queue == [g.target]
    ensures Flat(s)
  {
    hide Search.Ordered, Search.Labelled, Search.Relaxed;
  }

  /** How a weighted search ends. */
  datatype Outcome = Done | NoTarget | BadWeight

  /** The nodes in the order in which the search popped them: each once, the nearer first. */
  ghost predicate InOrder(order: seq<Node>, s: Search<Node, Link>) {
    && Distinct(order) && Elements(order) == s.popped && s.popped <= s.dist.Keys
    && Sorted(s.dist, order)
  }

  lemma NothingInOrder(s: Search<Node, Link>)
    requires s.popped == {}
    ensures InOrder([], s)
  {
  }

  /** The next node popped comes last. */
  lemma PopInOrder(g: Graph<Node, Link>, s: Search<Node, Link>, order: seq<Node>, t: Search<Node, Link>)
    requires s.Valid(g) && s.queue != [] && InOrder(order, s)
    requires t.popped == s.popped + {s.queue[0]} && Kept(Pop(s), t)
    ensures InOrder(order + [s.queue[0]], t) && s.queue[0] in g.nodes && s.queue[0] !in s.popped
  {
    hide Search.Shape, Search.Labelled, Search.Relaxed, Sorted;
    PopKeepsValid(g, s);
    AppendDistinct(order, s.queue[0]);
    assert forall n | n in order :: n in s.popped && LessEq(s.dist[n], s.dist[s.queue[0]]);
    AppendKeepsSorted(s.dist, t.dist, order, s.queue[0]);
  }

  lemma AppendKeepsSorted(d: map<Node, Dist>, e: map<Node, Dist>, order: seq<Node>, x: Node)
    requires x in d && x in e && e[x] == d[x]
    requires forall n | n in order :: n in d && n in e && e[n] == d[n] && LessEq(d[n], d[x])
    requires Sorted(d, order)
    ensures Sorted(e, order + [x])
  {
  }

  class Topology {
    var nodes: seq<Node>
    var target: Node?
    // The two sides of the link index as values: the lists of every node, the end of every link.
    ghost var outs: map<Node, seq<Link>>
    ghost var srcs: map<Link, Node>
    ghost var ins: map<Node, seq<Link>>
    ghost var dests: map<Link, Node>

    ghost predicate OutSide()
      reads this`nodes, this`outs, this`srcs, nodes`outLinks, srcs.Keys`srcNode
    {
      && Indexed(outs, srcs)
      && (forall n | n in nodes :: n in outs && n.outLinks == outs[n])
      && (forall n | n in outs :: n in nodes)
      && (forall l | l in srcs :: l.srcNode == srcs[l])
    }

    ghost predicate InSide()
      reads this`nodes, this`ins, this`dests, nodes`inLinks, dests.Keys`destNode
    {
      && Indexed(ins, dests)
      && (forall n | n in nodes :: n in ins && n.inLinks == ins[n])
      && (forall n | n in ins :: n in nodes)
      && (forall l | l in dests :: l.destNode == dests[l])
    }

    /** Every link stands once in the out-list of its source and once in the in-list of its
        destination, both of them nodes of the graph, those lists hold nothing else, and the nodes
        are sorted by module id, none twice. */
    ghost predicate Valid()
      reads this, nodes`outLinks, nodes`inLinks, srcs.Keys`srcNode, dests.Keys`destNode
    {
      Distinct(nodes) && SortedById(nodes) && OutSide() && InSide() && srcs.Keys == dests.Keys
    }

    constructor ()
      ensures Valid() && nodes == [] && srcs == map[] && target == null
    {
      nodes, target := [], null;
      outs, srcs, ins, dests := map[], map[], map[], map[];
    }

    /** Nodes without module id go to the end, the others before the first not smaller one.  The index stays
        whole exactly when the node brings no links. */
    method AddNode(node: Node) returns (pos: nat)
      requires Valid() && node !in nodes
      modifies this`nodes, this`outs, this`ins
      ensures outs == old(outs)[node := node.outLinks] && ins == old(ins)[node := node.inLinks]
      ensures Distinct(nodes) && SortedById(nodes) && (Valid() <==> node.inLinks == node.outLinks == [])
      ensures pos <= |old(nodes)| && nodes == old(nodes)[..pos] + [node] + old(nodes)[pos..]
      ensures if node.moduleId == -1 then pos == |old(nodes)| else IsLowerBound(old(nodes), node.moduleId, pos)
      ensures forall i, j | 0 <= i < j < |nodes| :: StandsFirst(nodes[i].moduleId, nodes[j].moduleId)
      ensures node.moduleId != -1 ==>
        && (forall i | 0 <= i < pos :: !StandsFirst(node.moduleId, nodes[i].moduleId))
        && (forall i | pos < i < |nodes| :: StandsFirst(node.moduleId, nodes[i].moduleId))
    {
      if node.moduleId == -1 {
        pos := |nodes|;
      } else {
        pos := LowerBound(nodes, node.moduleId);
      }
      InsertKeepsSorted(nodes, node, pos);
      ghost var before := nodes;
      {
        hide IsLowerBound, SortedById, Indexed;
        Insert(node, pos);
      }
      OrderInPlainTerms(before, node, pos);
    }

    method Insert(node: Node, pos: nat)
      requires OutSide() && InSide() && node !in nodes && pos <= |nodes|
      modifies this`nodes, this`outs, this`ins
      ensures outs == old(outs)[node := node.outLinks] && ins == old(ins)[node := node.inLinks]
      ensures OutSide() <==> node.outLinks == []
      ensures InSide() <==> node.inLinks == []
      ensures nodes == old(nodes)[..pos] + [node] + old(nodes)[pos..]
    {
      hide Distinct;
      assert nodes == nodes[..pos] + nodes[pos..];
      NewNodeIndexedExactly(outs, srcs, node, node.outLinks);
      NewNodeIndexedExactly(ins, dests, node, node.inLinks);
      nodes := nodes[..pos] + [node] + nodes[pos..];
      outs, ins := outs[node := node.outLinks], ins[node := node.inLinks];
    }

    /** Bisection finds a node exactly when one with that module id is present: the first such node. */
    method GetNodeFor(id: int32) returns (n: Node?)
      requires Valid()
      ensures n != null <==> exists m | m in nodes :: m.moduleId == id
      ensures n != null ==>
        exists k :: 0 <= k < |nodes| && nodes[k] == n && n.moduleId == id && IsLowerBound(nodes, id, k)
    {
      var k := LowerBound(nodes, id);
      n := if k == |nodes| || nodes[k].moduleId != id then null else nodes[k];
      if n == null {
        forall m | m in nodes
          ensures m.moduleId != id
        {
          var i :| 0 <= i < |nodes| && nodes[i] == m;
        }
      }
    }

    method UnlinkFromSourceNode(link: Link)
      requires link.srcNode != null && Distinct(link.srcNode.outLinks) && link in link.srcNode.outLinks
      modifies link.srcNode`outLinks
      ensures link.srcNode.outLinks == Remove(old(link.srcNode.outLinks), {link})
    {
      var it := Find(link.srcNode.outLinks, link);
      EraseIsRemove(link.srcNode.outLinks, it);
      link.srcNode.outLinks := link.srcNode.outLinks[..it] + link.srcNode.outLinks[it + 1..];
    }

    method DetachSource(link: Link)
      requires OutSide() && (link in srcs || link.srcNode == null)
      modifies this`outs, this`srcs, nodes`outLinks
      ensures OutSide() && srcs == old(srcs) - {link} && outs == Drop(old(outs), {link})
    {
      DropKeepsIndexed(outs, srcs, {link});
      if link.srcNode != null {
        EraseIsDrop(outs, srcs, link);
        UnlinkFromSourceNode(link);
      } else {
        DropUnknown(outs, srcs, {link});
      }
      outs, srcs := Drop(outs, {link}), srcs - {link};
    }

    method AttachSource(link: Link, node: Node)
      requires OutSide() && link !in srcs && node in nodes
      modifies this`outs, this`srcs, node`outLinks, link`srcNode, link`srcGateId
      ensures OutSide() && srcs == old(srcs)[link := node]
      ensures outs == old(outs)[node := old(outs[node]) + [link]]
      ensures link.srcGateId == (if old(link.srcNode) == node then old(link.srcGateId) else -1)
    {
      hide Drop, Remove, Distinct;
      AppendKeepsIndexed(outs, srcs, link, node);
      if link.srcNode != node {
        link.srcGateId := -1;
      }
      link.srcNode := node;
      node.outLinks := node.outLinks + [link];
      outs, srcs := outs[node := outs[node] + [link]], srcs[link := node];
    }

    method UnlinkFromDestNode(link: Link)
      requires link.destNode != null && Distinct(link.destNode.inLinks) && link in link.destNode.inLinks
      modifies link.destNode`inLinks
      ensures link.destNode.inLinks == Remove(old(link.destNode.inLinks), {link})
    {
      var it := Find(link.destNode.inLinks, link);
      EraseIsRemove(link.destNode.inLinks, it);
      link.destNode.inLinks := link.destNode.inLinks[..it] + link.destNode.inLinks[it + 1..];
    }

    method DetachDest(link: Link)
      requires InSide() && (link in dests || link.destNode == null)
      modifies this`ins, this`dests, nodes`inLinks
      ensures InSide() && dests == old(dests) - {link} && ins == Drop(old(ins), {link})
    {
      DropKeepsIndexed(ins, dests, {link});
      if link.destNode != null {
        EraseIsDrop(ins, dests, link);
        UnlinkFromDestNode(link);
      } else {
        DropUnknown(ins, dests, {link});
      }
      ins, dests := Drop(ins, {link}), dests - {link};
    }

    method AttachDest(link: Link, node: Node)
      requires InSide() && link !in dests && node in nodes
      modifies this`ins, this`dests, node`inLinks, link`destNode, link`destGateId
      ensures InSide() && dests == old(dests)[link := node]
      ensures ins == old(ins)[node := old(ins[node]) + [link]]
      ensures link.destGateId == (if old(link.destNode) == node then old(link.destGateId) else -1)
    {
      hide Drop, Remove, Distinct;
      AppendKeepsIndexed(ins, dests, link, node);
      if link.destNode != node {
        link.destGateId := -1;
      }
      link.destNode := node;
      node.inLinks := node.inLinks + [link];
      ins, dests := ins[node := ins[node] + [link]], dests[link := node];
    }

    /** Takes a link out of the graph if it is in. */
    method Disconnect(link: Link)
      requires Valid() && (link in srcs || link.srcNode == link.destNode == null)
      modifies this`outs, this`srcs, this`ins, this`dests, nodes`outLinks, nodes`inLinks
      ensures Valid() && srcs == old(srcs) - {link} && dests == old(dests) - {link}
      ensures outs == Drop(old(outs), {link}) && ins == Drop(old(ins), {link})
    {
      hide OutSide, InSide, Indexed, Distinct, SortedById, Drop, Remove;
      DetachSource(link);
      DetachDest(link);
    }

    /** Connects a new link, or reconnects one of the graph. */
    method AddLink(link: Link, srcNode: Node, destNode: Node)
      requires Valid() && srcNode in nodes && destNode in nodes
      requires link in srcs || link.srcNode == link.destNode == null
      modifies this`outs, this`srcs, this`ins, this`dests, nodes`outLinks, nodes`inLinks
      modifies link`srcNode, link`destNode, link`srcGateId, link`destGateId
      ensures Valid()
      ensures srcs == (old(srcs) - {link})[link := srcNode] && dests == (old(dests) - {link})[link := destNode]
      ensures outs == Drop(old(outs), {link})[srcNode := Drop(old(outs), {link})[srcNode] + [link]]
      ensures ins == Drop(old(ins), {link})[destNode := Drop(old(ins), {link})[destNode] + [link]]
      ensures link.srcGateId == (if old(link.srcNode) == srcNode then old(link.srcGateId) else -1)
      ensures link.destGateId == (if old(link.destNode) == destNode then old(link.destGateId) else -1)
    {
      hide OutSide, InSide, Indexed, Distinct, SortedById, Drop, Remove;
      Disconnect(link);
      AttachSource(link, srcNode);
      AttachDest(link, destNode);
    }

    method DeleteLink(link: Link)
      requires Valid() && link in srcs
      modifies this`outs, this`srcs, this`ins, this`dests, nodes`outLinks, nodes`inLinks
      ensures Valid() && srcs == old(srcs) - {link} && dests == old(dests) - {link}
      ensures outs == Drop(old(outs), {link}) && ins == Drop(old(ins), {link})
    {
      Disconnect(link);
    }

    /** Deletes the outgoing links of a node. */
    method UnlinkOutgoing(node: Node)
      requires Valid() && node in nodes && node in outs && node in ins
      modifies this`outs, this`srcs, this`ins, this`dests, nodes`outLinks, nodes`inLinks
      ensures Valid()
      ensures var gone := Elements(old(outs)[node]);
        && outs == Drop(old(outs), gone) && ins == Drop(old(ins), gone)
        && srcs == old(srcs) - gone && dests == old(dests) - gone
    {
      hide OutSide, InSide, Indexed, Distinct, SortedById, Drop, Remove;
      OutListed(node);
      UnlinkOutgoingEnds(node);
      ClearOut(node);
    }

    method ClearOut(node: Node)
      requires OutSide() && node in nodes && node in outs
      modifies this`outs, this`srcs, node`outLinks
      ensures OutSide()
      ensures var gone := Elements(old(outs)[node]); outs == Drop(old(outs), gone) && srcs == old(srcs) - gone
    {
      hide Drop, Remove, Distinct;
      ClearIsDrop(outs, srcs, node);
      DropKeepsIndexed(outs, srcs, Elements(outs[node]));
      node.outLinks := [];
      srcs := srcs - Elements(outs[node]);
      outs := outs[node := []];
    }

    lemma OutListed(node: Node)
      requires OutSide() && node in nodes
      ensures node in outs && node.outLinks == outs[node] && Distinct(node.outLinks)
      ensures forall l | l in node.outLinks :: l in srcs && l.srcNode == node
    {
    }

    method UnlinkOutgoingEnds(node: Node)
      requires InSide() && node in nodes && Distinct(node.outLinks) && forall l | l in node.outLinks :: l in dests
      modifies this`ins, this`dests, nodes`inLinks
      ensures InSide()
      ensures var gone := Elements(node.outLinks); ins == Drop(old(ins), gone) && dests == old(dests) - gone
    {
      hide Drop, Remove, InSide, Indexed;
      ghost var gone: set<Link> := {};
      DropNothing(ins);
      for i := 0 to |node.outLinks|
        invariant InSide() && gone == Elements(node.outLinks[..i])
        invariant ins == Drop(old(ins), gone) && dests == old(dests) - gone
      {
        var link := node.outLinks[i];
        DetachDest(link);
        DropTwice(old(ins), gone, {link});
        gone := gone + {link};
        assert node.outLinks[..i + 1] == node.outLinks[..i] + [link];
      }
      assert node.outLinks[..|node.outLinks|] == node.outLinks;
    }

    /** Deletes the incoming links of a node. */
    method UnlinkIncoming(node: Node)
      requires Valid() && node in nodes && node in outs && node in ins
      modifies this`outs, this`srcs, this`ins, this`dests, nodes`outLinks, nodes`inLinks
      ensures Valid()
      ensures var gone := Elements(old(ins)[node]);
        && outs == Drop(old(outs), gone) && ins == Drop(old(ins), gone)
        && srcs == old(srcs) - gone && dests == old(dests) - gone
    {
      hide OutSide, InSide, Indexed, Distinct, SortedById, Drop, Remove;
      InListed(node);
      UnlinkIncomingEnds(node);
      ClearIn(node);
    }

    method ClearIn(node: Node)
      requires InSide() && node in nodes && node in ins
      modifies this`ins, this`dests, node`inLinks
      ensures InSide()
      ensures var gone := Elements(old(ins)[node]); ins == Drop(old(ins), gone) && dests == old(dests) - gone
    {
      hide Drop, Remove, Distinct;
      ClearIsDrop(ins, dests, node);
      DropKeepsIndexed(ins, dests, Elements(ins[node]));
      node.inLinks := [];
      dests := dests - Elements(ins[node]);
      ins := ins[node := []];
    }

    lemma InListed(node: Node)
      requires InSide() && node in nodes
      ensures node in ins && node.inLinks == ins[node] && Distinct(node.inLinks)
      ensures forall l | l in node.inLinks :: l in dests && l.destNode == node
    {
    }

    method UnlinkIncomingEnds(node: Node)
      requires OutSide() && node in nodes && Distinct(node.inLinks) && forall l | l in node.inLinks :: l in srcs
      modifies this`outs, this`srcs, nodes`outLinks
      ensures OutSide()
      ensures var gone := Elements(node.inLinks); outs == Drop(old(outs), gone) && srcs == old(srcs) - gone
    {
      hide Drop, Remove, OutSide, Indexed;
      ghost var gone: set<Link> := {};
      DropNothing(outs);
      for i := 0 to |node.inLinks|
        invariant OutSide() && gone == Elements(node.inLinks[..i])
        invariant outs == Drop(old(outs), gone) && srcs == old(srcs) - gone
      {
        var link := node.inLinks[i];
        DetachSource(link);
        DropTwice(old(outs), gone, {link});
        gone := gone + {link};
        assert node.inLinks[..i + 1] == node.inLinks[..i] + [link];
      }
      assert node.inLinks[..|node.inLinks|] == node.inLinks;
    }

    /** The links that touch a node. */
    ghost function Touching(node: Node): set<Link>
      reads this`outs, this`ins
      requires node in outs && node in ins
    {
      Elements(outs[node]) + Elements(ins[node])
    }

    /** They are exactly the links that start or end there. */
    lemma TouchingIsIncident(node: Node)
      requires Valid() && node in nodes && node in outs && node in ins
      ensures Touching(node) == set l | l in srcs && (l.srcNode == node || l.destNode == node)
    {
      ListedAtEnd(outs, srcs, node);
      ListedAtEnd(ins, dests, node);
    }

    /** Erases an isolated node from nodes[]. */
    method EraseNode(node: Node)
      requires Valid() && node in nodes && node in outs && node in ins
      requires Elements(outs[node]) == {} && Elements(ins[node]) == {}
      modifies this`nodes, this`outs, this`ins
      ensures Valid() && nodes == Remove(old(nodes), {node})
      ensures outs == old(outs) - {node} && ins == old(ins) - {node}
    {
      hide Drop, Distinct, SortedById, Remove, Indexed, Elements;
      var it := Find(nodes, node);
      EraseFacts(nodes, it);
      Forget(node, nodes[..it] + nodes[it + 1..]);
    }

    method Forget(node: Node, rest: seq<Node>)
      requires OutSide() && InSide() && node in outs && node in ins
      requires Elements(outs[node]) == {} && Elements(ins[node]) == {}
      requires forall n | n in rest :: n in nodes && n != node
      requires forall n | n in nodes && n != node :: n in rest
      modifies this`nodes, this`outs, this`ins
      ensures OutSide() && InSide() && nodes == rest && outs == old(outs) - {node} && ins == old(ins) - {node}
    {
      hide Indexed, Elements;
      ForgetKeepsIndexed(outs, srcs, node);
      ForgetKeepsIndexed(ins, dests, node);
      nodes := rest;
      outs, ins := outs - {node}, ins - {node};
    }

    /** Deletes all links of a node, on both of their sides. */
    method Isolate(node: Node)
      requires Valid() && node in nodes && node in outs && node in ins
      modifies this`outs, this`srcs, this`ins, this`dests, nodes`outLinks, nodes`inLinks
      ensures Valid()
      ensures var gone := old(Touching(node));
        && outs == Drop(old(outs), gone) && ins == Drop(old(ins), gone)
        && srcs == old(srcs) - gone && dests == old(dests) - gone
    {
      hide OutSide, InSide, Indexed, Distinct, SortedById, Drop, Remove, Elements;
      DropElements(ins, Elements(outs[node]), node);
      DropElements(outs, Elements(outs[node]), node);
      UnlinkOutgoing(node);
      ghost var c := Elements(ins[node]);
      DropTwice(old(outs), old(Elements(outs[node])), c);
      DropTwice(old(ins), old(Elements(outs[node])), c);
      assert old(Elements(outs[node])) + c == old(Touching(node));
      UnlinkIncoming(node);
    }

    /** Takes the node and exactly the links that touch it out of the graph. */
    method DeleteNode(node: Node)
      requires Valid() && node in nodes && node in outs && node in ins
      modifies this`nodes, this`outs, this`srcs, this`ins, this`dests, nodes`outLinks, nodes`inLinks
      ensures Valid() && nodes == Remove(old(nodes), {node})
      ensures var gone := old(Touching(node));
        && outs == Drop(old(outs), gone) - {node} && ins == Drop(old(ins), gone) - {node}
        && srcs == old(srcs) - gone && dests == old(dests) - gone
    {
      hide OutSide, InSide, Indexed, Distinct, SortedById, Drop, Remove, Elements;
      DropElements(outs, Touching(node), node);
      DropElements(ins, Touching(node), node);
      Isolate(node);
      EraseNode(node);
    }

    /** The graph a search runs on; the unweighted search reads every link as 1 and every node as 0. */
    ghost function Snapshot(weighted: bool): Graph<Node, Link>
      reads this`target, this`srcs, this`dests, this`outs
      reads srcs.Keys`weight, srcs.Keys`enabled, srcs.Values`enabled, outs.Keys`weight
      requires target != null
    {
      Graph(outs.Keys, target, srcs.Keys, srcs, dests,
        map l | l in srcs :: if weighted then l.weight else Fin(1.0),
        map n | n in outs :: if weighted then n.weight else Fin(0.0),
        set l | l in srcs && l.enabled && srcs[l].enabled)
    }

    /** The fields of the nodes hold the labels of `s`. */
    ghost predicate Shows(s: Search<Node, Link>)
      reads this`nodes, nodes`dist, nodes`outPath
    {
      forall n | n in nodes :: n in s.dist && n in s.out && n.dist == s.dist[n]
        && n.outPath == if s.out[n].Some? then s.out[n].value else null
    }

    lemma SnapshotFacts(weighted: bool, link: Link)
      requires target != null && OutSide() && InSide() && link in srcs && link in dests
      ensures var g := Snapshot(weighted);
        && link in g.links && g.source[link] == link.srcNode && g.dest[link] == link.destNode
        && link.srcNode in nodes && link.destNode in nodes && link.destNode in outs && link.srcNode in outs
        && (link in g.usable <==> link.enabled && link.srcNode.enabled)
        && g.linkWeight[link] == (if weighted then link.weight else Fin(1.0))
        && g.nodeWeight[link.destNode] == (if weighted then link.destNode.weight else Fin(0.0))
    {
      assert srcs[link] in outs && dests[link] in ins;
    }

    /** One round of the scan over the in-links of the node just popped: one relaxation, unless the link is
        usable and costs nothing. */
    method Relax(dest: Node, link: Link, q: seq<Node>, ghost g: Graph<Node, Link>, ghost s: Search<Node, Link>)
      returns (ok: bool, q': seq<Node>, ghost s': Search<Node, Link>)
      requires target != null && g == Snapshot(true) && OutSide() && InSide() && link in srcs && link in dests
      requires link.destNode == dest && s.Valid(g) && s.Latest(dest) && Shows(s) && q == s.queue
      requires LessEq(Fin(0.0), dest.weight)
      modifies nodes`dist, nodes`outPath
      ensures link in g.links && g.dest[link] == dest && (ok <==> (link in g.usable ==> g.Positive(link)))
      ensures Shows(s') && q' == s'.queue && if ok then IsRelaxation(g, s, link, s') else s' == s
    {
      hide Distinct, Remove, Indexed, Improve, Search.Ordered, Search.Labelled, Search.Relaxed;
      ok, q', s' := true, q, Skip(s, link);
      SnapshotFacts(true, link);
      assert g.target == target;
      if !link.enabled {
        return;
      }
      var src := link.srcNode;
      if !src.enabled {
        return;
      }
      if !Less(Fin(0.0), link.weight) {
        ok, s' := false, s;
        return;
      }
      var newdist := Plus(dest.dist, link.weight);
      if dest != target {
        newdist := Plus(newdist, dest.weight);
      }
      assert newdist == Plus(s.dist[dest], g.Hop(link));
      if newdist == Infinity || !Less(newdist, src.dist) {
        return;
      }
      q', s' := Requeue(src, link, newdist, q, g, s);
    }

    /** Gives `src` its shorter distance and its new place in the work list. */
    method Requeue(src: Node, link: Link, newdist: Dist, q: seq<Node>,
                   ghost g: Graph<Node, Link>, ghost s: Search<Node, Link>)
      returns (q': seq<Node>, ghost s': Search<Node, Link>)
      requires s.Valid(g) && Shows(s) && q == s.queue && (forall n | n in g.nodes :: n in nodes)
      requires link in g.links && link in g.usable && g.Positive(link) && g.source[link] == src
      requires s.Latest(g.dest[link]) && src in nodes
      requires newdist == Plus(s.dist[g.dest[link]], g.Hop(link)) && Less(newdist, src.dist)
      modifies src`dist, src`outPath
      ensures ImprovedBy(g, s, link, s') && Shows(s') && q' == s'.queue
    {
      hide Distinct, Remove, Sorted, Graph.WellFormed;
      hide Search.Shape, Search.Ordered, Search.Labelled, Search.Relaxed, Search.Latest, Less, Plus;
      hide ImprovedBy, Improve, InsertAt;
      QueueFacts(g, s, link);
      var rest := Withdraw(src, q);
      Relabel(src, link, newdist, s);
      var it := FirstFarther(rest, newdist);
      PlaceFound(s.dist, rest, newdist, it);
      q' := rest[..it] + [src] + rest[it..];
      s' := Improve(g, s, link, it);
      PlacedIsImproved(g, s, link, it);
      ImproveLabels(g, s, link, it);
    }

    method Relabel(src: Node, link: Link, newdist: Dist, ghost s: Search<Node, Link>)
      requires Shows(s) && src in nodes
      modifies src`dist, src`outPath
      ensures forall t: Search<Node, Link> |
                t.dist == s.dist[src := newdist] && t.out == s.out[src := Some(link)] :: Shows(t)
      ensures src.dist == newdist
    {
      src.dist := newdist;
      src.outPath := link;
    }

    /** A labelled node is in the queue. */
    method Withdraw(src: Node, q: seq<Node>) returns (q': seq<Node>)
      requires src.dist == Infinity ==> src !in q
      ensures q' == Remove(q, {src}) && forall x | x in q' :: x in q && x != src
    {
      q' := q;
      RemoveElements(q, {src});
      if src.dist != Infinity {
        q' := ListRemove(q', src);
      } else {
        RemoveNothing(q, {src});
      }
    }

    /** The place of a node at distance `newdist` in the ordered work list. */
    method FirstFarther(q: seq<Node>, newdist: Dist) returns (it: nat)
      ensures it <= |q| && (forall i | 0 <= i < it :: LessEq(q[i].dist, newdist))
      ensures it < |q| ==> Less(newdist, q[it].dist)
    {
      it := 0;
      while it < |q| && !Less(newdist, q[it].dist)
        invariant 0 <= it <= |q| && (forall i | 0 <= i < it :: LessEq(q[i].dist, newdist))
      {
        it := it + 1;
      }
    }

    /** Relaxes every in-link of the node just popped, up to the first usable one that costs nothing. */
    method Scan(dest: Node, q: seq<Node>, ghost g: Graph<Node, Link>, ghost s: Search<Node, Link>)
      returns (ok: bool, q': seq<Node>, ghost s': Search<Node, Link>)
      requires target != null && g == Snapshot(true) && OutSide() && InSide() && srcs.Keys == dests.Keys
      requires dest in nodes && s.Valid(g) && s.Latest(dest) && Shows(s) && q == s.queue
      requires LessEq(Fin(0.0), dest.weight)
      modifies nodes`dist, nodes`outPath
      ensures s'.Valid(g) && Shows(s') && q' == s'.queue && s'.popped == s.popped && Kept(s, s')
      ensures ok ==> s'.relaxed == s.relaxed + Elements(dest.inLinks)
      ensures dest in g.nodes && (ok <==> g.Fair(dest))
    {
      hide Distinct, Indexed, Snapshot, Shows, Search.Valid, Search.Latest, IsRelaxation;
      ok, q', s' := true, q, s;
      InListed(dest);
      KeptAtFirst(g, s);
      for i := 0 to |dest.inLinks|
        invariant s'.Valid(g) && s'.Latest(dest) && Shows(s') && q' == s'.queue
        invariant s'.popped == s.popped && s'.relaxed == s.relaxed + Elements(dest.inLinks[..i]) && Kept(s, s')
      {
        assert Elements(dest.inLinks[..i + 1]) == Elements(dest.inLinks[..i]) + {dest.inLinks[i]} by {
          assert dest.inLinks[..i + 1] == dest.inLinks[..i] + [dest.inLinks[i]];
        }
        ghost var before := s';
        ok, q', s' := Relax(dest, dest.inLinks[i], q', g, s');
        if !ok {
          NodeIsIn(g, s', dest);
          return;
        }
        RelaxationKeepsValid(g, before, dest.inLinks[i], s');
        KeptTwice(s, before, s');
      }
      assert dest.inLinks[..|dest.inLinks|] == dest.inLinks;
      InLinksAreFair(true, g, s', dest);
    }

    lemma NodeIsIn(g: Graph<Node, Link>, s: Search<Node, Link>, n: Node)
      requires target != null && g == Snapshot(true) && OutSide() && s.Valid(g) && n in nodes
      ensures g.WellFormed() && n in g.nodes
    {
      hide Search.Ordered, Search.Labelled, Search.Relaxed;
    }

    /** A node that costs nothing negative is fair once its in-links are relaxed. */
    lemma InLinksAreFair(weighted: bool, g: Graph<Node, Link>, s: Search<Node, Link>, dest: Node)
      requires target != null && g == Snapshot(weighted) && OutSide() && InSide() && srcs.Keys == dests.Keys
      requires s.Valid(g) && dest in nodes && LessEq(Fin(0.0), if weighted then dest.weight else Fin(0.0))
      requires Elements(dest.inLinks) <= s.relaxed
      ensures g.WellFormed() && dest in g.nodes && g.Fair(dest)
    {
      hide Distinct, Search.Ordered, Search.Labelled;
      assert dest in g.nodes && dest in ins;
      forall l | l in g.links && l in g.usable && g.dest[l] == dest
        ensures g.Positive(l)
      {
        assert l in Elements(dest.inLinks);
      }
    }

    /** Takes the nearest node off the work list and relaxes its in-links, unless it is not fair. */
    method PopAndScan(q: seq<Node>, ghost g: Graph<Node, Link>, ghost s: Search<Node, Link>)
      returns (ok: bool, q': seq<Node>, ghost s': Search<Node, Link>)
      requires target != null && g == Snapshot(true) && Valid() && g.nodes == Elements(nodes)
      requires s.Valid(g) && s.Settled(g) && Shows(s) && q == s.queue && q != []
      modifies nodes`dist, nodes`outPath
      ensures s'.Valid(g) && Shows(s') && q' == s'.queue && s'.popped == s.popped + {q[0]} && Kept(Pop(s), s')
      ensures q[0] in g.nodes && (ok <==> g.Fair(q[0])) && (ok ==> s'.Settled(g))
    {
      hide OutSide, InSide, SortedById, Snapshot, Shows, Search.Valid, Search.Latest, Search.Settled;
      var dest := q[0];
      PopKeepsValid(g, s);
      ShowsSame(s, Pop(s));
      NodeWeightIs(g, dest);
      if Less(dest.weight, Fin(0.0)) {
        ok, q', s' := false, q[1..], Pop(s);
        KeptAtFirst(g, s');
        return;
      }
      ok, q', s' := Scan(dest, q[1..], g, Pop(s));
      if ok {
        SettledAfterScan(true, g, s, s', dest);
      }
    }

    lemma NodeWeightIs(g: Graph<Node, Link>, n: Node)
      requires target != null && g == Snapshot(true) && OutSide() && n in nodes
      ensures n in g.nodes && n in g.nodeWeight && g.nodeWeight[n] == n.weight
    {
    }

    lemma ShowsSame(s: Search<Node, Link>, t: Search<Node, Link>)
      requires Shows(s) && t.dist == s.dist && t.out == s.out
      ensures Shows(t)
    {
    }

    lemma SettledAfterScan(weighted: bool, g: Graph<Node, Link>, s: Search<Node, Link>, t: Search<Node, Link>,
                           dest: Node)
      requires target != null && g == Snapshot(weighted) && Valid() && dest in nodes && s.Valid(g) && s.Settled(g)
      requires t.popped == s.popped + {dest} && t.relaxed == s.relaxed + Elements(dest.inLinks)
      requires dest in g.nodes && g.Fair(dest)
      ensures g.WellFormed() && t.Settled(g)
    {
      hide OutSide, Distinct, SortedById, Search.Ordered, Search.Labelled, Search.Relaxed;
    }

    lemma SnapshotIsWellFormed(weighted: bool)
      requires target != null && Valid() && target in nodes
      ensures Snapshot(weighted).WellFormed() && Snapshot(weighted).nodes == Elements(nodes)
      ensures Snapshot(weighted).target == target
    {
      hide Distinct, SortedById;
    }

    lemma StartShows(g: Graph<Node, Link>)
      requires target != null && target in nodes && g.target == target && g.nodes == Elements(nodes)
      requires forall n | n in nodes :: n.dist == (if n == target then Fin(0.0) else Infinity) && n.outPath == null
      ensures Shows(Start(g))
    {
    }

    /** No walk from a node is cheaper than its dist, and the walk along outPath costs exactly that. */
    lemma LabelsAreShortest(g: Graph<Node, Link>, s: Search<Node, Link>)
      requires Finished(g, s) && Shows(s) && g.nodes == Elements(nodes)
      ensures forall n, w: seq<Link> | n in nodes && g.IsWalk(n, w) :: LessEq(n.dist, g.Cost(n, w))
      ensures forall n | n in nodes && n.dist.Fin? ::
        s.dist[n].Fin? && g.IsWalk(n, OutWalk(g, s, n)) && g.Cost(n, OutWalk(g, s, n)) == n.dist
    {
      FinishedIsShortest(g, s);
    }

    /** Dijkstra's algorithm towards a single target; a null target is an error, and so is a node that the
        search pops though it is not fair.  It comes to such a node exactly when some node is not fair from
        which the target is reached at a finite cost. */
    method CalculateWeightedSingleShortestPathsTo(t: Node?)
      returns (outcome: Outcome, ghost s: Search<Node, Link>, ghost order: seq<Node>)
      requires Valid() && (t != null ==> t in nodes)
      modifies this`target, nodes`dist, nodes`outPath
      ensures outcome.NoTarget? <==> t == null
      ensures t != null ==> target == t && s.Valid(Snapshot(true)) && Shows(s) && InOrder(order, s)
      ensures t != null ==> Snapshot(true).WellFormed() && Snapshot(true).nodes == Elements(nodes)
      ensures outcome.Done? ==> forall n, w: seq<Link> |
        n in nodes && Snapshot(true).IsWalk(n, w) && Snapshot(true).Cost(n, w).Fin? :: Snapshot(true).Fair(n)
      ensures outcome.BadWeight? ==> exists n, w: seq<Link> ::
        n in nodes && Snapshot(true).IsWalk(n, w) && Snapshot(true).Cost(n, w).Fin? && !Snapshot(true).Fair(n)
      ensures outcome.Done? ==> Finished(Snapshot(true), s)
      ensures outcome.Done? ==> forall n, w: seq<Link> | n in nodes && Snapshot(true).IsWalk(n, w) ::
        LessEq(n.dist, Snapshot(true).Cost(n, w))
      ensures outcome.Done? ==> forall n | n in nodes && n.dist.Fin? ::
        && s.dist[n].Fin? && Snapshot(true).IsWalk(n, OutWalk(Snapshot(true), s, n))
        && Snapshot(true).Cost(n, OutWalk(Snapshot(true), s, n)) == n.dist
    {
      hide OutSide, InSide, SortedById, Snapshot, Shows, Indexed, Graph.WellFormed, Graph.Fair, InOrder;
      hide Search.Valid, Search.Latest, Search.Settled;
      if t == null {
        outcome, s, order := NoTarget, Search(map[], map[], [], {}, {}), [];
        return;
      }
      target := t;
      ghost var g := Snapshot(true);
      SnapshotIsWellFormed(true);
      s := StartSearch(g);
      var ok;
      ok, s, order := SearchAll(g, s);
      outcome := if ok then Done else BadWeight;
      if ok {
        FinishedIsFair(g, s);
        LabelsAreShortest(g, s);
      } else {
        ghost var last := order[|order| - 1];
        UnfairIsReached(g, s, last);
        assert last in nodes && last in g.nodes && !g.Fair(last);
      }
    }

    /** Until the work list is empty, or a node is popped that is not fair. */
    method SearchAll(ghost g: Graph<Node, Link>, ghost start: Search<Node, Link>)
      returns (ok: bool, ghost s: Search<Node, Link>, ghost order: seq<Node>)
      requires target != null && g == Snapshot(true) && g.WellFormed() && Valid() && g.nodes == Elements(nodes)
      requires start.Valid(g) && start.Settled(g) && Shows(start) && start.queue == [target] && start.popped == {}
      modifies nodes`dist, nodes`outPath
      ensures g == Snapshot(true) && s.Valid(g) && Shows(s) && InOrder(order, s)
      ensures ok ==> Finished(g, s)
      ensures !ok ==> order != [] && order[|order| - 1] in s.popped && order[|order| - 1] in nodes
      ensures !ok ==> !g.Fair(order[|order| - 1])
    {
      hide OutSide, InSide, SortedById, Snapshot, Shows, Indexed, Graph.WellFormed, Graph.Fair, InOrder;
      hide Search.Valid, Search.Latest, Search.Settled;
      ok, s, order := true, start, [];
      NothingInOrder(s);
      var q := [target];
      while q != []
        invariant g == Snapshot(true) && Valid() && g.nodes == Elements(nodes)
        invariant s.Valid(g) && s.Settled(g) && Shows(s) && q == s.queue
        invariant InOrder(order, s)
        decreases g.nodes - s.popped
      {
        ghost var before, head := s, q[0];
        ok, q, s := PopAndScan(q, g, s);
        PopInOrder(g, before, order, s);
        order := order + [head];
        if !ok {
          return;
        }
      }
    }

    method StartSearch(ghost g: Graph<Node, Link>) returns (ghost s: Search<Node, Link>)
      requires target != null && target in nodes && g.WellFormed() && g.target == target && g.nodes == Elements(nodes)
      modifies nodes`dist, nodes`outPath
      ensures s.Valid(g) && s.Settled(g) && Shows(s) && s.queue == [target] && s.popped == {}
    {
      hide Search.Valid;
      CleanPathInfos();
      target.dist := Fin(0.0);
      s := Start(g);
      StartIsValid(g);
      StartShows(g);
    }

    method CleanPathInfos()
      modifies nodes`dist, nodes`outPath
      ensures forall n | n in nodes :: n.dist == Infinity && n.outPath == null
    {
      for i := 0 to |nodes|
        invariant forall n | n in nodes[..i] :: n.dist == Infinity && n.outPath == null
      {
        nodes[i].dist := Infinity;
        nodes[i].outPath := null;
      }
      assert nodes[..|nodes|] == nodes;
    }

    /** One round of the breadth-first scan: one relaxation. */
    method Reach(v: Node, link: Link, q: seq<Node>, ghost g: Graph<Node, Link>, ghost s: Search<Node, Link>)
      returns (q': seq<Node>, ghost s': Search<Node, Link>)
      requires target != null && g == Snapshot(false) && OutSide() && InSide() && link in srcs && link in dests
      requires link.destNode == v && s.Valid(g) && s.Latest(v) && Level(s, v) && Shows(s) && q == s.queue
      modifies nodes`dist, nodes`outPath
      ensures link in g.links && g.dest[link] == v && IsRelaxation(g, s, link, s')
      ensures Level(s', v) && Shows(s') && q' == s'.queue
    {
      hide Distinct, Remove, Indexed, Improve, Graph.WellFormed, Search.Ordered, Search.Labelled, Search.Relaxed;
      q', s' := q, Skip(s, link);
      SnapshotFacts(false, link);
      SnapshotIsUnit();
      if !link.enabled {
        return;
      }
      var w := link.srcNode;
      if !w.enabled {
        return;
      }
      AppendIsInsertion(g, s, link);
      if w.dist == Infinity {
        q', s' := Append(v, w, link, q, g, s);
      }
    }

    /** Labels a node that is reached for the first time and puts it at the back of the queue. */
    method Append(v: Node, w: Node, link: Link, q: seq<Node>, ghost g: Graph<Node, Link>, ghost s: Search<Node, Link>)
      returns (q': seq<Node>, ghost s': Search<Node, Link>)
      requires s.Valid(g) && UnitCost(g) && Shows(s) && q == s.queue && v in nodes && w in nodes && w.dist == Infinity
      requires link in g.links && link in g.usable && g.source[link] == w && g.dest[link] == v
      requires s.Latest(v) && Level(s, v)
      modifies w`dist, w`outPath
      ensures ImprovedBy(g, s, link, s') && Level(s', v) && Shows(s') && q' == s'.queue
    {
      hide Distinct, Remove, Improve, Graph.WellFormed, UnitCost, Level;
      hide Search.Ordered, Search.Labelled, Search.Relaxed;
      AppendIsInsertion(g, s, link);
      AppendIsImprove(g, s, link);
      Relabel(w, link, Plus(v.dist, Fin(1.0)), s);
      q' := q + [w];
      s' := Improve(g, s, link, |s.queue|);
      ImproveLabels(g, s, link, |s.queue|);
    }

    lemma SnapshotIsUnit()
      requires target != null && Snapshot(false).WellFormed()
      ensures UnitCost(Snapshot(false))
    {
    }

    /** Every link costs something when it is read as 1. */
    lemma SnapshotIsFair(s: Search<Node, Link>)
      requires target != null && s.Valid(Snapshot(false))
      ensures Snapshot(false).WellFormed()
      ensures forall l | l in Snapshot(false).links :: Snapshot(false).Positive(l)
      ensures forall n | n in Snapshot(false).nodes :: Snapshot(false).Fair(n)
    {
      hide Search.Ordered, Search.Labelled, Search.Relaxed;
      SnapshotIsUnit();
      UnitIsFair(Snapshot(false));
    }

    method ScanUnweighted(v: Node, q: seq<Node>, ghost g: Graph<Node, Link>, ghost s: Search<Node, Link>)
      returns (q': seq<Node>, ghost s': Search<Node, Link>)
      requires target != null && g == Snapshot(false) && OutSide() && InSide() && srcs.Keys == dests.Keys
      requires v in nodes && s.Valid(g) && s.Latest(v) && Level(s, v) && Shows(s) && q == s.queue
      modifies nodes`dist, nodes`outPath
      ensures s'.Valid(g) && Level(s', v) && Shows(s') && q' == s'.queue && Kept(s, s')
      ensures s'.popped == s.popped && s'.relaxed == s.relaxed + Elements(v.inLinks)
    {
      hide Distinct, Indexed, Snapshot, Shows, Level, Search.Valid, Search.Latest, IsRelaxation, UnitCost;
      q', s' := q, s;
      InListed(v);
      SnapshotIsFair(s);
      KeptAtFirst(g, s);
      for i := 0 to |v.inLinks|
        invariant s'.Valid(g) && s'.Latest(v) && Level(s', v) && Shows(s') && q' == s'.queue
        invariant s'.popped == s.popped && s'.relaxed == s.relaxed + Elements(v.inLinks[..i]) && Kept(s, s')
      {
        assert Elements(v.inLinks[..i + 1]) == Elements(v.inLinks[..i]) + {v.inLinks[i]} by {
          assert v.inLinks[..i + 1] == v.inLinks[..i] + [v.inLinks[i]];
        }
        ghost var before := s';
        q', s' := Reach(v, v.inLinks[i], q', g, s');
        RelaxationKeepsValid(g, before, v.inLinks[i], s');
        KeptTwice(s, before, s');
      }
      assert v.inLinks[..|v.inLinks|] == v.inLinks;
    }

    method PopAndScanUnweighted(q: seq<Node>, ghost g: Graph<Node, Link>, ghost s: Search<Node, Link>)
      returns (q': seq<Node>, ghost s': Search<Node, Link>)
      requires target != null && g == Snapshot(false) && Valid() && g.nodes == Elements(nodes)
      requires s.Valid(g) && s.Settled(g) && Flat(s) && Shows(s) && q == s.queue && q != []
      modifies nodes`dist, nodes`outPath
      ensures s'.Valid(g) && s'.Settled(g) && Flat(s') && Shows(s') && q' == s'.queue
      ensures s'.popped == s.popped + {q[0]} && Kept(Pop(s), s')
    {
      hide OutSide, InSide, SortedById, Snapshot, Shows, Flat, Level;
      hide Search.Valid, Search.Latest, Search.Settled, UnitCost;
      var v := q[0];
      PopKeepsValid(g, s);
      FlatHeadIsLevel(g, s);
      ShowsSame(s, Pop(s));
      q', s' := ScanUnweighted(v, q[1..], g, Pop(s));
      LevelIsFlat(g, s', v);
      SnapshotIsFair(s);
      SettledAfterScan(false, g, s, s', v);
    }

    /** Breadth-first search towards a single target; a null target is an error. */
    method CalculateUnweightedSingleShortestPathsTo(t: Node?)
      returns (ok: bool, ghost s: Search<Node, Link>, ghost order: seq<Node>)
      requires Valid() && (t != null ==> t in nodes)
      modifies this`target, nodes`dist, nodes`outPath
      ensures ok == (t != null)
      ensures ok ==> target == t && Finished(Snapshot(false), s) && Shows(s)
      ensures ok ==> InOrder(order, s)
      ensures ok ==> forall n, w: seq<Link> | n in nodes && Snapshot(false).IsWalk(n, w) ::
        LessEq(n.dist, Fin(|w| as real))
      ensures ok ==> forall n | n in nodes && n.dist.Fin? ::
        && s.dist[n].Fin? && Snapshot(false).IsWalk(n, OutWalk(Snapshot(false), s, n))
        && n.dist == Fin(|OutWalk(Snapshot(false), s, n)| as real)
    {
      hide OutSide, InSide, SortedById, Snapshot, Shows, Indexed, Graph.WellFormed, Flat, InOrder;
      hide Search.Valid, Search.Latest, Search.Settled;
      ok := t != null;
      if !ok {
        s, order := Search(map[], map[], [], {}, {}), [];
        return;
      }
      target := t;
      ghost var g := Snapshot(false);
      SnapshotIsWellFormed(false);
      s := StartSearch(g);
      s, order := SearchAllUnweighted(g, s);
      LabelsAreFewest(g, s);
    }

    /** Until the work list is empty. */
    method SearchAllUnweighted(ghost g: Graph<Node, Link>, ghost start: Search<Node, Link>)
      returns (ghost s: Search<Node, Link>, ghost order: seq<Node>)
      requires target != null && g == Snapshot(false) && g.WellFormed() && g.target == target
      requires Valid() && g.nodes == Elements(nodes)
      requires start.Valid(g) && start.Settled(g) && Shows(start) && start.queue == [target] && start.popped == {}
      modifies nodes`dist, nodes`outPath
      ensures g == Snapshot(false) && Finished(g, s) && Shows(s) && InOrder(order, s)
    {
      hide OutSide, InSide, SortedById, Snapshot, Shows, Indexed, Graph.WellFormed, Flat, InOrder;
      hide Search.Valid, Search.Latest, Search.Settled;
      s, order := start, [];
      StartIsFlat(g, s);
      NothingInOrder(s);
      var q := [target];
      while q != []
        invariant g == Snapshot(false) && Valid() && g.nodes == Elements(nodes)
        invariant s.Valid(g) && s.Settled(g) && Flat(s) && Shows(s) && q == s.queue
        invariant InOrder(order, s)
        decreases g.nodes - s.popped
      {
        ghost var before, head := s, q[0];
        q, s := PopAndScanUnweighted(q, g, s);
        PopInOrder(g, before, order, s);
        order := order + [head];
      }
    }

    lemma LabelsAreFewest(g: Graph<Node, Link>, s: Search<Node, Link>)
      requires target != null && g == Snapshot(false) && Finished(g, s) && Shows(s) && g.nodes == Elements(nodes)
      ensures forall n, w: seq<Link> | n in nodes && g.IsWalk(n, w) :: LessEq(n.dist, Fin(|w| as real))
      ensures forall n | n in nodes && n.dist.Fin? ::
        s.dist[n].Fin? && g.IsWalk(n, OutWalk(g, s, n)) && n.dist == Fin(|OutWalk(g, s, n)| as real)
    {
      SnapshotIsUnit();
      hide Snapshot, Graph.WellFormed, Search.Ordered, Search.Labelled, Search.Relaxed, Search.Settled;
      LabelsAreShortest(g, s);
      forall n, w: seq<Link> | n in nodes && g.IsWalk(n, w)
        ensures LessEq(n.dist, Fin(|w| as real))
      {
        UnitCostIsLength(g, n, w);
      }
      forall n | n in nodes && n.dist.Fin?
        ensures s.dist[n].Fin? && g.IsWalk(n, OutWalk(g, s, n)) && n.dist == Fin(|OutWalk(g, s, n)| as real)
      {
        UnitCostIsLength(g, n, OutWalk(g, s, n));
      }
    }

    /** With every link weight 1 and every node weight 0 the two searches find the same distances. */
    lemma SearchesAgree(s: Search<Node, Link>, t: Search<Node, Link>)
      requires target != null && Finished(Snapshot(true), s) && Finished(Snapshot(false), t)
      requires (forall l | l in srcs :: l.weight == Fin(1.0)) && (forall n | n in outs :: n.weight == Fin(0.0))
      ensures s.dist == t.dist
    {
      UnitSnapshots();
      hide Snapshot, Finished;
      FinishedSearchesAgree(Snapshot(true), s, t);
    }

    lemma UnitSnapshots()
      requires target != null
      requires (forall l | l in srcs :: l.weight == Fin(1.0)) && (forall n | n in outs :: n.weight == Fin(0.0))
      ensures Snapshot(true) == Snapshot(false)
    {
    }
  }
}
