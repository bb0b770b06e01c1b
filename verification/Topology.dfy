/** The editable graph of Topology.cc and its two single-target shortest-path searches. */
module TopologyGraph {
  import opened Distances
  import SP = ShortestPaths
  import opened Sequences
  import opened Wirings

  class Node {
    const moduleId: Id
    var weight: Dist
    var enabled: bool
    var inLinks: seq<Link>
    var outLinks: seq<Link>
    var dist: Dist
    var outPath: Link?

    constructor (moduleId: Id)
      ensures this.moduleId == moduleId && weight == ZERO && enabled
      ensures inLinks == [] && outLinks == [] && dist == Inf && outPath == null
    {
      this.moduleId := moduleId;
      weight, enabled := ZERO, true;
      inLinks, outLinks := [], [];
      dist, outPath := Inf, null;
    }
  }

  class Link {
    var srcNode: Node?
    var srcGateId: int
    var destNode: Node?
    var destGateId: int
    var weight: Dist
    var enabled: bool

    constructor (weight: Dist)
      ensures srcNode == null && destNode == null && srcGateId == -1 && destGateId == -1
      ensures this.weight == weight && enabled
    {
      srcNode, destNode := null, null;
      srcGateId, destGateId := -1, -1;
      this.weight, enabled := weight, true;
    }
  }

  /** A C++ int. */
  type Id = i: int | -0x8000_0000 <= i < 0x8000_0000

  datatype Outcome = Done | Failed(message: string)

  class Topology {
    var nodes: seq<Node>
    var target: Node?
    ghost var wiring: Wiring<Node, Link>

    // ----- Editing the graph -----

    /** The order of `nodes`: by module id as an unsigned int, so that id -1 comes last. */
    static function Unsigned(moduleId: Id): nat {
      if moduleId < 0 then moduleId + 0x1_0000_0000 else moduleId
    }

    static ghost predicate SortedIds(ns: seq<Node>) {
      forall i, j :: 0 <= i < j < |ns| ==> Unsigned(ns[i].moduleId) <= Unsigned(ns[j].moduleId)
    }

    static ghost predicate InsWired(ns: seq<Node>, ins: map<Node, seq<Link>>)
      reads ns`inLinks
    {
      forall n <- ns :: n in ins && n.inLinks == ins[n]
    }

    static ghost predicate OutsWired(ns: seq<Node>, outs: map<Node, seq<Link>>)
      reads ns`outLinks
    {
      forall n <- ns :: n in outs && n.outLinks == outs[n]
    }

    /** The nodes' link lists are what `w` says. */
    static ghost predicate NodesWired(ns: seq<Node>, w: Wiring<Node, Link>)
      reads ns`inLinks, ns`outLinks
    {
      (forall n <- w.ins :: n in ns) && InsWired(ns, w.ins) && OutsWired(ns, w.outs)
    }

    /** The links' ends are what `w` says. */
    static ghost predicate LinksWired(w: Wiring<Node, Link>)
      reads w.src.Keys`srcNode, w.dst.Keys`destNode
    {
      && (forall l <- w.src :: l.srcNode == w.src[l])
      && (forall l <- w.dst :: l.destNode == w.dst[l])
    }

    /** `nodes` is ordered, and the fields of nodes and links hold a coherent graph. */
    ghost predicate Valid()
      reads this`nodes, this`wiring, nodes`inLinks, nodes`outLinks
      reads wiring.src.Keys`srcNode, wiring.dst.Keys`destNode
    {
      Distinct(nodes) && SortedIds(nodes) && NodesWired(nodes, wiring) && LinksWired(wiring) && Coherent(wiring)
    }

    lemma ValidParts()
      ensures Valid() <==>
        Distinct(nodes) && SortedIds(nodes) && NodesWired(nodes, wiring) && LinksWired(wiring) && Coherent(wiring)
    {
    }

    lemma ValidIsInLinked()
      requires Valid()
      ensures InLinked()
    {
      forall n <- nodes, l <- n.inLinks
        ensures l.destNode == n && l.srcNode != null && l.srcNode in nodes
      {
        assert l in wiring.ins[n];
      }
    }

    /** `std::lower_bound` on `nodes`: the first position whose module id is not less than `id`. */
    method LowerBound(id: Id) returns (k: nat)
      requires SortedIds(nodes)
      ensures k <= |nodes|
      ensures forall i :: 0 <= i < k ==> Unsigned(nodes[i].moduleId) < Unsigned(id)
      ensures forall i :: k <= i < |nodes| ==> Unsigned(id) <= Unsigned(nodes[i].moduleId)
    {
      k := 0;
      var len := |nodes|;
      while len > 0
        invariant 0 <= len && k + len <= |nodes|
        invariant forall i :: 0 <= i < k ==> Unsigned(nodes[i].moduleId) < Unsigned(id)
        invariant forall i :: k + len <= i < |nodes| ==> Unsigned(id) <= Unsigned(nodes[i].moduleId)
      {
        var half := len / 2;
        if Unsigned(nodes[k + half].moduleId) < Unsigned(id) {
          k, len := k + half + 1, len - half - 1;
        } else {
          len := half;
        }
      }
    }

    /** Binary search by module id: the first node of the list that has it, or null if there is none. */
    method GetNodeFor(id: Id) returns (n: Node?)
      requires SortedIds(nodes)
      ensures n == null <==> forall m <- nodes :: m.moduleId != id
      ensures n != null ==> n.moduleId == id
      ensures n != null ==>
        exists k :: 0 <= k < |nodes| && nodes[k] == n && forall i :: 0 <= i < k ==> nodes[i].moduleId != id
    {
      var k := LowerBound(id);
      if k == |nodes| || nodes[k].moduleId != id {
        n := null;
      } else {
        n := nodes[k];
      }
    }

    /** Where a node with this module id goes: id -1 at the end, any other before the first id not less. */
    method InsertionPoint(id: Id) returns (k: nat)
      requires SortedIds(nodes)
      ensures k <= |nodes|
      ensures id == -1 ==> k == |nodes|
      ensures forall i :: 0 <= i < k ==> Unsigned(nodes[i].moduleId) <= Unsigned(id)
      ensures forall i :: k <= i < |nodes| ==> Unsigned(id) <= Unsigned(nodes[i].moduleId)
    {
      if id == -1 {
        k := |nodes|;
      } else {
        k := LowerBound(id);
      }
    }

    /** Add an unconnected node; its index is returned. */
    method AddNode(node: Node) returns (k: nat)
      requires Valid() && node !in nodes && node.inLinks == [] && node.outLinks == []
      modifies this`nodes, this`wiring
      ensures Valid() && wiring == AddVertex(old(wiring), node)
      ensures k <= |old(nodes)| && nodes == old(nodes)[..k] + [node] + old(nodes)[k..]
      ensures node.moduleId == -1 ==> k == |old(nodes)|
    {
      hide Distinct, SortedIds, Coherent, NodesWired, LinksWired, AddVertex;
      k := InsertionPoint(node.moduleId);
      InsertKeepsOrder(nodes, k, node);
      InsertKeepsWired(nodes, wiring, k, node);
      AddVertexCoherent(wiring, node);
      nodes := nodes[..k] + [node] + nodes[k..];
      wiring := AddVertex(wiring, node);
    }

    static lemma InsertKeepsWired(ns: seq<Node>, w: Wiring<Node, Link>, k: nat, node: Node)
      requires NodesWired(ns, w) && node !in ns && k <= |ns| && node.inLinks == [] && node.outLinks == []
      ensures NodesWired(ns[..k] + [node] + ns[k..], AddVertex(w, node)) && node !in w.ins
      ensures LinksWired(w) ==> LinksWired(AddVertex(w, node))
    {
      assert forall n <- ns :: n in ns[..k] || n in ns[k..];
    }

    static lemma InsertKeepsOrder(ns: seq<Node>, k: nat, node: Node)
      requires SortedIds(ns) && Distinct(ns) && node !in ns && k <= |ns|
      requires forall i :: 0 <= i < k ==> Unsigned(ns[i].moduleId) <= Unsigned(node.moduleId)
      requires forall i :: k <= i < |ns| ==> Unsigned(node.moduleId) <= Unsigned(ns[i].moduleId)
      ensures SortedIds(ns[..k] + [node] + ns[k..]) && Distinct(ns[..k] + [node] + ns[k..])
    {
      var ns' := ns[..k] + [node] + ns[k..];
      InsertIsDistinct(ns, k, node);
      forall i, j | 0 <= i < j < |ns'| ensures Unsigned(ns'[i].moduleId) <= Unsigned(ns'[j].moduleId) {
        assert i != k ==> ns'[i] == ns[if i < k then i else i - 1];
        assert j != k ==> ns'[j] == ns[if j < k then j else j - 1];
      }
    }

    method Find(s: seq<Link>, l: Link) returns (i: nat)
      requires l in s
      ensures i < |s| && s[i] == l
    {
      i := 0;
      while i < |s| && s[i] != l
        invariant i <= |s| && forall j :: 0 <= j < i ==> s[j] != l
      {
        i := i + 1;
      }
    }

    method UnlinkFromSourceNode(link: Link, ghost outs: map<Node, seq<Link>>)
      returns (ghost outs': map<Node, seq<Link>>)
      requires OutsWired(nodes, outs) && link.srcNode != null && link.srcNode in nodes
      requires link.srcNode in outs && link in outs[link.srcNode] && Distinct(outs[link.srcNode])
      modifies link.srcNode`outLinks
      ensures outs' == outs[link.srcNode as Node := Minus(outs[link.srcNode], {link})] && OutsWired(nodes, outs')
    {
      hide Minus, Distinct;
      var n: Node := link.srcNode;
      var i := Find(n.outLinks, link);
      EraseOnce(n.outLinks, i);
      outs' := outs[n := Minus(outs[n], {link})];
      n.outLinks := n.outLinks[..i] + n.outLinks[i + 1..];
    }

    method UnlinkFromDestNode(link: Link, ghost ins: map<Node, seq<Link>>) returns (ghost ins': map<Node, seq<Link>>)
      requires InsWired(nodes, ins) && link.destNode != null && link.destNode in nodes
      requires link.destNode in ins && link in ins[link.destNode] && Distinct(ins[link.destNode])
      modifies link.destNode`inLinks
      ensures ins' == ins[link.destNode as Node := Minus(ins[link.destNode], {link})] && InsWired(nodes, ins')
    {
      hide Minus, Distinct;
      var n: Node := link.destNode;
      var i := Find(n.inLinks, link);
      EraseOnce(n.inLinks, i);
      ins' := ins[n := Minus(ins[n], {link})];
      n.inLinks := n.inLinks[..i] + n.inLinks[i + 1..];
    }

    lemma LinkIsListed(link: Link)
      requires Valid() && link in wiring.src
      ensures link.srcNode != null && link.srcNode in nodes && link.srcNode in wiring.outs
      ensures link in wiring.outs[link.srcNode] && Distinct(wiring.outs[link.srcNode])
      ensures link.destNode != null && link.destNode in nodes && link.destNode in wiring.ins
      ensures link in wiring.ins[link.destNode] && Distinct(wiring.ins[link.destNode])
      ensures link in wiring.dst && link.srcNode == wiring.src[link] && link.destNode == wiring.dst[link]
    {
      hide Distinct;
      CoherentLink(wiring, link);
      CoherentVertex(wiring, wiring.src[link]);
      CoherentVertex(wiring, wiring.dst[link]);
    }

    static lemma WiredParts(ns: seq<Node>, w: Wiring<Node, Link>)
      ensures NodesWired(ns, w) <==> (forall n <- w.ins :: n in ns) && InsWired(ns, w.ins) && OutsWired(ns, w.outs)
    {
    }

    static lemma DetachKeepsEnds(w: Wiring<Node, Link>, link: Link)
      requires LinksWired(w)
      ensures LinksWired(Detach(w, {link}))
    {
    }

    /** Take `link` out of both lists it is in. */
    method Unlink(link: Link)
      requires Valid() && link in wiring.src
      modifies this`wiring, nodes`inLinks, nodes`outLinks
      ensures Valid() && wiring == Detach(old(wiring), {link})
    {
      hide *;
      ghost var w := wiring;
      ValidParts();
      WiredParts(nodes, w);
      LinkIsListed(link);
      ghost var outs := UnlinkFromSourceNode(link, w.outs);
      ghost var ins := UnlinkFromDestNode(link, w.ins);
      DetachCoherent(w, {link});
      DetachOne(w, link);
      wiring := Detach(w, {link});
      WiredParts(nodes, wiring);
      DetachKeepsEnds(w, link);
      ValidParts();
    }

    /** Remove a link from the graph. */
    method DeleteLink(link: Link)
      requires Valid() && link in wiring.src
      modifies this`wiring, nodes`inLinks, nodes`outLinks
      ensures Valid() && wiring == Detach(old(wiring), {link})
    {
      hide *;
      Unlink(link);
    }

    /** Take `link` out of the graph if it is in it. */
    method UnlinkIfLinked(link: Link)
      requires Valid()
      requires link !in wiring.src ==> link.srcNode == null && link.destNode == null
      modifies this`wiring, nodes`inLinks, nodes`outLinks
      ensures Valid() && wiring == Detach(old(wiring), {link})
    {
      hide Distinct, SortedIds, NodesWired, Coherent;
      if link.srcNode != null {
        Unlink(link);
      } else {
        DetachAbsent(wiring, link);
      }
    }

    static lemma AttachKeepsEnds(w: Wiring<Node, Link>, link: Link, src: Node, dest: Node)
      requires LinksWired(w) && src in w.outs && dest in w.ins && link.srcNode == src && link.destNode == dest
      ensures LinksWired(Attach(w, link, src, dest))
    {
    }

    method PushOutgoing(link: Link, src: Node, ghost outs: map<Node, seq<Link>>)
      requires OutsWired(nodes, outs) && src in nodes && src in outs
      modifies src`outLinks
      ensures OutsWired(nodes, outs[src := outs[src] + [link]])
    {
      src.outLinks := src.outLinks + [link];
    }

    method PushIncoming(link: Link, dest: Node, ghost ins: map<Node, seq<Link>>)
      requires InsWired(nodes, ins) && dest in nodes && dest in ins
      modifies dest`inLinks
      ensures InsWired(nodes, ins[dest := ins[dest] + [link]])
    {
      dest.inLinks := dest.inLinks + [link];
    }

    /** Set the ends of a link, and forget gate ids that no longer apply. */
    method SetEnds(link: Link, src: Node, dest: Node)
      modifies link`srcNode, link`destNode, link`srcGateId, link`destGateId
      ensures link.srcNode == src && link.destNode == dest
      ensures link.srcGateId == (if old(link.srcNode) == src then old(link.srcGateId) else -1)
      ensures link.destGateId == (if old(link.destNode) == dest then old(link.destGateId) else -1)
    {
      if link.srcNode != src { link.srcGateId := -1; }
      if link.destNode != dest { link.destGateId := -1; }
      link.srcNode, link.destNode := src, dest;
    }

    /** Insert a link that is in no list. */
    method Insert(link: Link, src: Node, dest: Node)
      requires Valid() && src in nodes && dest in nodes && link !in wiring.src && link !in wiring.dst
      modifies this`wiring, src`outLinks, dest`inLinks, link`srcNode, link`destNode, link`srcGateId, link`destGateId
      ensures Valid() && src in old(wiring).outs && dest in old(wiring).ins
      ensures wiring == Attach(old(wiring), link, src, dest)
      ensures link.srcGateId == (if old(link.srcNode) == src then old(link.srcGateId) else -1)
      ensures link.destGateId == (if old(link.destNode) == dest then old(link.destGateId) else -1)
    {
      hide *;
      ghost var w := wiring;
      ValidParts();
      WiredParts(nodes, w);
      VerticesAreNodes(src);
      VerticesAreNodes(dest);
      AttachCoherent(w, link, src, dest);
      AttachLists(w, link, src, dest);
      SetEnds(link, src, dest);
      PushOutgoing(link, src, w.outs);
      PushIncoming(link, dest, w.ins);
      wiring := Attach(w, link, src, dest);
      WiredParts(nodes, wiring);
      AttachKeepsEnds(w, link, src, dest);
      ValidParts();
    }

    /** `lists` are those of `before`, without the links of `gone`. */
    static ghost predicate Thinned(before: map<Node, seq<Link>>, gone: set<Link>, lists: map<Node, seq<Link>>) {
      before.Keys == lists.Keys && forall n <- before :: lists[n] == Minus(before[n], gone)
    }

    /** The first loop of node deletion: take the outgoing links of `node` out of the incoming lists. */
    method UnlinkOutgoing(node: Node, ghost w: Wiring<Node, Link>) returns (ghost ins: map<Node, seq<Link>>)
      requires InsWired(nodes, w.ins) && LinksWired(w) && Coherent(w)
      requires node in nodes && (forall n <- w.ins :: n in nodes)
      requires node in w.outs && node.outLinks == w.outs[node]
      modifies nodes`inLinks
      ensures InsWired(nodes, ins) && Thinned(w.ins, Elements(w.outs[node]), ins)
    {
      hide Coherent, Minus, Distinct, InsWired, Thinned, Elements;
      OutgoingAreLinks(w, node);
      NothingThinned(w.ins, node.outLinks);
      ins := w.ins;
      for i := 0 to |node.outLinks|
        invariant InsWired(nodes, ins) && Thinned(w.ins, Elements(node.outLinks[..i]), ins)
      {
        var link := node.outLinks[i];
        NextInList(w, node.outLinks, i);
        NextThinned(w, node.outLinks, i, ins);
        ins := UnlinkFromDestNode(link, ins);
      }
      assert node.outLinks[..|node.outLinks|] == w.outs[node];
    }

    /** The second loop of node deletion: take the remaining incoming links of `node` out of the outgoing lists. */
    method UnlinkIncoming(node: Node, ghost w: Wiring<Node, Link>, ghost outs0: map<Node, seq<Link>>)
      returns (ghost outs: map<Node, seq<Link>>)
      requires LinksWired(w) && Coherent(w) && node in nodes && (forall n <- w.outs :: n in nodes)
      requires node in w.outs && node in w.ins && outs0 == w.outs[node := []] && OutsWired(nodes, outs0)
      requires node.inLinks == Minus(w.ins[node], Elements(w.outs[node]))
      modifies nodes`outLinks
      ensures OutsWired(nodes, outs) && Thinned(outs0, Elements(node.inLinks), outs)
    {
      hide Coherent, Minus, Distinct, OutsWired, Thinned, Elements;
      RemainingAreLinks(w, node);
      NothingThinned(outs0, node.inLinks);
      outs := outs0;
      for i := 0 to |node.inLinks|
        invariant OutsWired(nodes, outs) && Thinned(outs0, Elements(node.inLinks[..i]), outs)
      {
        var link := node.inLinks[i];
        NextOutgoing(w, node, node.inLinks, i, outs);
        outs := UnlinkFromSourceNode(link, outs);
      }
      assert node.inLinks[..|node.inLinks|] == node.inLinks;
    }

    static lemma NothingThinned(lists: map<Node, seq<Link>>, links: seq<Link>)
      ensures Thinned(lists, Elements(links[..0]), lists)
    {
      hide Minus;
      forall n <- lists ensures Minus(lists[n], Elements(links[..0])) == lists[n] {
        MinusNothing(lists[n], Elements(links[..0]));
      }
    }

    static lemma NextThinned(w: Wiring<Node, Link>, links: seq<Link>, i: nat, ins: map<Node, seq<Link>>)
      requires Coherent(w) && (forall l <- links :: l in w.dst) && i < |links|
      requires Thinned(w.ins, Elements(links[..i]), ins) && w.dst[links[i]] in w.ins
      ensures w.dst[links[i]] in ins
      ensures ins[w.dst[links[i]]] == Minus(w.ins[w.dst[links[i]]], Elements(links[..i]))
      ensures var v := w.dst[links[i]]; Thinned(w.ins, Elements(links[..i + 1]), ins[v := Minus(ins[v], {links[i]})])
    {
      hide Minus, Coherent, Elements;
      forall n <- w.ins
        ensures Minus(w.ins[n], Elements(links[..i + 1])) ==
                if n == w.dst[links[i]] then Minus(ins[n], {links[i]}) else ins[n]
      {
        NextGone(w, links, i, n);
      }
    }

    /** The same, for the outgoing lists, where the list of `node` itself is already empty. */
    static lemma NextOutgoing(w: Wiring<Node, Link>, node: Node, links: seq<Link>, i: nat, outs: map<Node, seq<Link>>)
      requires Coherent(w) && node in w.outs && i < |links| && Distinct(links)
      requires forall l <- links :: l in w.src && w.src[l] != node && w.src[l] in w.outs
      requires Thinned(w.outs[node := []], Elements(links[..i]), outs)
      ensures var l := links[i]; w.src[l] in outs && l in outs[w.src[l]] && Distinct(outs[w.src[l]])
      ensures var v := w.src[links[i]];
        Thinned(w.outs[node := []], Elements(links[..i + 1]), outs[v := Minus(outs[v], {links[i]})])
    {
      hide Minus, Coherent, Elements, Distinct;
      FlipCoherent(w);
      NextInList(Flip(w), links, i);
      forall n <- w.outs
        ensures n == node || Minus(w.outs[n], Elements(links[..i + 1])) ==
                (if n == w.src[links[i]] then Minus(outs[n], {links[i]}) else outs[n])
      {
        if n != node { NextGone(Flip(w), links, i, n); }
      }
      MinusEmpty(Elements(links[..i + 1]));
      MinusEmpty(Elements(links[..i]));
    }

    static lemma OutgoingAreLinks(w: Wiring<Node, Link>, node: Node)
      requires Coherent(w) && node in w.outs
      ensures Distinct(w.outs[node]) && forall l <- w.outs[node] :: l in w.dst && w.dst[l] in w.ins
    {
      CoherentVertex(w, node);
      forall l <- w.outs[node] ensures l in w.dst && w.dst[l] in w.ins { CoherentLink(w, l); }
    }

    static lemma RemainingAreLinks(w: Wiring<Node, Link>, node: Node)
      requires Coherent(w) && node in w.outs && node in w.ins
      ensures var left := Minus(w.ins[node], Elements(w.outs[node]));
        Distinct(left) && forall l <- left :: l in w.src && l in w.dst && w.src[l] != node && w.src[l] in w.outs
    {
      hide Minus;
      var left := Minus(w.ins[node], Elements(w.outs[node]));
      CoherentVertex(w, node);
      MinusDistinct(w.ins[node], Elements(w.outs[node]));
      forall l <- left ensures l in w.src && l in w.dst && w.src[l] != node && w.src[l] in w.outs {
        MinusMember(w.ins[node], Elements(w.outs[node]), l);
        CoherentLink(w, l);
      }
    }

    /** The thinned lists of the other nodes are those of the graph without `node`. */
    static lemma DeletionWired(ns: seq<Node>, w: Wiring<Node, Link>, node: Node,
                               ins: map<Node, seq<Link>>, outs: map<Node, seq<Link>>)
      requires Coherent(w) && node in w.ins && node in w.outs && node in ns && (forall n <- w.ins :: n in ns)
      requires forall n <- ns | n != node :: n in ins && n.inLinks == ins[n] && n in outs && n.outLinks == outs[n]
      requires Thinned(w.ins, Elements(w.outs[node]), ins)
      requires Thinned(w.outs[node := []], Elements(Minus(w.ins[node], Elements(w.outs[node]))), outs)
      ensures NodesWired(Minus(ns, {node}), DeleteVertex(w, node))
    {
      hide Minus, Coherent, Thinned, LinksAt, Elements;
      forall n: Node ensures n in Minus(ns, {node}) <==> n in ns && n != node { MinusMember(ns, {node}, n); }
      forall n <- ns | n != node
        ensures n in w.ins && n in w.outs
        ensures n.inLinks == Minus(w.ins[n], LinksAt(w, node)) && n.outLinks == Minus(w.outs[n], LinksAt(w, node))
      {
        ThinnedFor(w, node, ins, outs, n);
      }
      var w' := DeleteVertex(w, node);
      assert forall n <- w'.ins :: n in Minus(ns, {node});
      assert InsWired(Minus(ns, {node}), w'.ins);
      assert OutsWired(Minus(ns, {node}), w'.outs);
    }

    static lemma ThinnedFor(w: Wiring<Node, Link>, node: Node, ins: map<Node, seq<Link>>, outs: map<Node, seq<Link>>,
                            n: Node)
      requires Coherent(w) && node in w.ins && node in w.outs && n != node && n in ins && n in outs
      requires Thinned(w.ins, Elements(w.outs[node]), ins)
      requires Thinned(w.outs[node := []], Elements(Minus(w.ins[node], Elements(w.outs[node]))), outs)
      ensures n in w.ins && n in w.outs
      ensures ins[n] == Minus(w.ins[n], LinksAt(w, node)) && outs[n] == Minus(w.outs[n], LinksAt(w, node))
    {
      hide Minus, Coherent, LinksAt, Elements;
      LinksAtSeenFrom(w, node, n);
    }

    static lemma DeletionKeepsOrder(ns: seq<Node>, node: Node)
      requires Distinct(ns) && SortedIds(ns)
      ensures Distinct(Minus(ns, {node})) && SortedIds(Minus(ns, {node}))
    {
      MinusDistinct(ns, {node});
      MinusSorted(ns, {node});
    }

    static lemma {:induction false} MinusSorted(ns: seq<Node>, gone: set<Node>)
      requires SortedIds(ns)
      ensures SortedIds(Minus(ns, gone))
    {
      if ns != [] {
        assert SortedIds(ns[1..]);
        MinusSorted(ns[1..], gone);
        forall n <- Minus(ns[1..], gone) ensures Unsigned(ns[0].moduleId) <= Unsigned(n.moduleId) {
          MinusMember(ns[1..], gone, n);
        }
      }
    }

    static lemma DeletionKeepsEnds(w: Wiring<Node, Link>, node: Node)
      requires LinksWired(w) && node in w.ins && node in w.outs
      ensures LinksWired(DeleteVertex(w, node))
    {
    }

    /** Remove a node together with all its links. */
    method DeleteNode(node: Node)
      requires Valid() && node in nodes
      modifies this`nodes, this`wiring, nodes`inLinks, nodes`outLinks
      ensures Valid() && nodes == Minus(old(nodes), {node}) && node.inLinks == [] && node.outLinks == []
      ensures node in old(wiring).ins && node in old(wiring).outs && wiring == DeleteVertex(old(wiring), node)
    {
      hide *;
      ghost var w, ns := wiring, nodes;
      VerticesAreNodes(node);
      ValidParts();
      ghost var ins, outs := RemoveLinks(node, w);
      wiring := DeleteVertex(w, node);
      DeletionKeepsOrder(nodes, node);
      DeletionKeepsEnds(w, node);
      DeleteVertexCoherent(w, node);
      EraseNode(node);
      DeletionWired(ns, w, node, ins, outs);
      ValidParts();
    }

    /** Both loops of node deletion. */
    method RemoveLinks(node: Node, ghost w: Wiring<Node, Link>)
      returns (ghost ins: map<Node, seq<Link>>, ghost outs: map<Node, seq<Link>>)
      requires NodesWired(nodes, w) && LinksWired(w) && Coherent(w) && node in nodes && node in w.ins && node in w.outs
      modifies nodes`inLinks, nodes`outLinks
      ensures node.inLinks == [] && node.outLinks == [] && forall n <- w.ins :: n in nodes
      ensures forall n <- nodes | n != node :: n in ins && n.inLinks == ins[n] && n in outs && n.outLinks == outs[n]
      ensures Thinned(w.ins, Elements(w.outs[node]), ins)
      ensures Thinned(w.outs[node := []], Elements(Minus(w.ins[node], Elements(w.outs[node]))), outs)
    {
      hide Coherent, LinksWired, Minus, Elements, Thinned;
      CoherentKeys(w);
      ins := UnlinkOutgoing(node, w);
      ThinnedAt(w.ins, Elements(w.outs[node]), ins, node);
      node.outLinks := [];
      ghost var left := Elements(node.inLinks);
      outs := UnlinkIncoming(node, w, w.outs[node := []]);
      ThinnedAt(w.outs[node := []], left, outs, node);
      MinusEmpty(left);
      node.inLinks := [];
    }

    static lemma CoherentKeys(w: Wiring<Node, Link>)
      requires Coherent(w)
      ensures w.ins.Keys == w.outs.Keys
    {
    }

    static lemma ThinnedAt(before: map<Node, seq<Link>>, gone: set<Link>, lists: map<Node, seq<Link>>, n: Node)
      requires Thinned(before, gone, lists) && n in before
      ensures n in lists && lists[n] == Minus(before[n], gone)
    {
    }

    method EraseNode(node: Node)
      requires node in nodes && Distinct(nodes)
      modifies this`nodes
      ensures nodes == Minus(old(nodes), {node})
    {
      var i := 0;
      while i < |nodes| && nodes[i] != node
        invariant i <= |nodes| && forall j :: 0 <= j < i ==> nodes[j] != node
      {
        i := i + 1;
      }
      EraseOnce(nodes, i);
      nodes := nodes[..i] + nodes[i + 1..];
    }

    /** Join `src` to `dest` by `link`, first taking it out of the graph if it is in already. */
    method AddLink(link: Link, src: Node, dest: Node)
      requires Valid() && src in nodes && dest in nodes
      requires link !in wiring.src ==> link.srcNode == null && link.destNode == null
      modifies this`wiring, nodes`inLinks, nodes`outLinks, link`srcNode, link`destNode, link`srcGateId, link`destGateId
      ensures Valid() && src in old(wiring).outs && dest in old(wiring).ins
      ensures wiring == Attach(Detach(old(wiring), {link}), link, src, dest)
      ensures link.srcGateId == (if old(link.srcNode) == src then old(link.srcGateId) else -1)
      ensures link.destGateId == (if old(link.destNode) == dest then old(link.destGateId) else -1)
    {
      hide *;
      VerticesAreNodes(src);
      VerticesAreNodes(dest);
      DetachRemoves(wiring, link);
      UnlinkIfLinked(link);
      Insert(link, src, dest);
    }

    lemma VerticesAreNodes(n: Node)
      requires Valid() && n in nodes
      ensures n in wiring.ins && n in wiring.outs && Coherent(wiring)
    {
    }

    /** Every incoming link of a node ends there and starts at a node of the graph. */
    ghost predicate InLinked()
      reads this`nodes, nodes`inLinks
      reads set n <- nodes, l <- n.inLinks :: l
    {
      forall n <- nodes, l <- n.inLinks :: l.destNode == n && l.srcNode != null && l.srcNode in nodes
    }

    /** An enabled link from an enabled node: the searches skip all others. */
    ghost predicate Usable(l: Link)
      reads l`enabled, l`srcNode, (if l.srcNode == null then {} else {l.srcNode})`enabled
    {
      l.enabled && l.srcNode != null && l.srcNode.enabled
    }

    /** Link `l` into node `n`, as an arc that costs `weight`. */
    ghost function ArcOf(l: Link, n: Node, weight: Dist): SP.Arc<Node, Link>
      requires l.srcNode != null
      reads l`srcNode
    {
      SP.Arc(l, l.srcNode, n, weight)
    }

    /** What a link costs: its weight, or one when all links count the same (`unit`). */
    ghost function LinkCost(l: Link, unit: bool): Dist
      reads l`weight
    {
      if unit then ONE else l.weight
    }

    ghost function NodePrice(n: Node, unit: bool): Dist
      reads n`weight
    {
      if unit then ZERO else n.weight
    }

    /**
     The graph as a search sees it: the usable links as arcs. The weighted search sees weights
     and prices, the breadth-first search (`unit`) has every link at one and every node free.
    */
    ghost function Net(t: Node, unit: bool): SP.Network<Node, Link>
      requires InLinked()
      reads this`nodes, nodes`inLinks, nodes`weight, nodes`enabled
      reads set n <- nodes, l <- n.inLinks :: l
    {
      SP.Network(t, map n <- nodes :: NodePrice(n, unit),
                 set n <- nodes, l <- n.inLinks | Usable(l) :: ArcOf(l, n, LinkCost(l, unit)))
    }

    /** The nodes' `dist` and `outPath` fields hold what the abstract search holds. */
    ghost predicate Reflects(st: SP.Search<Node, Link>)
      reads this`nodes, nodes`dist, nodes`outPath
    {
      && (forall n <- nodes :: n in st.dist && n.dist == st.dist[n])
      && (forall n <- st.dist :: n in nodes)
      && (forall n <- nodes :: if n in st.out then n.outPath == st.out[n].link else n.outPath == null)
    }

    // ----- What the searches promise, over the fields of nodes and links -----

    /** A way from `n` to `t`: enabled links, each from an enabled node to where the next one starts. */
    ghost predicate IsWay(n: Node, t: Node, ls: seq<Link>)
      reads *
      decreases |ls|
    {
      if ls == [] then n == t
      else
        ls[0] in Links() && ls[0].enabled && n.enabled && ls[0].srcNode == n && ls[0].destNode != null
        && IsWay(ls[0].destNode, t, ls[1..])
    }

    /** The links that the nodes have coming in. */
    ghost function Links(): set<Link>
      reads this`nodes, nodes`inLinks
    {
      set n <- nodes, l <- n.inLinks :: l
    }

    /** How long a way is: the weights of its links and of the nodes between them, or the number of links. */
    ghost function Length(ls: seq<Link>, unit: bool): Dist
      reads *
      decreases |ls|
    {
      if unit then Fin(|ls| as real)
      else if ls == [] then ZERO
      else if |ls| == 1 || ls[0].destNode == null then ls[0].weight
      else Plus(Plus(ls[0].weight, ls[0].destNode.weight), Length(ls[1..], unit))
    }

    /** Following `outPath` from `n` goes along `ls`. */
    ghost predicate LeadsAlong(n: Node, ls: seq<Link>)
      reads *
      decreases |ls|
    {
      ls != [] ==> n.outPath == ls[0] && ls[0].destNode != null && LeadsAlong(ls[0].destNode, ls[1..])
    }

    /** A way that is as long as `dist` says, and that `outPath` leads along. */
    ghost predicate IsFound(n: Node, t: Node, ls: seq<Link>, unit: bool)
      reads *
    {
      IsWay(n, t, ls) && Length(ls, unit) == n.dist && LeadsAlong(n, ls)
    }

    /** A way is a path of the net, and as long. */
    lemma {:induction false} WayIsPath(t: Node, unit: bool, net: SP.Network<Node, Link>, n: Node, ls: seq<Link>)
      returns (p: seq<SP.Arc<Node, Link>>)
      requires Describes(net, unit) && SP.WellFormed(net) && net.target == t && t in nodes && IsWay(n, t, ls)
      requires unit ==> SP.Unit(net)
      ensures SP.IsPath(net, n, p) && |p| == |ls| && SP.Cost(net, n, p) == Length(ls, unit)
      decreases |ls|
    {
      if ls == [] {
        p := [];
      } else {
        var l := ls[0];
        var d: Node :| d in nodes && l in d.inLinks;
        var rest := WayIsPath(t, unit, net, d, ls[1..]);
        var a := ArcOf(l, d, LinkCost(l, unit));
        p := [a] + rest;
        assert p[1..] == rest && a in net.arcs;
      }
    }

    /** A path that follows what the search has recorded is a way, as long, and `outPath` leads along it. */
    lemma {:induction false} PathIsWay(t: Node, unit: bool, net: SP.Network<Node, Link>, st: SP.Search<Node, Link>,
                                       n: Node, p: seq<SP.Arc<Node, Link>>)
      returns (ls: seq<Link>)
      requires Describes(net, unit) && SP.WellFormed(net) && net.target == t && n in nodes && SP.IsPath(net, n, p)
      requires unit ==> SP.Unit(net)
      requires Reflects(st) && SP.Follows(t, st.out, n, p)
      ensures IsWay(n, t, ls) && |ls| == |p| && SP.Cost(net, n, p) == Length(ls, unit) && LeadsAlong(n, ls)
      decreases |p|
    {
      if p == [] {
        ls := [];
      } else {
        var a := p[0];
        var rest := PathIsWay(t, unit, net, st, a.dst, p[1..]);
        ls := [a.link] + rest;
        assert ls[1..] == rest;
      }
    }

    /**
     What a search leaves: each `dist` is the length of the shortest way, or infinite if there is none, and `outPath`
     leads along such a way.
    */
    lemma WaysFound(t: Node, unit: bool, net: SP.Network<Node, Link>, st: SP.Search<Node, Link>)
      requires Describes(net, unit) && SP.WellFormed(net) && net.target == t && t in nodes && Solved(net, st)
      requires (unit ==> SP.Unit(net)) && SP.Finished(net, st)
      ensures forall n <- nodes, ls: seq<Link> | IsWay(n, t, ls) :: AtMost(n.dist, Length(ls, unit))
      ensures forall n <- nodes | n.dist.Fin? :: exists ls: seq<Link> :: IsFound(n, t, ls, unit)
      ensures OnlyEnabled(t)
    {
      UnreachedHasNoWay(t, net, st);
      ReachedIsEnabled(t, unit, net, st);
      NoShorterWay(t, unit, net, st);
      ShortestIsFound(t, unit, net, st);
      hide SP.WellFormed, SP.Finished, Describes, Solved, IsWay, Length, IsFound;
    }

    lemma NoShorterWay(t: Node, unit: bool, net: SP.Network<Node, Link>, st: SP.Search<Node, Link>)
      requires Describes(net, unit) && SP.WellFormed(net) && net.target == t && t in nodes && Solved(net, st)
      requires unit ==> SP.Unit(net)
      ensures forall n <- nodes, ls: seq<Link> | IsWay(n, t, ls) :: AtMost(n.dist, Length(ls, unit))
    {
      hide SP.WellFormed, Describes, IsWay, Length, Reflects, SP.Follows, SP.NoCycle;
      forall n <- nodes, ls: seq<Link> | IsWay(n, t, ls) ensures AtMost(n.dist, Length(ls, unit)) {
        var p := WayIsPath(t, unit, net, n, ls);
        assert SP.IsShortest(net, n, n.dist);
      }
    }

    lemma ShortestIsFound(t: Node, unit: bool, net: SP.Network<Node, Link>, st: SP.Search<Node, Link>)
      requires Describes(net, unit) && SP.WellFormed(net) && net.target == t && t in nodes && Solved(net, st)
      requires unit ==> SP.Unit(net)
      ensures forall n <- nodes | n.dist.Fin? :: exists ls: seq<Link> :: IsFound(n, t, ls, unit)
    {
      hide SP.WellFormed, SP.IsShortest, Describes, IsWay, Length, LeadsAlong, Reflects;
      forall n <- nodes | n.dist.Fin? ensures exists ls: seq<Link> :: IsFound(n, t, ls, unit) {
        var ls := PathIsWay(t, unit, net, st, n, st.route[n]);
        assert IsFound(n, t, ls, unit);
      }
    }

    /** Only enabled nodes other than the target are reached from elsewhere, over enabled links of their own. */
    ghost predicate OnlyEnabled(t: Node)
      reads *
    {
      && (forall n <- nodes | n != t && !n.enabled :: n.dist == Inf)
      && (forall n <- nodes :: n.outPath == null <==> n == t || n.dist == Inf)
      && (forall n <- nodes | n.outPath != null :: n.enabled && n.outPath.enabled && n.outPath.srcNode == n)
    }

    lemma ReachedIsEnabled(t: Node, unit: bool, net: SP.Network<Node, Link>, st: SP.Search<Node, Link>)
      requires Describes(net, unit) && SP.WellFormed(net) && net.target == t && t in nodes && Solved(net, st)
      requires unit ==> SP.Unit(net)
      ensures forall n <- nodes | n.dist.Fin? && n != t ::
                n.enabled && n.outPath != null && n.outPath.enabled && n.outPath.srcNode == n
    {
      hide SP.WellFormed, Describes, IsWay, Length, LeadsAlong;
      forall n <- nodes | n.dist.Fin? && n != t
        ensures n.enabled && n.outPath != null && n.outPath.enabled && n.outPath.srcNode == n
      {
        var ls := PathIsWay(t, unit, net, st, n, st.route[n]);
        FoundIsEnabled(n, t, ls);
      }
    }

    lemma UnreachedHasNoWay(t: Node, net: SP.Network<Node, Link>, st: SP.Search<Node, Link>)
      requires SP.WellFormed(net) && net.target == t && t in nodes && Solved(net, st) && SP.Finished(net, st)
      ensures forall n <- nodes | n == t || n.dist == Inf :: n.outPath == null
    {
      hide SP.IsShortest, SP.Ordered, SP.IsPath, SP.Cost, SP.Follows, SP.NoCycle;
    }

    lemma FoundIsEnabled(n: Node, t: Node, ls: seq<Link>)
      requires IsWay(n, t, ls) && LeadsAlong(n, ls) && n != t
      ensures n.enabled && n.outPath != null && n.outPath.enabled && n.outPath.srcNode == n
    {
    }

    method Clear(t: Node)
      requires t in nodes
      modifies this`target, nodes`dist, nodes`outPath
      ensures target == t
      ensures forall n <- nodes :: n.dist == (if n == t then ZERO else Inf) && n.outPath == null
    {
      target := t;
      for i := 0 to |nodes|
        invariant target == t
        invariant forall j :: 0 <= j < i ==> nodes[j].dist == Inf && nodes[j].outPath == null
      {
        nodes[i].dist := Inf;
        nodes[i].outPath := null;
      }
      target.dist := ZERO;
    }

    /** A search of `net` is under way: the nodes and the list `q` hold the state `st`, with `relaxed` looked at. */
    ghost predicate Searching(net: SP.Network<Node, Link>, unit: bool, st: SP.Search<Node, Link>,
                              relaxed: set<SP.Arc<Node, Link>>, q: seq<Node>)
      reads this`nodes, nodes`inLinks, nodes`weight, nodes`enabled, nodes`dist, nodes`outPath
      reads set n <- nodes, l <- n.inLinks :: l
    {
      && Describes(net, unit) && Reflects(st) && q == st.queue && SP.Inv(net, st, relaxed)
      && (unit ==> SP.Unit(net) && (st.done == [] || SP.Narrow(st)))
    }

    /** `net` is this graph: its vertices with their prices, and its usable links as arcs. */
    ghost predicate Describes(net: SP.Network<Node, Link>, unit: bool)
      reads this`nodes, nodes`inLinks, nodes`weight, nodes`enabled
      reads set n <- nodes, l <- n.inLinks :: l
    {
      && (forall n <- net.price :: n in nodes)
      && (forall n <- nodes :: n in net.price && net.price[n] == NodePrice(n, unit))
      && InLinked() && HasArcs(net, unit)
      && (forall a <- net.arcs :: IsArc(a, unit))
    }

    ghost predicate HasArcs(net: SP.Network<Node, Link>, unit: bool)
      requires InLinked()
      reads this`nodes, nodes`inLinks, nodes`enabled
      reads set n <- nodes, l <- n.inLinks :: l
    {
      forall n <- nodes, l <- n.inLinks | Usable(l) :: ArcOf(l, n, LinkCost(l, unit)) in net.arcs
    }

    ghost predicate IsArc(a: SP.Arc<Node, Link>, unit: bool)
      requires InLinked()
      reads this`nodes, nodes`inLinks, nodes`enabled
      reads set n <- nodes, l <- n.inLinks :: l
    {
      a.dst in nodes && a.link in a.dst.inLinks && Usable(a.link)
      && a == ArcOf(a.link, a.dst, LinkCost(a.link, unit))
    }

    lemma NetDescribes(t: Node, unit: bool)
      requires InLinked()
      ensures Describes(Net(t, unit), unit) && Net(t, unit).target == t
    {
    }

    /** The first `i` incoming links of `dest` have been looked at, as far as they are usable. */
    ghost predicate Covered(dest: Node, i: nat, unit: bool, relaxed: set<SP.Arc<Node, Link>>)
      requires i <= |dest.inLinks|
      reads dest`inLinks, dest.inLinks, (set l <- dest.inLinks | l.srcNode != null :: l.srcNode)`enabled
    {
      forall l <- dest.inLinks[..i] | Usable(l) :: ArcOf(l, dest, LinkCost(l, unit)) in relaxed
    }

    lemma NoneCovered(dest: Node, unit: bool, relaxed: set<SP.Arc<Node, Link>>)
      ensures Covered(dest, 0, unit, relaxed)
    {
    }

    lemma NextCovered(dest: Node, i: nat, unit: bool, relaxed: set<SP.Arc<Node, Link>>,
                      relaxed': set<SP.Arc<Node, Link>>)
      requires i < |dest.inLinks| && Covered(dest, i, unit, relaxed) && relaxed <= relaxed'
      requires var l := dest.inLinks[i]; Usable(l) ==> ArcOf(l, dest, LinkCost(l, unit)) in relaxed'
      ensures Covered(dest, i + 1, unit, relaxed')
    {
      assert dest.inLinks[..i + 1] == dest.inLinks[..i] + [dest.inLinks[i]];
    }

    lemma LinkOfGraph(net: SP.Network<Node, Link>, dest: Node, i: nat, unit: bool)
      requires Describes(net, unit) && dest in nodes && i < |dest.inLinks|
      ensures var l := dest.inLinks[i];
        && l.srcNode != null && l.srcNode in nodes
        && (Usable(l) ==> ArcOf(l, dest, LinkCost(l, unit)) in net.arcs)
        && dest in net.price && net.price[dest] == NodePrice(dest, unit)
        && LinkCost(l, unit) == (if unit then ONE else l.weight)
        && NodePrice(dest, unit) == (if unit then ZERO else dest.weight)
    {
    }

    lemma AllCovered(net: SP.Network<Node, Link>, dest: Node, unit: bool, st: SP.Search<Node, Link>,
                     relaxed: set<SP.Arc<Node, Link>>, q: seq<Node>)
      requires dest in nodes && Searching(net, unit, st, relaxed, q)
      requires st.done != [] && st.done[|st.done| - 1] == dest
      requires SP.ArcsInto(net, st.done[..|st.done| - 1]) <= relaxed && Covered(dest, |dest.inLinks|, unit, relaxed)
      ensures Searching(net, unit, st, SP.ArcsInto(net, st.done), q)
    {
      hide SP.Inv, SP.ArcsInto, Reflects, Describes, Covered;
      forall a <- net.arcs | a.dst in st.done ensures a in relaxed {
        if a.dst == dest {
          ArcIsCovered(net, dest, unit, relaxed, a);
        } else {
          ArcIsEarlier(net, st, dest, relaxed, a);
        }
      }
      SP.ArcsIntoComplete(net, st, relaxed);
    }

    lemma ArcIsCovered(net: SP.Network<Node, Link>, dest: Node, unit: bool, relaxed: set<SP.Arc<Node, Link>>,
                       a: SP.Arc<Node, Link>)
      requires Describes(net, unit) && Covered(dest, |dest.inLinks|, unit, relaxed) && a in net.arcs && a.dst == dest
      ensures a in relaxed
    {
      assert dest.inLinks[..|dest.inLinks|] == dest.inLinks;
      assert a == ArcOf(a.link, dest, LinkCost(a.link, unit));
    }

    lemma ArcIsEarlier(net: SP.Network<Node, Link>, st: SP.Search<Node, Link>, dest: Node,
                       relaxed: set<SP.Arc<Node, Link>>, a: SP.Arc<Node, Link>)
      requires st.done != [] && st.done[|st.done| - 1] == dest && SP.ArcsInto(net, st.done[..|st.done| - 1]) <= relaxed
      requires a in net.arcs && a.dst in st.done && a.dst != dest
      ensures a in relaxed
    {
      assert a.dst in st.done[..|st.done| - 1];
    }

    lemma SearchStarts(t: Node, net: SP.Network<Node, Link>, unit: bool)
      requires net.target == t && Describes(net, unit) && SP.WellFormed(net) && (unit ==> SP.Unit(net))
      requires forall n <- nodes :: n.dist == (if n == t then ZERO else Inf) && n.outPath == null
      ensures var st := SP.Start(net); st.done == [] && Searching(net, unit, st, SP.ArcsInto(net, st.done), [t])
    {
      SP.StartInv(net);
    }

    lemma SearchPops(net: SP.Network<Node, Link>, unit: bool, st: SP.Search<Node, Link>, q: seq<Node>)
      returns (st': SP.Search<Node, Link>)
      requires Searching(net, unit, st, SP.ArcsInto(net, st.done), q) && q != []
      ensures st'.done == st.done + [q[0]] && st'.done[..|st'.done| - 1] == st.done
      ensures Searching(net, unit, st', SP.ArcsInto(net, st.done), q[1..])
      ensures q[0] in nodes && |st.done| < |net.price|
    {
      SP.PopInv(net, st, SP.ArcsInto(net, st.done));
      st' := SP.Pop(st);
      if unit {
        SP.UnitNarrow(net, st, SP.ArcsInto(net, st.done));
      }
    }

    /** What a finished search has left in the nodes: least costs, and links that lead along cheapest paths. */
    ghost predicate Solved(net: SP.Network<Node, Link>, st: SP.Search<Node, Link>)
      requires SP.WellFormed(net)
      reads this`nodes, nodes`dist, nodes`outPath
    {
      && Reflects(st)
      && (forall n <- nodes :: SP.IsShortest(net, n, n.dist))
      && (forall n <- nodes | n.dist.Fin? ::
            && n in st.route
            && SP.IsPath(net, n, st.route[n]) && SP.Cost(net, n, st.route[n]) == n.dist
            && SP.Follows(net.target, st.out, n, st.route[n]) && SP.NoCycle(net.target, st.route[n]))
    }

    lemma SearchEnds(net: SP.Network<Node, Link>, unit: bool, st: SP.Search<Node, Link>)
      requires Searching(net, unit, st, SP.ArcsInto(net, st.done), [])
      ensures SP.Finished(net, st) && Solved(net, st)
    {
      hide SP.IsShortest, SP.Follows, SP.NoCycle, SP.Ordered;
      forall n <- nodes ensures SP.IsShortest(net, n, n.dist) {
        SP.FinishedIsShortest(net, st, n);
      }
      forall n <- nodes | n.dist.Fin?
        ensures n in st.route && SP.Follows(net.target, st.out, n, st.route[n]) && SP.NoCycle(net.target, st.route[n])
        ensures SP.IsPath(net, n, st.route[n]) && SP.Cost(net, n, st.route[n]) == n.dist
      {
        SP.RouteFollowsOut(net, st, n);
      }
    }

    // ----- The weighted search (Dijkstra) -----

    /** The place where the ordered list takes a node at distance `d`: before the first one farther away. */
    method FindPlace(q: seq<Node>, d: Dist, ghost dist: map<Node, Dist>) returns (it: nat)
      requires forall n <- q :: n in dist && n.dist == dist[n]
      ensures it == SP.Position(dist, q, d)
    {
      it := 0;
      while it < |q| && !Less(d, q[it].dist)
        invariant it <= |q|
        invariant forall j :: 0 <= j < it ==> AtMost(dist[q[j]], d)
      {
        it := it + 1;
      }
    }

    /** Record a better distance for `src` over `link`, the arc `a`. */
    method Record(src: Node, newdist: Dist, link: Link, ghost st: SP.Search<Node, Link>, ghost a: SP.Arc<Node, Link>)
      requires Reflects(st) && src in nodes && a.link == link && a.src == src
      modifies src`dist, src`outPath
      ensures src.dist == newdist
      ensures Reflects(st.(dist := st.dist[src := newdist], out := st.out[src := a]))
    {
      src.dist := newdist;
      src.outPath := link;
    }

    /** A better distance for `src` over `link`: record it and move `src` to its place in the ordered list. */
    method Requeue(q: seq<Node>, src: Node, newdist: Dist, link: Link,
                   ghost st: SP.Search<Node, Link>, ghost a: SP.Arc<Node, Link>)
      returns (q': seq<Node>)
      requires Reflects(st) && src in nodes && a.link == link && a.src == src
      requires forall n <- q :: n in st.dist
      requires src in q ==> st.dist[src] != Inf
      modifies src`dist, src`outPath
      ensures Reflects(st.(dist := st.dist[src := newdist], out := st.out[src := a]))
      ensures var r := SP.Without(q, src); q' == SP.InsertAt(r, SP.Position(st.dist, r, newdist), src)
    {
      q' := q;
      if src.dist != Inf {
        q' := SP.Without(q', src);
      } else {
        SP.WithoutAbsent(q, src);
      }
      Record(src, newdist, link, st, a);
      var it := FindPlace(q', newdist, st.dist);
      q' := SP.InsertAt(q', it, src);
    }

    lemma StillSearching(net: SP.Network<Node, Link>, unit: bool, st: SP.Search<Node, Link>, st': SP.Search<Node, Link>,
                         relaxed: set<SP.Arc<Node, Link>>, q: seq<Node>)
      requires SP.Inv(net, st', relaxed) && q == st'.queue && Describes(net, unit)
      requires Reflects(st) && st'.dist == st.dist && st'.out == st.out
      requires unit ==> SP.Unit(net) && SP.Narrow(st')
      ensures Searching(net, unit, st', relaxed, q)
    {
      hide SP.Inv;
    }

    /** One round of the inner loop of the weighted search: look at the `i`th incoming link of `dest`. */
    method RelaxLink(t: Node, dest: Node, i: nat, q: seq<Node>,
                     ghost net: SP.Network<Node, Link>, ghost st: SP.Search<Node, Link>,
                     ghost relaxed: set<SP.Arc<Node, Link>>)
      returns (q': seq<Node>, ghost st': SP.Search<Node, Link>, ghost relaxed': set<SP.Arc<Node, Link>>)
      requires net.target == t && dest in nodes && i < |dest.inLinks|
      requires Searching(net, false, st, relaxed, q) && st.done != [] && st.done[|st.done| - 1] == dest
      requires Covered(dest, i, false, relaxed)
      modifies nodes`dist, nodes`outPath
      ensures Searching(net, false, st', relaxed', q') && st'.done == st.done
      ensures relaxed <= relaxed' && Covered(dest, i + 1, false, relaxed')
    {
      hide SP.Inv, Describes, Covered, Reflects, SP.Via;
      q', st', relaxed' := q, st, relaxed;
      var link := dest.inLinks[i];
      LinkOfGraph(net, dest, i, false);
      if link.enabled && link.srcNode.enabled {
        var src: Node, linkWeight := link.srcNode, link.weight;
        ghost var a := ArcOf(link, dest, linkWeight);
        var newdist := Plus(dest.dist, linkWeight);
        if dest != t {
          newdist := Plus(newdist, dest.weight);
        }
        st' := SP.RelaxInv(net, st, relaxed, a);
        ViaIs(net, st, a);
        relaxed' := relaxed + {a};
        NextCovered(dest, i, false, relaxed, relaxed');
        if newdist != Inf && Less(newdist, src.dist) {
          q' := Requeue(q, src, newdist, link, st, a);
          StillSearching(net, false, st.(dist := st.dist[src := newdist], out := st.out[src := a]), st', relaxed', q');
        }
      } else {
        NextCovered(dest, i, false, relaxed, relaxed');
      }
    }

    lemma ViaIs(net: SP.Network<Node, Link>, st: SP.Search<Node, Link>, a: SP.Arc<Node, Link>)
      requires Reflects(st) && a.src in nodes && a.dst in nodes && a.dst in net.price
      ensures a.dst in st.dist && a.src in st.dist && a.src.dist == st.dist[a.src] && a.dst.dist == st.dist[a.dst]
      ensures SP.Via(net, st.dist, a) ==
              if a.dst != net.target then Plus(Plus(a.dst.dist, a.weight), net.price[a.dst])
              else Plus(a.dst.dist, a.weight)
    {
    }

    /** The inner loop of the weighted search: all incoming links of `dest`, just taken from the queue. */
    method RelaxAll(t: Node, dest: Node, q: seq<Node>, ghost net: SP.Network<Node, Link>,
                    ghost st: SP.Search<Node, Link>)
      returns (q': seq<Node>, ghost st': SP.Search<Node, Link>)
      requires dest in nodes && net.target == t
      requires st.done != [] && st.done[|st.done| - 1] == dest
      requires Searching(net, false, st, SP.ArcsInto(net, st.done[..|st.done| - 1]), q)
      modifies nodes`dist, nodes`outPath
      ensures Searching(net, false, st', SP.ArcsInto(net, st.done), q') && st'.done == st.done
    {
      hide *;
      q', st' := q, st;
      ghost var before := SP.ArcsInto(net, st.done[..|st.done| - 1]);
      ghost var relaxed := before;
      NoneCovered(dest, false, relaxed);
      for i := 0 to |dest.inLinks|
        invariant Searching(net, false, st', relaxed, q') && st'.done == st.done && before <= relaxed
        invariant Covered(dest, i, false, relaxed)
      {
        q', st', relaxed := RelaxLink(t, dest, i, q', net, st', relaxed);
      }
      AllCovered(net, dest, false, st', relaxed, q');
    }

    /** The search proper, towards a node of the graph. */
    method SearchWeighted(t: Node, ghost net: SP.Network<Node, Link>) returns (ghost st: SP.Search<Node, Link>)
      requires t in nodes && net.target == t && Describes(net, false) && SP.WellFormed(net)
      modifies this`target, nodes`dist, nodes`outPath
      ensures target == t && SP.Finished(net, st) && Solved(net, st)
    {
      hide *;
      Clear(t);
      SearchStarts(t, net, false);
      st := SP.Start(net);
      var q := [t];
      while q != []
        invariant target == t && Searching(net, false, st, SP.ArcsInto(net, st.done), q)
        decreases |net.price| - |st.done|
      {
        var dest := q[0];
        st := SearchPops(net, false, st, q);
        q := q[1..];
        q, st := RelaxAll(t, dest, q, net, st);
      }
      SearchEnds(net, false, st);
    }

    /** Dijkstra's algorithm towards `t` (null is an error), on a list kept in order of distance. */
    method CalculateWeightedSingleShortestPathsTo(t: Node?) returns (r: Outcome, ghost st: SP.Search<Node, Link>)
      requires InLinked()
      requires t != null ==> t in nodes && SP.WellFormed(Net(t, false))
      modifies this`target, nodes`dist, nodes`outPath
      ensures t == null <==> r.Failed?
      ensures t == null ==> target == old(target)
      ensures t == null ==> forall n <- nodes :: n.dist == old(n.dist) && n.outPath == old(n.outPath)
      ensures t != null ==> target == t && SP.Finished(Net(t, false), st) && Solved(Net(t, false), st)
      ensures t != null ==> forall n <- nodes, ls: seq<Link> | IsWay(n, t, ls) :: AtMost(n.dist, Length(ls, false))
      ensures t != null ==> forall n <- nodes | n.dist.Fin? :: exists ls: seq<Link> :: IsFound(n, t, ls, false)
      ensures t != null ==> OnlyEnabled(t)
    {
      hide *;
      if t == null {
        st := SP.Search(map[], map[], [], [], map[]);
        return Failed("target node is NULL"), st;
      }
      ghost var net := Net(t, false);
      NetDescribes(t, false);
      st := SearchWeighted(t, net);
      WaysFound(t, false, net, st);
      r := Done;
    }

    // ----- The unweighted search (breadth-first) -----

    /** One round of the inner loop of the unweighted search. */
    method VisitLink(v: Node, i: nat, q: seq<Node>,
                     ghost net: SP.Network<Node, Link>, ghost st: SP.Search<Node, Link>,
                     ghost relaxed: set<SP.Arc<Node, Link>>)
      returns (q': seq<Node>, ghost st': SP.Search<Node, Link>, ghost relaxed': set<SP.Arc<Node, Link>>)
      requires v in nodes && i < |v.inLinks|
      requires Searching(net, true, st, relaxed, q) && st.done != [] && st.done[|st.done| - 1] == v
      requires Covered(v, i, true, relaxed)
      modifies nodes`dist, nodes`outPath
      ensures Searching(net, true, st', relaxed', q') && st'.done == st.done
      ensures relaxed <= relaxed' && Covered(v, i + 1, true, relaxed')
    {
      hide SP.Inv, SP.Narrow, SP.Unit, Describes, Covered, Reflects, SP.Via;
      q', st', relaxed' := q, st, relaxed;
      var link := v.inLinks[i];
      LinkOfGraph(net, v, i, true);
      if link.enabled && link.srcNode.enabled {
        var w: Node := link.srcNode;
        ghost var a := ArcOf(link, v, ONE);
        st' := SP.VisitInv(net, st, relaxed, a);
        ViaIs(net, st, a);
        relaxed' := relaxed + {a};
        NextCovered(v, i, true, relaxed, relaxed');
        if w.dist == Inf {
          ghost var d := Plus(v.dist, ONE);
          Record(w, Plus(v.dist, ONE), link, st, a);
          q' := q + [w];
          StillSearching(net, true, st.(dist := st.dist[w := d], out := st.out[w := a]), st', relaxed', q');
        }
      } else {
        NextCovered(v, i, true, relaxed, relaxed');
      }
    }

    method VisitAll(v: Node, q: seq<Node>, ghost net: SP.Network<Node, Link>, ghost st: SP.Search<Node, Link>)
      returns (q': seq<Node>, ghost st': SP.Search<Node, Link>)
      requires v in nodes
      requires st.done != [] && st.done[|st.done| - 1] == v
      requires Searching(net, true, st, SP.ArcsInto(net, st.done[..|st.done| - 1]), q)
      modifies nodes`dist, nodes`outPath
      ensures Searching(net, true, st', SP.ArcsInto(net, st.done), q') && st'.done == st.done
    {
      hide *;
      q', st' := q, st;
      ghost var before := SP.ArcsInto(net, st.done[..|st.done| - 1]);
      ghost var relaxed := before;
      NoneCovered(v, true, relaxed);
      for i := 0 to |v.inLinks|
        invariant Searching(net, true, st', relaxed, q') && st'.done == st.done && before <= relaxed
        invariant Covered(v, i, true, relaxed)
      {
        q', st', relaxed := VisitLink(v, i, q', net, st', relaxed);
      }
      AllCovered(net, v, true, st', relaxed, q');
    }

    method SearchUnweighted(t: Node, ghost net: SP.Network<Node, Link>) returns (ghost st: SP.Search<Node, Link>)
      requires t in nodes && net.target == t && Describes(net, true) && SP.WellFormed(net) && SP.Unit(net)
      modifies this`target, nodes`dist, nodes`outPath
      ensures target == t && SP.Finished(net, st) && Solved(net, st)
    {
      hide *;
      Clear(t);
      SearchStarts(t, net, true);
      st := SP.Start(net);
      var q := [t];
      while q != []
        invariant target == t && Searching(net, true, st, SP.ArcsInto(net, st.done), q)
        decreases |net.price| - |st.done|
      {
        var v := q[0];
        st := SearchPops(net, true, st, q);
        q := q[1..];
        q, st := VisitAll(v, q, net, st);
      }
      SearchEnds(net, true, st);
    }

    lemma UnitNetIsUnit(t: Node)
      requires InLinked() && t in nodes
      ensures SP.WellFormed(Net(t, true)) && SP.Unit(Net(t, true)) && Net(t, true).target == t
    {
    }

    /** Breadth-first search towards `t` (null is an error): least numbers of hops. */
    method CalculateUnweightedSingleShortestPathsTo(t: Node?) returns (r: Outcome, ghost st: SP.Search<Node, Link>)
      requires InLinked() && (t != null ==> t in nodes)
      modifies this`target, nodes`dist, nodes`outPath
      ensures t == null <==> r.Failed?
      ensures t == null ==> target == old(target)
      ensures t == null ==> forall n <- nodes :: n.dist == old(n.dist) && n.outPath == old(n.outPath)
      ensures t != null ==> target == t && SP.WellFormed(Net(t, true)) && SP.Unit(Net(t, true))
      ensures t != null ==> SP.Finished(Net(t, true), st) && Solved(Net(t, true), st)
      ensures t != null ==> forall n <- nodes, ls: seq<Link> | IsWay(n, t, ls) :: AtMost(n.dist, Length(ls, true))
      ensures t != null ==> forall n <- nodes | n.dist.Fin? :: exists ls: seq<Link> :: IsFound(n, t, ls, true)
      ensures t != null ==> OnlyEnabled(t)
    {
      hide *;
      if t == null {
        st := SP.Search(map[], map[], [], [], map[]);
        return Failed("target node is NULL"), st;
      }
      ghost var net := Net(t, true);
      NetDescribes(t, true);
      UnitNetIsUnit(t);
      st := SearchUnweighted(t, net);
      WaysFound(t, true, net, st);
      r := Done;
    }

    /** With all links at one and all nodes free, both searches compute the same distances. */
    lemma SearchesAgree(t: Node, weighted: SP.Search<Node, Link>, unweighted: SP.Search<Node, Link>)
      requires InLinked() && t in nodes
      requires forall n <- nodes :: n.weight == ZERO
      requires forall n <- nodes, l <- n.inLinks :: l.weight == ONE
      requires SP.Finished(Net(t, false), weighted) && SP.Finished(Net(t, true), unweighted)
      ensures weighted.dist == unweighted.dist
    {
      var net := Net(t, true);
      assert Net(t, false).arcs == net.arcs;
      assert Net(t, false) == net;
      hide SP.Finished, SP.IsShortest;
      forall n <- nodes ensures n in weighted.dist && n in unweighted.dist && weighted.dist[n] == unweighted.dist[n] {
        SP.FinishedIsShortest(net, weighted, n);
        SP.FinishedIsShortest(net, unweighted, n);
        SP.ShortestIsUnique(net, n, weighted.dist[n], unweighted.dist[n]);
      }
    }
  }
}
