/** The links of a graph as a value: what each edit does to them, and what every edit keeps. */
module Wirings {
  import opened Sequences

  lemma AppendDistinct<T>(s: seq<T>, x: T)
    requires Distinct(s) && x !in s
    ensures Distinct(s + [x])
  {
  }

  /** `s` without the elements of `gone`. */
  function Minus<T(==)>(s: seq<T>, gone: set<T>): seq<T> {
    if s == [] then []
    else if s[0] in gone then Minus(s[1..], gone)
    else [s[0]] + Minus(s[1..], gone)
  }

  lemma {:induction false} MinusMember<T>(s: seq<T>, gone: set<T>, x: T)
    ensures x in Minus(s, gone) <==> x in s && x !in gone
  {
    if s != [] { MinusMember(s[1..], gone, x); }
  }

  lemma {:induction false} MinusNothing<T>(s: seq<T>, gone: set<T>)
    requires forall x <- s :: x !in gone
    ensures Minus(s, gone) == s
  {
    if s != [] { MinusNothing(s[1..], gone); }
  }

  lemma {:induction false} MinusAll<T>(s: seq<T>, gone: set<T>)
    requires forall x <- s :: x in gone
    ensures Minus(s, gone) == []
  {
    if s != [] { MinusAll(s[1..], gone); }
  }

  lemma {:induction false} MinusConcat<T>(s: seq<T>, t: seq<T>, gone: set<T>)
    ensures Minus(s + t, gone) == Minus(s, gone) + Minus(t, gone)
  {
    if s == [] {
      assert s + t == t;
    } else {
      assert (s + t)[1..] == s[1..] + t;
      MinusConcat(s[1..], t, gone);
    }
  }

  lemma {:induction false} MinusTwice<T>(s: seq<T>, a: set<T>, b: set<T>)
    ensures Minus(Minus(s, a), b) == Minus(s, a + b)
  {
    if s != [] { MinusTwice(s[1..], a, b); }
  }

  lemma {:induction false} MinusDistinct<T>(s: seq<T>, gone: set<T>)
    requires Distinct(s)
    ensures Distinct(Minus(s, gone))
  {
    if s != [] {
      assert Distinct(s[1..]) && s[0] !in s[1..];
      MinusDistinct(s[1..], gone);
      MinusMember(s[1..], gone, s[0]);
    }
  }

  lemma InsertIsDistinct<T>(s: seq<T>, k: nat, x: T)
    requires Distinct(s) && x !in s && k <= |s|
    ensures Distinct(s[..k] + [x] + s[k..])
  {
    var s' := s[..k] + [x] + s[k..];
    forall i, j | 0 <= i < j < |s'| ensures s'[i] != s'[j] {
      assert i != k ==> s'[i] == s[if i < k then i else i - 1];
      assert j != k ==> s'[j] == s[if j < k then j else j - 1];
    }
  }

  lemma EraseMiddle<T>(a: seq<T>, x: T, b: seq<T>)
    requires x !in a && x !in b
    ensures Minus(a + ([x] + b), {x}) == a + b
  {
    MinusConcat(a, [x] + b, {x});
    MinusNothing(a, {x});
    MinusNothing(b, {x});
    assert ([x] + b)[1..] == b;
  }

  lemma DistinctSplit<T>(s: seq<T>, i: nat)
    requires Distinct(s) && i < |s|
    ensures s[i] !in s[..i] && s[i] !in s[i + 1..]
  {
  }

  lemma EraseOnce<T>(s: seq<T>, i: nat)
    requires Distinct(s) && i < |s|
    ensures Minus(s, {s[i]}) == s[..i] + s[i + 1..]
  {
    hide Distinct, Minus;
    DistinctSplit(s, i);
    var a, x, b := s[..i], s[i], s[i + 1..];
    assert s == a + ([x] + b);
    EraseMiddle(a, x, b);
  }

  /** The incoming and outgoing links of each vertex, in order, and the two ends of each link. */
  datatype Wiring<V(==), L(==)> = Wiring(ins: map<V, seq<L>>, outs: map<V, seq<L>>, src: map<L, V>, dst: map<L, V>)

  /** `l` is in the outgoing list of its source and in the incoming list of its destination. */
  ghost predicate LinkListed<V, L>(w: Wiring<V, L>, l: L) {
    && l in w.src && w.src[l] in w.outs && l in w.outs[w.src[l]]
    && l in w.dst && w.dst[l] in w.ins && l in w.ins[w.dst[l]]
  }

  /** The lists of `v` hold, once each, only links that start or end there. */
  ghost predicate OwnLinks<V, L>(w: Wiring<V, L>, v: V)
    requires v in w.outs && v in w.ins
  {
    && Distinct(w.outs[v]) && Distinct(w.ins[v])
    && (forall l <- w.outs[v] :: l in w.src && w.src[l] == v)
    && (forall l <- w.ins[v] :: l in w.dst && w.dst[l] == v)
  }

  /** Every link is once in its source's outgoing list, once in its destination's incoming list, and nowhere else. */
  ghost predicate Coherent<V, L>(w: Wiring<V, L>) {
    && w.ins.Keys == w.outs.Keys && w.src.Keys == w.dst.Keys
    && (forall l <- w.src :: LinkListed(w, l))
    && (forall v <- w.outs :: OwnLinks(w, v))
  }

  ghost function AddVertex<V, L>(w: Wiring<V, L>, v: V): Wiring<V, L> {
    w.(ins := w.ins[v := []], outs := w.outs[v := []])
  }

  ghost function Detach<V, L>(w: Wiring<V, L>, gone: set<L>): Wiring<V, L> {
    Wiring(map v <- w.ins :: Minus(w.ins[v], gone), map v <- w.outs :: Minus(w.outs[v], gone),
           w.src - gone, w.dst - gone)
  }

  ghost function Attach<V, L>(w: Wiring<V, L>, l: L, src: V, dst: V): Wiring<V, L>
    requires src in w.outs && dst in w.ins
  {
    Wiring(w.ins[dst := w.ins[dst] + [l]], w.outs[src := w.outs[src] + [l]], w.src[l := src], w.dst[l := dst])
  }

  /** All links that start or end at `v`. */
  ghost function LinksAt<V, L>(w: Wiring<V, L>, v: V): set<L>
    requires v in w.ins && v in w.outs
  {
    (set l <- w.outs[v]) + (set l <- w.ins[v])
  }

  ghost function DeleteVertex<V, L>(w: Wiring<V, L>, v: V): Wiring<V, L>
    requires v in w.ins && v in w.outs
  {
    var d := Detach(w, LinksAt(w, v));
    d.(ins := d.ins - {v}, outs := d.outs - {v})
  }

  lemma CoherentLink<V, L>(w: Wiring<V, L>, l: L)
    requires Coherent(w) && l in w.src
    ensures LinkListed(w, l)
  {
  }

  lemma CoherentVertex<V, L>(w: Wiring<V, L>, v: V)
    requires Coherent(w) && v in w.outs
    ensures v in w.ins && OwnLinks(w, v)
  {
  }

  lemma AddVertexOwnLinks<V, L>(w: Wiring<V, L>, v: V, u: V)
    requires u == v || (u in w.outs && u in w.ins && OwnLinks(w, u))
    ensures OwnLinks(AddVertex(w, v), u)
  {
  }

  lemma AddVertexLinkListed<V, L>(w: Wiring<V, L>, v: V, l: L)
    requires LinkListed(w, l) && v !in w.ins && v !in w.outs
    ensures LinkListed(AddVertex(w, v), l)
  {
  }

  lemma AddVertexCoherent<V, L>(w: Wiring<V, L>, v: V)
    requires Coherent(w) && v !in w.ins
    ensures Coherent(AddVertex(w, v))
  {
    hide OwnLinks, LinkListed;
    forall u | u in AddVertex(w, v).outs ensures OwnLinks(AddVertex(w, v), u) {
      AddVertexOwnLinks(w, v, u);
    }
    forall l | l in w.src ensures LinkListed(AddVertex(w, v), l) {
      AddVertexLinkListed(w, v, l);
    }
  }

  lemma DetachAbsent<V, L>(w: Wiring<V, L>, l: L)
    requires Coherent(w) && l !in w.src
    ensures Detach(w, {l}) == w
  {
    hide Minus, OwnLinks, LinkListed;
    assert l !in w.dst;
    forall v | v in w.outs ensures Minus(w.outs[v], {l}) == w.outs[v] && Minus(w.ins[v], {l}) == w.ins[v] {
      CoherentVertex(w, v);
      UnknownLink(w, l, v);
      MinusNothing(w.outs[v], {l});
      MinusNothing(w.ins[v], {l});
    }
  }

  lemma UnknownLink<V, L>(w: Wiring<V, L>, l: L, v: V)
    requires v in w.outs && v in w.ins && OwnLinks(w, v) && l !in w.src && l !in w.dst
    ensures l !in w.outs[v] && l !in w.ins[v]
  {
  }

  lemma DetachRemoves<V, L>(w: Wiring<V, L>, l: L)
    requires Coherent(w)
    ensures l !in Detach(w, {l}).src && l !in Detach(w, {l}).dst
    ensures Detach(w, {l}).ins.Keys == w.ins.Keys && Detach(w, {l}).outs.Keys == w.outs.Keys
  {
  }

  lemma OthersLackLink<V, L>(w: Wiring<V, L>, l: L, v: V)
    requires Coherent(w) && l in w.src && l in w.dst && v in w.outs && v in w.ins
    ensures v != w.src[l] ==> Minus(w.outs[v], {l}) == w.outs[v]
    ensures v != w.dst[l] ==> Minus(w.ins[v], {l}) == w.ins[v]
  {
    hide Minus;
    CoherentVertex(w, v);
    if v != w.src[l] { MinusNothing(w.outs[v], {l}); }
    if v != w.dst[l] { MinusNothing(w.ins[v], {l}); }
  }

  /** Taking one link out changes the lists of its two ends only. */
  lemma DetachOne<V, L>(w: Wiring<V, L>, l: L)
    requires Coherent(w) && l in w.src
    ensures l in w.dst && w.src[l] in w.outs && w.dst[l] in w.ins
    ensures Detach(w, {l}).outs == w.outs[w.src[l] := Minus(w.outs[w.src[l]], {l})]
    ensures Detach(w, {l}).ins == w.ins[w.dst[l] := Minus(w.ins[w.dst[l]], {l})]
  {
    hide Minus, OwnLinks;
    CoherentLink(w, l);
    forall v <- w.outs
      ensures v != w.src[l] ==> Minus(w.outs[v], {l}) == w.outs[v]
      ensures v in w.ins && (v != w.dst[l] ==> Minus(w.ins[v], {l}) == w.ins[v])
    {
      CoherentVertex(w, v);
      OthersLackLink(w, l, v);
    }
  }

  lemma AttachLists<V, L>(w: Wiring<V, L>, l: L, src: V, dst: V)
    requires src in w.outs && dst in w.ins
    ensures Attach(w, l, src, dst).outs == w.outs[src := w.outs[src] + [l]]
    ensures Attach(w, l, src, dst).ins == w.ins[dst := w.ins[dst] + [l]]
    ensures Attach(w, l, src, dst).ins.Keys == w.ins.Keys
  {
  }

  lemma MinusEmpty<T>(gone: set<T>)
    ensures Minus<T>([], gone) == []
  {
  }

  lemma DetachOwnLinks<V, L>(w: Wiring<V, L>, gone: set<L>, v: V)
    requires v in w.outs && v in w.ins && OwnLinks(w, v)
    ensures OwnLinks(Detach(w, gone), v)
  {
    hide Distinct, Minus;
    MinusDistinct(w.outs[v], gone);
    MinusDistinct(w.ins[v], gone);
    forall l <- Minus(w.outs[v], gone) ensures l in w.outs[v] && l !in gone {
      MinusMember(w.outs[v], gone, l);
    }
    forall l <- Minus(w.ins[v], gone) ensures l in w.ins[v] && l !in gone {
      MinusMember(w.ins[v], gone, l);
    }
  }

  lemma DetachLinkListed<V, L>(w: Wiring<V, L>, gone: set<L>, l: L)
    requires LinkListed(w, l) && l !in gone
    ensures LinkListed(Detach(w, gone), l)
  {
    hide Minus;
    MinusMember(w.outs[w.src[l]], gone, l);
    MinusMember(w.ins[w.dst[l]], gone, l);
  }

  lemma DetachCoherent<V, L>(w: Wiring<V, L>, gone: set<L>)
    requires Coherent(w)
    ensures Coherent(Detach(w, gone))
  {
    hide OwnLinks, LinkListed, Minus;
    forall v | v in w.outs ensures OwnLinks(Detach(w, gone), v) {
      DetachOwnLinks(w, gone, v);
    }
    forall l | l in w.src && l !in gone ensures LinkListed(Detach(w, gone), l) {
      DetachLinkListed(w, gone, l);
    }
  }

  lemma AttachOwnLinks<V, L>(w: Wiring<V, L>, l: L, src: V, dst: V, v: V)
    requires Coherent(w) && l !in w.src && src in w.outs && dst in w.ins && v in w.outs
    ensures v in w.ins && OwnLinks(Attach(w, l, src, dst), v)
  {
    hide LinkListed, Distinct;
    CoherentVertex(w, v);
    AppendDistinct(w.outs[v], l);
    AppendDistinct(w.ins[v], l);
  }

  lemma AttachCoherent<V, L>(w: Wiring<V, L>, l: L, src: V, dst: V)
    requires Coherent(w) && l !in w.src && src in w.outs && dst in w.ins
    ensures Coherent(Attach(w, l, src, dst))
  {
    hide OwnLinks;
    var w' := Attach(w, l, src, dst);
    forall v | v in w'.outs ensures OwnLinks(w', v) {
      AttachOwnLinks(w, l, src, dst, v);
    }
    forall k | k in w'.src ensures LinkListed(w', k) {
      assert k == l || LinkListed(w, k);
    }
  }

  lemma RemovedLinkListed<V, L>(w: Wiring<V, L>, v: V, l: L)
    requires Coherent(w) && v in w.ins && l in DeleteVertex(w, v).src
    ensures LinkListed(DeleteVertex(w, v), l)
  {
    hide OwnLinks, Minus;
    CoherentLink(w, l);
    assert w.src[l] != v && w.dst[l] != v;
    DetachLinkListed(w, LinksAt(w, v), l);
  }

  lemma DeleteVertexCoherent<V, L>(w: Wiring<V, L>, v: V)
    requires Coherent(w) && v in w.ins
    ensures Coherent(DeleteVertex(w, v))
  {
    hide Distinct, Minus, LinkListed;
    var w' := DeleteVertex(w, v);
    forall u | u in w'.outs ensures OwnLinks(w', u) {
      CoherentVertex(w, u);
      DetachOwnLinks(w, LinksAt(w, v), u);
    }
    forall l | l in w'.src ensures LinkListed(w', l) {
      RemovedLinkListed(w, v, l);
    }
  }

  /** The same graph with every link turned round. */
  ghost function Flip<V, L>(w: Wiring<V, L>): Wiring<V, L> {
    Wiring(w.outs, w.ins, w.dst, w.src)
  }

  lemma FlipCoherent<V, L>(w: Wiring<V, L>)
    requires Coherent(w)
    ensures Coherent(Flip(w))
  {
    forall l | l in w.src ensures LinkListed(Flip(w), l) { CoherentLink(w, l); }
    forall v | v in w.outs ensures OwnLinks(Flip(w), v) { CoherentVertex(w, v); }
  }

  ghost function Elements<T>(s: seq<T>): set<T> {
    set x <- s
  }

  lemma {:induction false} MinusAgree<T>(s: seq<T>, a: set<T>, b: set<T>)
    requires forall x <- s :: x in a <==> x in b
    ensures Minus(s, a) == Minus(s, b)
  {
    if s != [] { MinusAgree(s[1..], a, b); }
  }

  /** When the first `i` of `links` are gone from all incoming lists, the next one is still in exactly one of them. */
  lemma NextInList<V, L>(w: Wiring<V, L>, links: seq<L>, i: nat)
    requires Coherent(w) && Distinct(links) && (forall l <- links :: l in w.dst) && i < |links|
    ensures var v, gone := w.dst[links[i]], Elements(links[..i]);
      v in w.ins && links[i] in Minus(w.ins[v], gone) && Distinct(Minus(w.ins[v], gone))
  {
    hide Minus;
    var v, gone := w.dst[links[i]], Elements(links[..i]);
    CoherentLink(w, links[i]);
    CoherentVertex(w, v);
    MinusMember(w.ins[v], gone, links[i]);
    MinusDistinct(w.ins[v], gone);
  }

  lemma NextGone<V, L>(w: Wiring<V, L>, links: seq<L>, i: nat, u: V)
    requires Coherent(w) && (forall l <- links :: l in w.dst) && i < |links| && u in w.ins
    ensures var gone, rest := Elements(links[..i]), Minus(w.ins[u], Elements(links[..i]));
      Minus(w.ins[u], Elements(links[..i + 1])) == if u == w.dst[links[i]] then Minus(rest, {links[i]}) else rest
  {
    hide Minus;
    var gone, l := Elements(links[..i]), links[i];
    assert links[..i + 1] == links[..i] + [l];
    assert Elements(links[..i + 1]) == gone + {l};
    MinusTwice(w.ins[u], gone, {l});
    if u != w.dst[l] {
      CoherentVertex(w, u);
      MinusAgree(w.ins[u], gone, gone + {l});
    }
  }

  /** For a vertex other than `v`, the links at `v` are those in the list of `v` on the other side. */
  lemma LinksAtSeenFrom<V, L>(w: Wiring<V, L>, v: V, u: V)
    requires Coherent(w) && v in w.outs && u in w.outs && u != v
    ensures v in w.ins && u in w.ins
    ensures Minus(w.ins[u], Elements(w.outs[v])) == Minus(w.ins[u], LinksAt(w, v))
    ensures Minus(w.outs[u], Elements(Minus(w.ins[v], Elements(w.outs[v])))) == Minus(w.outs[u], LinksAt(w, v))
  {
    hide Minus;
    CoherentVertex(w, u);
    CoherentVertex(w, v);
    MinusAgree(w.ins[u], Elements(w.outs[v]), LinksAt(w, v));
    var left := Minus(w.ins[v], Elements(w.outs[v]));
    forall l <- w.outs[u] ensures l in Elements(left) <==> l in LinksAt(w, v) {
      MinusMember(w.ins[v], Elements(w.outs[v]), l);
    }
    MinusAgree(w.outs[u], Elements(left), LinksAt(w, v));
  }

  /** Taking a link out and putting it back between the same vertices disturbs no other link. */
  lemma ReconnectKeepsOthers<V, L>(w: Wiring<V, L>, l: L, v: V)
    requires Coherent(w) && l in w.src && v in w.outs
    ensures w.src[l] in w.outs && l in w.dst && w.dst[l] in w.ins && v in w.ins
    ensures var r := Attach(Detach(w, {l}), l, w.src[l], w.dst[l]);
      && r.src == w.src && r.dst == w.dst
      && Minus(r.outs[v], {l}) == Minus(w.outs[v], {l}) && Minus(r.ins[v], {l}) == Minus(w.ins[v], {l})
  {
    hide Coherent, Minus, OwnLinks;
    CoherentLink(w, l);
    CoherentVertex(w, v);
    assert {l} + {l} == {l};
    MinusAll([l], {l});
    MinusTwice(w.outs[v], {l}, {l});
    MinusTwice(w.ins[v], {l}, {l});
    MinusConcat(Minus(w.outs[v], {l}), [l], {l});
    MinusConcat(Minus(w.ins[v], {l}), [l], {l});
  }

  // ----- Runs of edits -----

  datatype Edit<V, L> =
    | NewVertex(v: V)
    | Disconnect(l: L)
    | Connect(l: L, src: V, dst: V)
    | RemoveVertex(v: V)

  ghost predicate Allowed<V, L>(w: Wiring<V, L>, e: Edit<V, L>) {
    match e
    case NewVertex(v) => v !in w.ins && v !in w.outs
    case Disconnect(l) => l in w.src
    case Connect(l, src, dst) => src in w.outs && dst in w.ins
    case RemoveVertex(v) => v in w.ins && v in w.outs
  }

  ghost function Apply<V, L>(w: Wiring<V, L>, e: Edit<V, L>): Wiring<V, L>
    requires Allowed(w, e)
  {
    match e
    case NewVertex(v) => AddVertex(w, v)
    case Disconnect(l) => Detach(w, {l})
    case Connect(l, src, dst) => Attach(Detach(w, {l}), l, src, dst)
    case RemoveVertex(v) => DeleteVertex(w, v)
  }

  ghost predicate IsRun<V, L>(w: Wiring<V, L>, es: seq<Edit<V, L>>, w': Wiring<V, L>)
    decreases |es|
  {
    if es == [] then w == w'
    else Allowed(w, es[0]) && IsRun(Apply(w, es[0]), es[1..], w')
  }

  /** Any sequence of successful edits of a coherent graph leaves a coherent graph. */
  lemma {:induction false} RunCoherent<V, L>(w: Wiring<V, L>, es: seq<Edit<V, L>>, w': Wiring<V, L>)
    requires Coherent(w) && IsRun(w, es, w')
    ensures Coherent(w')
    decreases |es|
  {
    hide OwnLinks, LinkListed;
    if es != [] {
      match es[0] {
        case NewVertex(v) => AddVertexCoherent(w, v);
        case Disconnect(l) => DetachCoherent(w, {l});
        case Connect(l, src, dst) =>
          DetachCoherent(w, {l});
          AttachCoherent(Detach(w, {l}), l, src, dst);
        case RemoveVertex(v) => DeleteVertexCoherent(w, v);
      }
      RunCoherent(Apply(w, es[0]), es[1..], w');
    }
  }
}
