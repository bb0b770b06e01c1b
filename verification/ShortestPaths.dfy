/** Distances as the C++ code has them in its doubles: exact reals plus INFINITY. */
module Distances {
  datatype Dist = Fin(r: real) | Inf

  function Plus(a: Dist, b: Dist): Dist {
    if a.Fin? && b.Fin? then Fin(a.r + b.r) else Inf
  }

  predicate Less(a: Dist, b: Dist) {
    a.Fin? && (b.Fin? ==> a.r < b.r)
  }

  predicate AtMost(a: Dist, b: Dist) {
    !Less(b, a)
  }

  const ZERO: Dist := Fin(0.0)
  const ONE: Dist := Fin(1.0)
}

/**
 The theory behind both shortest-path searches, over values: usable arcs, the cost of a
 path, what a shortest distance is, and one abstract search whose steps (take the front of
 the queue, relax one arc) are the steps of the two loops in Topology.
*/
module ShortestPaths {
  import opened Distances

  /** One usable link `link` from `src` to `dst`. */
  datatype Arc<V, L> = Arc(link: L, src: V, dst: V, weight: Dist)

  /** The usable arcs, the price of routing through a vertex, and the target. */
  datatype Network<V(==), L(==)> = Network(target: V, price: map<V, Dist>, arcs: set<Arc<V, L>>)

  ghost predicate WellFormed<V, L>(net: Network<V, L>) {
    && net.target in net.price
    && (forall v <- net.price :: AtMost(ZERO, net.price[v]))
    && (forall a <- net.arcs :: a.src in net.price && a.dst in net.price && Less(ZERO, a.weight))
  }

  /** `p` leads from `v` to the target over usable arcs. */
  ghost predicate IsPath<V, L>(net: Network<V, L>, v: V, older p: seq<Arc<V, L>>) {
    if p == [] then v == net.target
    else p[0] in net.arcs && p[0].src == v && IsPath(net, p[0].dst, p[1..])
  }

  /** The weights of all arcs, plus the prices of the intermediate vertices only. */
  ghost function Cost<V, L>(net: Network<V, L>, v: V, p: seq<Arc<V, L>>): Dist
    requires WellFormed(net) && IsPath(net, v, p)
  {
    if p == [] then ZERO
    else if |p| == 1 then p[0].weight
    else Plus(Plus(p[0].weight, net.price[p[0].dst]), Cost(net, p[0].dst, p[1..]))
  }

  /** `d` is the least cost of any path from `v`; infinite exactly if no path has a finite cost. */
  ghost predicate IsShortest<V, L>(net: Network<V, L>, v: V, d: Dist)
    requires WellFormed(net)
  {
    && (forall p: seq<Arc<V, L>> | IsPath(net, v, p) :: AtMost(d, Cost(net, v, p)))
    && (d.Fin? ==> exists p: seq<Arc<V, L>> | IsPath(net, v, p) :: Cost(net, v, p) == d)
  }

  // ----- The abstract search -----

  /**
   `dist` and `out` are what the nodes hold, `queue` the nodes still to be expanded, `done`
   those already taken from the queue, in order; `route[v]` is the path that following `out`
   from `v` gives.
  */
  datatype Search<V(==), L(==)> = Search(dist: map<V, Dist>, out: map<V, Arc<V, L>>,
                                         queue: seq<V>, done: seq<V>, route: map<V, seq<Arc<V, L>>>)

  ghost function Start<V, L>(net: Network<V, L>): Search<V, L> {
    Search(map v | v in net.price :: if v == net.target then ZERO else Inf,
           map[], [net.target], [], map[net.target := []])
  }

  /** The cost of reaching the target over `a` when `a.dst` is at distance `dist[a.dst]`. */
  ghost function Via<V, L>(net: Network<V, L>, dist: map<V, Dist>, a: Arc<V, L>): Dist
    requires a.dst in dist && a.dst in net.price
  {
    var d := Plus(dist[a.dst], a.weight);
    if a.dst != net.target then Plus(d, net.price[a.dst]) else d
  }

  ghost function Pop<V, L>(st: Search<V, L>): Search<V, L>
    requires st.queue != []
  {
    st.(queue := st.queue[1..], done := st.done + [st.queue[0]])
  }

  /** `q` without `v`. */
  function Without<V(==)>(q: seq<V>, v: V): (r: seq<V>)
    ensures forall x <- r :: x in q && x != v
    ensures forall x <- q :: x == v || x in r
  {
    if q == [] then []
    else if q[0] == v then Without(q[1..], v)
    else [q[0]] + Without(q[1..], v)
  }

  /** The first position of `q` whose distance exceeds `d`. */
  function Position<V(==)>(dist: map<V, Dist>, q: seq<V>, d: Dist): (i: nat)
    requires forall v <- q :: v in dist
    ensures i <= |q|
    ensures forall j :: 0 <= j < i ==> AtMost(dist[q[j]], d)
    ensures i < |q| ==> Less(d, dist[q[i]])
  {
    if q == [] || Less(d, dist[q[0]]) then 0 else 1 + Position(dist, q[1..], d)
  }

  function InsertAt<V>(q: seq<V>, i: nat, v: V): seq<V>
    requires i <= |q|
  {
    q[..i] + [v] + q[i..]
  }

  /** `a` gives `a.src` a better distance: lower it and move `a.src` to its place in the queue. */
  ghost function Improve<V, L>(net: Network<V, L>, st: Search<V, L>, a: Arc<V, L>): Search<V, L>
    requires a.dst in st.dist && a.dst in net.price && a.dst in st.route
    requires forall v <- st.queue :: v in st.dist
  {
    var d := Via(net, st.dist, a);
    var q := Without(st.queue, a.src);
    Search(st.dist[a.src := d], st.out[a.src := a],
           InsertAt(q, Position(st.dist, q, d), a.src), st.done,
           st.route[a.src := [a] + st.route[a.dst]])
  }

  // ----- What every step of the search keeps -----

  /** `s` lists different vertices in order of distance. */
  ghost predicate Ordered<V>(dist: map<V, Dist>, s: seq<V>) {
    && (forall v <- s :: v in dist)
    && forall i, j :: 0 <= i < j < |s| ==> s[i] != s[j] && AtMost(dist[s[i]], dist[s[j]])
  }

  ghost predicate AllBefore<V>(dist: map<V, Dist>, s: seq<V>, t: seq<V>)
    requires (forall v <- s :: v in dist) && (forall v <- t :: v in dist)
  {
    forall x <- s, y <- t :: x != y && AtMost(dist[x], dist[y])
  }

  lemma OrderedSplit<V>(dist: map<V, Dist>, s: seq<V>, t: seq<V>)
    requires Ordered(dist, s + t)
    ensures Ordered(dist, s) && Ordered(dist, t) && AllBefore(dist, s, t)
  {
    var st := s + t;
    assert forall i :: 0 <= i < |s| ==> st[i] == s[i];
    assert forall i :: 0 <= i < |t| ==> st[|s| + i] == t[i];
    forall v | v in s ensures v in dist { assert v in st; }
    forall v | v in t ensures v in dist { assert v in st; }
  }

  lemma OrderedJoin<V>(dist: map<V, Dist>, s: seq<V>, t: seq<V>)
    requires Ordered(dist, s) && Ordered(dist, t) && AllBefore(dist, s, t)
    ensures Ordered(dist, s + t)
  {
  }

  /** Exactly the vertices with a finite distance are waiting or done, each once, in order of distance. */
  ghost predicate Placed<V, L>(net: Network<V, L>, st: Search<V, L>) {
    && st.dist.Keys == net.price.Keys
    && Ordered(st.dist, st.done + st.queue)
    && forall v <- st.dist :: st.dist[v].Fin? <==> v in st.done + st.queue
  }

  /** `route[v]` follows `out` through done vertices down to the target, at cost `dist[v]`. */
  ghost predicate RoutedAt<V, L>(net: Network<V, L>, st: Search<V, L>, v: V)
    requires WellFormed(net) && v in st.dist
  {
    if v == net.target then v in st.route && st.route[v] == []
    else if st.dist[v].Fin? then
      && v in st.out && v in st.route
      && st.out[v] in net.arcs && st.out[v].src == v && st.out[v].dst in st.done
      && st.out[v].dst in st.route
      && st.route[v] == [st.out[v]] + st.route[st.out[v].dst]
      && IsPath(net, v, st.route[v]) && Cost(net, v, st.route[v]) == st.dist[v]
    else v !in st.out
  }

  ghost predicate Routed<V, L>(net: Network<V, L>, st: Search<V, L>)
    requires WellFormed(net) && st.dist.Keys == net.price.Keys
  {
    && st.dist[net.target] == ZERO
    && net.target !in st.out
    && forall v <- st.dist :: RoutedAt(net, st, v)
  }

  /** No arc of `relaxed` offers its source anything better. */
  ghost predicate Relaxed<V, L>(net: Network<V, L>, dist: map<V, Dist>, relaxed: set<Arc<V, L>>)
    requires WellFormed(net) && dist.Keys == net.price.Keys
  {
    && relaxed <= net.arcs
    && forall a <- relaxed :: AtMost(dist[a.src], Via(net, dist, a))
  }

  ghost predicate Inv<V, L>(net: Network<V, L>, st: Search<V, L>, relaxed: set<Arc<V, L>>) {
    && WellFormed(net) && Placed(net, st) && Routed(net, st) && Relaxed(net, st.dist, relaxed)
    && (forall a <- relaxed :: a.dst in st.done)
    && (net.target in st.done || (st.done == [] && st.queue == [net.target]))
  }

  ghost function ArcsInto<V, L>(net: Network<V, L>, vs: seq<V>): set<Arc<V, L>> {
    set a <- net.arcs | a.dst in vs
  }

  lemma StartInv<V, L>(net: Network<V, L>)
    requires WellFormed(net)
    ensures Inv(net, Start(net), ArcsInto(net, []))
  {
  }

  /** A popped vertex was never popped before, so there are at most as many rounds as vertices. */
  lemma FrontIsNew<V, L>(net: Network<V, L>, st: Search<V, L>)
    requires Placed(net, st) && st.queue != []
    ensures st.queue[0] in net.price && st.queue[0] !in st.done && |st.done| < |net.price|
  {
    OrderedSplit(st.dist, st.done, st.queue);
    assert st.queue[0] in st.queue;
    var s := st.done + [st.queue[0]];
    OrderedLength(st.dist, s, net.price.Keys);
  }

  lemma {:induction false} OrderedLength<V>(dist: map<V, Dist>, s: seq<V>, vs: set<V>)
    requires Ordered(dist, s) && forall v <- s :: v in vs
    ensures |s| <= |vs|
  {
    if s != [] {
      var k := |s| - 1;
      assert s == s[..k] + [s[k]];
      OrderedSplit(dist, s[..k], [s[k]]);
      OrderedLength(dist, s[..k], vs - {s[k]});
    }
  }

  lemma PopInv<V, L>(net: Network<V, L>, st: Search<V, L>, relaxed: set<Arc<V, L>>)
    requires Inv(net, st, relaxed) && st.queue != []
    ensures Inv(net, Pop(st), relaxed)
    ensures st.queue[0] in net.price && st.queue[0] !in st.done && |st.done| < |net.price|
  {
    hide Ordered, IsPath, Cost, Via;
    FrontIsNew(net, st);
    var st' := Pop(st);
    assert st'.done + st'.queue == st.done + st.queue;
    assert Placed(net, st') && Relaxed(net, st'.dist, relaxed);
    assert forall v <- st.done :: v in st'.done;
  }

  /** The source's own remark: a source that is improved and already has a distance is in the queue. */
  lemma ImprovedIsQueued<V, L>(net: Network<V, L>, st: Search<V, L>, relaxed: set<Arc<V, L>>, a: Arc<V, L>)
    requires Inv(net, st, relaxed) && a in net.arcs
    requires st.done != [] && a.dst == st.done[|st.done| - 1]
    requires Less(Via(net, st.dist, a), st.dist[a.src])
    ensures a.src !in st.done && a.src != net.target
    ensures st.dist[a.src].Fin? ==> a.src in st.queue
    ensures Less(st.dist[a.dst], Via(net, st.dist, a))
  {
    assert AtMost(ZERO, net.price[a.dst]);
    OrderedSplit(st.dist, st.done, st.queue);
    LastIsFarthest(net, st);
  }

  lemma LastIsFarthest<V, L>(net: Network<V, L>, st: Search<V, L>)
    requires Placed(net, st) && st.done != []
    ensures forall x <- st.done :: x in st.dist && AtMost(st.dist[x], st.dist[st.done[|st.done| - 1]])
  {
    OrderedSplit(st.dist, st.done, st.queue);
  }

  lemma {:induction false} WithoutOrdered<V>(dist: map<V, Dist>, q: seq<V>, v: V)
    requires Ordered(dist, q)
    ensures Ordered(dist, Without(q, v))
  {
    if q != [] {
      assert q == [q[0]] + q[1..];
      OrderedSplit(dist, [q[0]], q[1..]);
      WithoutOrdered(dist, q[1..], v);
      if q[0] != v {
        OrderedJoin(dist, [q[0]], Without(q[1..], v));
      }
    }
  }

  lemma {:induction false} PositionSplits<V>(dist: map<V, Dist>, q: seq<V>, d: Dist)
    requires Ordered(dist, q)
    ensures var i := Position(dist, q, d);
            && (forall x <- q[..i] :: x in dist && AtMost(dist[x], d))
            && (forall x <- q[i..] :: x in dist && AtMost(d, dist[x]))
  {
    var i := Position(dist, q, d);
    forall x <- q[i..] ensures x in dist && AtMost(d, dist[x]) {
      var j :| i <= j < |q| && q[j] == x;
      assert i == j || AtMost(dist[q[i]], dist[q[j]]);
    }
  }

  /** Changing the distance of a vertex that is not listed keeps a list in order. */
  lemma OrderedElsewhere<V>(dist: map<V, Dist>, s: seq<V>, v: V, d: Dist)
    requires Ordered(dist, s) && v !in s
    ensures Ordered(dist[v := d], s)
  {
  }

  lemma OrderedOne<V>(dist: map<V, Dist>, v: V)
    requires v in dist
    ensures Ordered(dist, [v])
  {
  }

  lemma InsertOrdered<V>(dist: map<V, Dist>, q: seq<V>, v: V, d: Dist)
    requires Ordered(dist, q) && v !in q && forall x <- q :: x in dist
    ensures var q' := InsertAt(q, Position(dist, q, d), v);
            Ordered(dist[v := d], q') && (forall x <- q' :: x == v || x in q)
              && (forall x <- q :: x in q') && v in q'
  {
    hide Ordered, Position;
    var i := Position(dist, q, d);
    var near, far, dist' := q[..i], q[i..], dist[v := d];
    assert q == near + far;
    PositionSplits(dist, q, d);
    OrderedElsewhere(dist, q, v, d);
    OrderedSplit(dist', near, far);
    OrderedOne(dist', v);
    OrderedJoin(dist', near, [v]);
    OrderedJoin(dist', near + [v], far);
  }

  lemma DoneHasRoute<V, L>(net: Network<V, L>, st: Search<V, L>, v: V)
    requires WellFormed(net) && Placed(net, st) && Routed(net, st) && v in st.done
    ensures v in st.dist && v in st.route
  {
    hide IsPath, Cost;
    assert v in st.done + st.queue;
  }

  lemma ImprovePlaced<V, L>(net: Network<V, L>, st: Search<V, L>, relaxed: set<Arc<V, L>>, a: Arc<V, L>)
    requires Inv(net, st, relaxed) && a in net.arcs
    requires st.done != [] && a.dst == st.done[|st.done| - 1]
    requires Less(Via(net, st.dist, a), st.dist[a.src])
    ensures Placed(net, Improve(net, st, a))
  {
    hide IsPath, Cost, Relaxed, RoutedAt, Ordered, Position, Without;
    ImprovedIsQueued(net, st, relaxed, a);
    LastIsFarthest(net, st);
    DoneHasRoute(net, st, a.dst);
    MoveOrdered(st.dist, st.done, st.queue, a.src, Via(net, st.dist, a));
  }

  /** Moving a vertex to its place behind the done ones keeps everything in order. */
  lemma MoveOrdered<V>(dist: map<V, Dist>, done: seq<V>, queue: seq<V>, v: V, d: Dist)
    requires Ordered(dist, done + queue) && v in dist && v !in done
    requires forall x <- done :: x in dist && AtMost(dist[x], d)
    ensures forall x <- queue :: x in dist
    ensures var q := Without(queue, v);
      var q' := InsertAt(q, Position(dist, q, d), v);
      Ordered(dist[v := d], done + q') && forall x :: x in done + q' <==> x == v || x in done + queue
  {
    hide Position;
    OrderedSplit(dist, done, queue);
    WithoutOrdered(dist, queue, v);
    var q := Without(queue, v);
    InsertOrdered(dist, q, v, d);
    OrderedElsewhere(dist, done, v, d);
    MoveBehind(dist, done, queue, q, InsertAt(q, Position(dist, q, d), v), v, d);
  }

  lemma MoveBehind<V>(dist: map<V, Dist>, done: seq<V>, queue: seq<V>, q: seq<V>, q': seq<V>, v: V, d: Dist)
    requires Ordered(dist[v := d], done) && Ordered(dist[v := d], q') && v in dist && v !in done
    requires (forall x <- done :: x in dist && AtMost(dist[x], d)) && forall x <- queue :: x in dist
    requires AllBefore(dist, done, queue)
    requires forall x <- q :: x in queue && x != v
    requires (forall x <- q' :: x == v || x in q) && (forall x <- q :: x in q') && v in q'
    requires forall x <- queue :: x == v || x in q
    ensures Ordered(dist[v := d], done + q')
    ensures forall x :: x in done + q' <==> x == v || x in done + queue
  {
    hide Ordered;
    OrderedJoin(dist[v := d], done, q');
  }

  lemma NewRoute<V, L>(net: Network<V, L>, st: Search<V, L>, relaxed: set<Arc<V, L>>, a: Arc<V, L>)
    requires Inv(net, st, relaxed) && a in net.arcs
    requires st.done != [] && a.dst == st.done[|st.done| - 1]
    requires Less(Via(net, st.dist, a), st.dist[a.src])
    ensures a.src in st.dist && a.dst in st.route && RoutedAt(net, Improve(net, st, a), a.src)
  {
    hide Ordered, Position, Without;
    ImprovedIsQueued(net, st, relaxed, a);
    assert a.dst in st.done + st.queue;
    RouteAt(net, st, a.dst);
    LongerPath(net, st.dist, a, st.route[a.dst]);
  }

  lemma RouteAt<V, L>(net: Network<V, L>, st: Search<V, L>, v: V)
    requires WellFormed(net) && v in st.dist && RoutedAt(net, st, v) && st.dist[v].Fin?
    requires v == net.target ==> st.dist[v] == ZERO
    ensures v in st.route && (v == net.target <==> st.route[v] == [])
    ensures IsPath(net, v, st.route[v]) && Cost(net, v, st.route[v]) == st.dist[v]
  {
  }

  /** A path with an arc in front of it costs as much as its vertex would come to have by that arc. */
  lemma LongerPath<V, L>(net: Network<V, L>, dist: map<V, Dist>, a: Arc<V, L>, p: seq<Arc<V, L>>)
    requires WellFormed(net) && a in net.arcs && IsPath(net, a.dst, p)
    requires a.dst in dist && dist[a.dst] == Cost(net, a.dst, p) && (a.dst == net.target <==> p == [])
    ensures IsPath(net, a.src, [a] + p) && Cost(net, a.src, [a] + p) == Via(net, dist, a)
  {
    assert ([a] + p)[1..] == p;
  }

  lemma ImproveRouted<V, L>(net: Network<V, L>, st: Search<V, L>, relaxed: set<Arc<V, L>>, a: Arc<V, L>)
    requires Inv(net, st, relaxed) && a in net.arcs
    requires st.done != [] && a.dst == st.done[|st.done| - 1]
    requires Less(Via(net, st.dist, a), st.dist[a.src])
    ensures Routed(net, Improve(net, st, a))
  {
    hide Ordered, Position, Without, IsPath, Cost, Via;
    ImprovedIsQueued(net, st, relaxed, a);
    NewRoute(net, st, relaxed, a);
  }

  lemma ImproveInv<V, L>(net: Network<V, L>, st: Search<V, L>, relaxed: set<Arc<V, L>>, a: Arc<V, L>)
    requires Inv(net, st, relaxed) && a in net.arcs
    requires st.done != [] && a.dst == st.done[|st.done| - 1]
    requires Less(Via(net, st.dist, a), st.dist[a.src])
    ensures Inv(net, Improve(net, st, a), relaxed + {a})
  {
    ImprovedIsQueued(net, st, relaxed, a);
    ImprovePlaced(net, st, relaxed, a);
    ImproveRouted(net, st, relaxed, a);
    hide Ordered, Routed, IsPath, Cost, Placed;
  }

  /** What one round of the inner loop does to the search, for the arc `a` into the vertex just popped. */
  lemma RelaxInv<V, L>(net: Network<V, L>, st: Search<V, L>, relaxed: set<Arc<V, L>>, a: Arc<V, L>)
    returns (st': Search<V, L>)
    requires Inv(net, st, relaxed) && a in net.arcs
    requires st.done != [] && a.dst == st.done[|st.done| - 1]
    ensures Inv(net, st', relaxed + {a}) && st'.done == st.done
    ensures a.src in st.dist && a.dst in st.dist && a.dst in net.price
    ensures forall v <- st.queue :: v in st.dist
    ensures a.src in st.queue ==> st.dist[a.src] != Inf
    ensures var d := Via(net, st.dist, a);
            if Less(d, st.dist[a.src]) then
              var q := Without(st.queue, a.src);
              && st'.dist == st.dist[a.src := d] && st'.out == st.out[a.src := a]
              && st'.queue == InsertAt(q, Position(st.dist, q, d), a.src)
            else st' == st
  {
    OrderedSplit(st.dist, st.done, st.queue);
    assert a.dst in st.done + st.queue;
    assert a.src in st.queue ==> a.src in st.done + st.queue;
    st' := st;
    if Less(Via(net, st.dist, a), st.dist[a.src]) {
      st' := Improve(net, st, a);
      ImproveInv(net, st, relaxed, a);
    }
  }

  // ----- What the finished search has found -----

  lemma ArcsIntoComplete<V, L>(net: Network<V, L>, st: Search<V, L>, relaxed: set<Arc<V, L>>)
    requires Inv(net, st, relaxed)
    requires forall a <- net.arcs :: a.dst in st.done ==> a in relaxed
    ensures relaxed == ArcsInto(net, st.done)
  {
  }

  /** The queue is empty and every arc into a done vertex is relaxed. */
  ghost predicate Finished<V, L>(net: Network<V, L>, st: Search<V, L>) {
    st.queue == [] && Inv(net, st, ArcsInto(net, st.done))
  }

  lemma {:induction false} LowerBound<V, L>(net: Network<V, L>, dist: map<V, Dist>, v: V, p: seq<Arc<V, L>>)
    requires WellFormed(net) && dist.Keys == net.price.Keys && dist[net.target] == ZERO
    requires Relaxed(net, dist, net.arcs)
    requires v in dist && IsPath(net, v, p)
    ensures AtMost(dist[v], Cost(net, v, p))
    decreases |p|
  {
    if p != [] {
      LowerBound(net, dist, p[0].dst, p[1..]);
      assert AtMost(dist[v], Via(net, dist, p[0]));
      assert AtMost(ZERO, net.price[p[0].dst]);
      assert |p| == 1 ==> p[0].dst == net.target;
    }
  }

  /** Optimality: every vertex holds the least cost of any path, infinite if there is none. */
  lemma FinishedIsShortest<V, L>(net: Network<V, L>, st: Search<V, L>, v: V)
    requires Finished(net, st) && v in st.dist
    ensures WellFormed(net) && IsShortest(net, v, st.dist[v])
  {
    assert forall x <- st.dist :: st.dist[x].Fin? ==> x in st.done + st.queue;
    assert Relaxed(net, st.dist, net.arcs) by {
      forall a | a in net.arcs ensures AtMost(st.dist[a.src], Via(net, st.dist, a)) {
      }
    }
    forall p: seq<Arc<V, L>> | IsPath(net, v, p) ensures AtMost(st.dist[v], Cost(net, v, p)) {
      LowerBound(net, st.dist, v, p);
    }
    if st.dist[v].Fin? {
      assert IsPath(net, v, st.route[v]) && Cost(net, v, st.route[v]) == st.dist[v];
    }
  }

  /** Starting at `v` and always taking the recorded link visits exactly the arcs `p`, then stops at the target. */
  ghost predicate Follows<V, L>(target: V, out: map<V, Arc<V, L>>, v: V, p: seq<Arc<V, L>>) {
    if p == [] then v == target && v !in out
    else v in out && p[0] == out[v] && p[0].src == v && Follows(target, out, p[0].dst, p[1..])
  }

  ghost predicate NoCycle<V, L>(target: V, p: seq<Arc<V, L>>) {
    && (forall i, j :: 0 <= i < j < |p| ==> p[i].src != p[j].src)
    && (forall i :: 0 <= i < |p| ==> p[i].src != target)
  }

  lemma {:induction false} RouteFollowsOut<V, L>(net: Network<V, L>, st: Search<V, L>, v: V)
    requires WellFormed(net) && Placed(net, st) && Routed(net, st)
    requires v in st.dist && st.dist[v].Fin?
    ensures v in st.route && Follows(net.target, st.out, v, st.route[v]) && NoCycle(net.target, st.route[v])
    ensures forall a <- st.route[v] :: a.src in st.dist && AtMost(st.dist[a.src], st.dist[v])
    decreases if v in st.route then |st.route[v]| else 0
  {
    if v != net.target {
      var a := st.out[v];
      assert st.route[v][1..] == st.route[a.dst];
      RouteStep(net, st, v);
      RouteFollowsOut(net, st, a.dst);
    }
  }

  lemma RouteStep<V, L>(net: Network<V, L>, st: Search<V, L>, v: V)
    requires WellFormed(net) && Placed(net, st) && Routed(net, st)
    requires v in st.dist && st.dist[v].Fin? && v != net.target
    ensures Less(st.dist[st.out[v].dst], st.dist[v])
  {
    var a := st.out[v];
    hide Ordered;
    var p := st.route[v];
    assert a.dst in st.done + st.queue;
    assert p[1..] == st.route[a.dst];
    assert AtMost(ZERO, net.price[a.dst]) && Less(ZERO, a.weight);
    assert a.dst in st.dist && st.dist[a.dst].Fin?;
    if a.dst == net.target {
      assert p == [a];
    } else {
      assert IsPath(net, a.dst, p[1..]) && Cost(net, a.dst, p[1..]) == st.dist[a.dst];
    }
  }

  lemma ShortestIsUnique<V, L>(net: Network<V, L>, v: V, d: Dist, e: Dist)
    requires WellFormed(net) && IsShortest(net, v, d) && IsShortest(net, v, e)
    ensures d == e
  {
  }

  // ----- Breadth-first search: the same search where every arc costs one -----

  ghost predicate Unit<V, L>(net: Network<V, L>) {
    && (forall v <- net.price :: net.price[v] == ZERO)
    && (forall a <- net.arcs :: a.weight == ONE)
  }

  /** All known distances are within one of the last done vertex. */
  ghost predicate Narrow<V, L>(st: Search<V, L>) {
    st.done != [] && st.done[|st.done| - 1] in st.dist &&
    forall v <- st.dist :: st.dist[v].Fin? ==> AtMost(st.dist[v], Plus(st.dist[st.done[|st.done| - 1]], ONE))
  }

  lemma UnitImprove<V, L>(net: Network<V, L>, st: Search<V, L>, a: Arc<V, L>)
    requires WellFormed(net) && Unit(net) && Placed(net, st) && a in net.arcs && Narrow(st)
    requires a.dst == st.done[|st.done| - 1] && a.dst in st.route
    ensures Via(net, st.dist, a) == Plus(st.dist[a.dst], ONE)
    ensures Less(Via(net, st.dist, a), st.dist[a.src]) <==> st.dist[a.src] == Inf
    ensures st.dist[a.src] == Inf ==> Improve(net, st, a).queue == st.queue + [a.src]
  {
    hide Ordered;
    assert a.dst in st.done + st.queue;
    assert Via(net, st.dist, a) == Plus(st.dist[a.dst], ONE);
    assert forall x <- st.queue :: x in st.done + st.queue;
    if st.dist[a.src] == Inf {
      UnitAppends(net, st, a, Plus(st.dist[a.dst], ONE));
    }
  }

  lemma UnitAppends<V, L>(net: Network<V, L>, st: Search<V, L>, a: Arc<V, L>, d: Dist)
    requires Placed(net, st) && a.src in st.dist && st.dist[a.src] == Inf
    requires forall v <- st.dist :: st.dist[v].Fin? ==> AtMost(st.dist[v], d)
    ensures forall v <- st.queue :: v in st.dist
    ensures var q := Without(st.queue, a.src);
            q == st.queue && InsertAt(q, Position(st.dist, q, d), a.src) == st.queue + [a.src]
  {
    assert forall x <- st.queue :: x in st.done + st.queue;
    assert a.src !in st.queue;
    WithoutAbsent(st.queue, a.src);
    var i := Position(st.dist, st.queue, d);
    assert i < |st.queue| ==> st.queue[i] in st.queue;
  }

  lemma {:induction false} WithoutAbsent<V>(q: seq<V>, v: V)
    requires v !in q
    ensures Without(q, v) == q
  {
    if q != [] { WithoutAbsent(q[1..], v); }
  }

  lemma UnitNarrow<V, L>(net: Network<V, L>, st: Search<V, L>, relaxed: set<Arc<V, L>>)
    requires Unit(net) && Inv(net, st, relaxed) && st.queue != []
    requires st.done == [] || Narrow(st)
    ensures Narrow(Pop(st))
  {
    OrderedSplit(st.dist, st.done, st.queue);
    if st.done != [] {
      assert st.done[|st.done| - 1] in st.done && st.queue[0] in st.queue;
      assert AtMost(st.dist[st.done[|st.done| - 1]], st.dist[st.queue[0]]);
      assert st.queue[0] in st.done + st.queue;
    }
  }

  /** With unit arcs a path costs its number of arcs. */
  lemma {:induction false} UnitCost<V, L>(net: Network<V, L>, v: V, p: seq<Arc<V, L>>)
    requires WellFormed(net) && Unit(net) && IsPath(net, v, p)
    ensures Cost(net, v, p) == Fin(|p| as real)
    decreases |p|
  {
    if |p| > 1 { UnitCost(net, p[0].dst, p[1..]); }
  }

  /** A shortest distance over unit arcs is the least number of hops. */
  lemma UnitShortestIsHopCount<V, L>(net: Network<V, L>, v: V, d: Dist)
    requires WellFormed(net) && Unit(net) && IsShortest(net, v, d)
    ensures forall p: seq<Arc<V, L>> | IsPath(net, v, p) :: d.Fin? && d.r <= |p| as real
    ensures d.Fin? ==> exists p: seq<Arc<V, L>> | IsPath(net, v, p) :: d.r == |p| as real
  {
    forall p: seq<Arc<V, L>> | IsPath(net, v, p) ensures Cost(net, v, p) == Fin(|p| as real) {
      UnitCost(net, v, p);
    }
  }

  /** One round of the breadth-first inner loop is one round of the weighted one on the unit network. */
  lemma VisitInv<V, L>(net: Network<V, L>, st: Search<V, L>, relaxed: set<Arc<V, L>>, a: Arc<V, L>)
    returns (st': Search<V, L>)
    requires Inv(net, st, relaxed) && a in net.arcs && Unit(net) && Narrow(st)
    requires a.dst == st.done[|st.done| - 1]
    ensures Inv(net, st', relaxed + {a}) && st'.done == st.done && Narrow(st')
    ensures a.src in st.dist && a.dst in st.dist
    ensures if st.dist[a.src] == Inf then
              && st'.dist == st.dist[a.src := Plus(st.dist[a.dst], ONE)] && st'.out == st.out[a.src := a]
              && st'.queue == st.queue + [a.src]
            else st' == st
  {
    ImprovableIsUnreached(net, st, relaxed, a);
    hide *;
    var d := Via(net, st.dist, a);
    st' := RelaxInv(net, st, relaxed, a);
    StillNarrow(st, st', a);
  }

  lemma StillNarrow<V, L>(st: Search<V, L>, st': Search<V, L>, a: Arc<V, L>)
    requires Narrow(st) && a.dst == st.done[|st.done| - 1] && a.src in st.dist && st'.done == st.done
    requires st.dist[a.dst].Fin?
    requires st'.dist == if st.dist[a.src] == Inf then st.dist[a.src := Plus(st.dist[a.dst], ONE)] else st.dist
    ensures Narrow(st')
  {
  }

  lemma ImprovableIsUnreached<V, L>(net: Network<V, L>, st: Search<V, L>, relaxed: set<Arc<V, L>>, a: Arc<V, L>)
    requires Inv(net, st, relaxed) && a in net.arcs && Unit(net) && Narrow(st)
    requires a.dst == st.done[|st.done| - 1]
    ensures a.src in st.dist && a.dst in st.dist && st.dist[a.dst].Fin? && a.dst in net.price
    ensures forall v <- st.queue :: v in st.dist
    ensures var d := Via(net, st.dist, a);
            && d == Plus(st.dist[a.dst], ONE) && (Less(d, st.dist[a.src]) <==> st.dist[a.src] == Inf)
            && (st.dist[a.src] == Inf ==>
                  var q := Without(st.queue, a.src); InsertAt(q, Position(st.dist, q, d), a.src) == st.queue + [a.src])
  {
    hide IsPath, Cost;
    OrderedSplit(st.dist, st.done, st.queue);
    assert a.dst in st.done + st.queue;
    UnitImprove(net, st, a);
  }
}
