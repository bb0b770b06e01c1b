/** What a staged operation over a tree of modules does, seen as a log of events. */
module LifecycleEvents {
  import opened Options
  import opened Sequences

  /** A module; only those that take part in operations are subjects. */
  datatype Module = Module(id: nat, subject: bool, children: seq<Module>)

  /** The participating modules, each before those inside it. */
  function Preorder(m: Module): seq<nat> {
    (if m.subject then [m.id] else []) + PreorderAll(m.children)
  }

  function PreorderAll(ms: seq<Module>): seq<nat> {
    if ms == [] then [] else PreorderAll(ms[..|ms| - 1]) + Preorder(ms[|ms| - 1])
  }

  // ----- Preorder by paths -----

  /** The module that a path of child numbers leads to. */
  function Lookup(m: Module, path: seq<nat>): Option<Module>
    decreases |path|
  {
    if path == [] then Some(m)
    else if path[0] >= |m.children| then None
    else Lookup(m.children[path[0]], path[1..])
  }

  /** A module comes before those inside it and before its later siblings with theirs. */
  predicate Earlier(p: seq<nat>, q: seq<nat>)
    decreases |p|
  {
    q != [] && (p == [] || p[0] < q[0] || (p[0] == q[0] && Earlier(p[1..], q[1..])))
  }

  predicate InOrderOfPaths(paths: seq<seq<nat>>) {
    forall i, j :: 0 <= i < j < |paths| ==> Earlier(paths[i], paths[j])
  }

  ghost predicate IsSubject(m: Module, path: seq<nat>) {
    Lookup(m, path).Some? && Lookup(m, path).value.subject
  }

  /** The paths are those of participating modules, whose ids are `ids`. */
  ghost predicate Locates(m: Module, paths: seq<seq<nat>>, ids: seq<nat>) {
    |paths| == |ids|
    && forall i :: 0 <= i < |paths| ==> IsSubject(m, paths[i]) && Lookup(m, paths[i]).value.id == ids[i]
  }

  /** The paths go to children from the `lo`th up to the `hi`th, and to all participating modules in these. */
  ghost predicate AllBelow(m: Module, paths: seq<seq<nat>>, lo: nat, hi: nat) {
    (forall i :: 0 <= i < |paths| ==> paths[i] != [] && lo <= paths[i][0] < hi)
    && forall p: seq<nat> :: p != [] && lo <= p[0] < hi && IsSubject(m, p) ==> p in paths
  }

  /** Preorder lists every participating module once, each before those inside it and before its later siblings. */
  lemma {:induction false} PreorderIs(m: Module) returns (paths: seq<seq<nat>>)
    ensures Locates(m, paths, Preorder(m)) && InOrderOfPaths(paths)
    ensures forall p: seq<nat> :: IsSubject(m, p) ==> p in paths
  {
    hide PreorderAll;
    var inside := PreorderAllIs(m, |m.children|);
    assert m.children[..|m.children|] == m.children;
    paths := (if m.subject then [[]] else []) + inside;
    forall p: seq<nat> | IsSubject(m, p) ensures p in paths {
      if p != [] { assert p in inside; }
    }
  }

  lemma {:induction false} PreorderAllIs(m: Module, n: nat) returns (paths: seq<seq<nat>>)
    requires n <= |m.children|
    ensures Locates(m, paths, PreorderAll(m.children[..n])) && InOrderOfPaths(paths) && AllBelow(m, paths, 0, n)
    decreases m, 0, n
  {
    hide Locates, InOrderOfPaths, AllBelow, Preorder;
    if n == 0 {
      paths := [];
      NoPaths(m);
    } else {
      var before := PreorderAllIs(m, n - 1);
      var c := m.children[n - 1];
      var own := PreorderIs(c);
      var here := PathsBelow(m, n - 1, own);
      paths := before + here;
      assert m.children[..n][..n - 1] == m.children[..n - 1];
      LocatesJoin(m, before, PreorderAll(m.children[..n - 1]), here, Preorder(c));
      PathsJoin(m, n - 1, before, here);
    }
  }

  lemma NoPaths(m: Module)
    ensures Locates(m, [], []) && InOrderOfPaths([]) && AllBelow(m, [], 0, 0)
  {
  }

  lemma LocatesJoin(m: Module, p: seq<seq<nat>>, a: seq<nat>, q: seq<seq<nat>>, b: seq<nat>)
    requires Locates(m, p, a) && Locates(m, q, b)
    ensures Locates(m, p + q, a + b)
  {
    hide IsSubject;
  }

  /** The paths in a child, seen from the module. */
  lemma PathsBelow(m: Module, k: nat, own: seq<seq<nat>>) returns (paths: seq<seq<nat>>)
    requires k < |m.children| && Locates(m.children[k], own, Preorder(m.children[k])) && InOrderOfPaths(own)
    requires forall p: seq<nat> :: IsSubject(m.children[k], p) ==> p in own
    ensures Locates(m, paths, Preorder(m.children[k])) && InOrderOfPaths(paths) && AllBelow(m, paths, k, k + 1)
  {
    hide Preorder, PreorderAll, Lookup, Earlier;
    paths := seq(|own|, i requires 0 <= i < |own| => [k] + own[i]);
    forall i | 0 <= i < |own| ensures Lookup(m, paths[i]) == Lookup(m.children[k], own[i]) {
      OneDown(m, k, own[i]);
    }
    forall i, j | 0 <= i < j < |own| ensures Earlier(paths[i], paths[j]) {
      SameStart(k, own[i], own[j]);
    }
    forall p: seq<nat> | p != [] && k <= p[0] < k + 1 && IsSubject(m, p) ensures p in paths {
      assert p == [k] + p[1..];
      OneDown(m, k, p[1..]);
      assert IsSubject(m.children[k], p[1..]) && p[1..] in own;
      var i :| 0 <= i < |own| && own[i] == p[1..];
      assert paths[i] == p;
    }
  }

  lemma OneDown(m: Module, k: nat, p: seq<nat>)
    requires k < |m.children|
    ensures Lookup(m, [k] + p) == Lookup(m.children[k], p)
  {
    assert ([k] + p)[1..] == p;
  }

  lemma SameStart(k: nat, p: seq<nat>, q: seq<nat>)
    requires Earlier(p, q)
    ensures Earlier([k] + p, [k] + q)
  {
    assert ([k] + p)[1..] == p && ([k] + q)[1..] == q;
  }

  /** The paths in the first `k` children, and then those in the next. */
  lemma PathsJoin(m: Module, k: nat, before: seq<seq<nat>>, here: seq<seq<nat>>)
    requires InOrderOfPaths(before) && AllBelow(m, before, 0, k)
    requires InOrderOfPaths(here) && AllBelow(m, here, k, k + 1)
    ensures InOrderOfPaths(before + here) && AllBelow(m, before + here, 0, k + 1)
  {
    hide IsSubject;
    var all := before + here;
    forall i, j | 0 <= i < j < |all| ensures Earlier(all[i], all[j]) {
      if i < |before| <= j {
        assert all[i] == before[i] && all[j] == here[j - |before|];
      } else if j < |before| {
        assert all[i] == before[i] && all[j] == before[j];
      } else {
        assert all[i] == here[i - |before|] && all[j] == here[j - |before|];
      }
    }
  }

  datatype Event =
    | Doing(stage: nat)
    | Handled(who: nat, stage: nat, done: bool)
    | Completed(who: nat, stage: nat)
    | Notified

  /** How far the operation is: the stage, how many modules have handled it, who has yet to complete it. */
  datatype Progress = Progress(stage: int, handled: nat, waiting: set<nat>, notified: bool)

  /** Nobody waits, and all modules have handled the stage. */
  predicate Through(ms: seq<nat>, p: Progress) {
    p.handled == |ms| && p.waiting == {} && !p.notified
  }

  /** The discipline of stages: what may come next. */
  function Advance(ms: seq<nat>, stages: nat, p: Progress, e: Event): Option<Progress> {
    match e
    case Doing(k) =>
      if k == p.stage + 1 && k < stages && Through(ms, p) then Some(Progress(k, 0, {}, false)) else None
    case Handled(m, k, done) =>
      if k == p.stage && p.handled < |ms| && m == ms[p.handled] && !p.notified then
        Some(p.(handled := p.handled + 1, waiting := if done then p.waiting else p.waiting + {m}))
      else None
    case Completed(m, k) =>
      if k == p.stage && p.handled == |ms| && m in p.waiting then Some(p.(waiting := p.waiting - {m})) else None
    case Notified =>
      if p.stage == stages - 1 && Through(ms, p) then Some(p.(notified := true)) else None
  }

  /** The progress that a log amounts to; nothing if it breaks the discipline. */
  function Follow(ms: seq<nat>, stages: nat, log: seq<Event>): Option<Progress> {
    if log == [] then Some(Progress(-1, |ms|, {}, false))
    else
      match Follow(ms, stages, log[..|log| - 1])
      case None => None
      case Some(p) => Advance(ms, stages, p, log[|log| - 1])
  }

  // ----- What the discipline means -----

  /** The modules that have handled a stage, in order. */
  function Handlers(log: seq<Event>, k: nat): seq<nat> {
    if log == [] then []
    else
      var before, e := Handlers(log[..|log| - 1], k), log[|log| - 1];
      if e.Handled? && e.stage == k then before + [e.who] else before
  }

  /** Each started stage is handled by each module exactly once, in preorder; the others by nobody yet. */
  lemma {:induction false} HandledOnceInOrder(ms: seq<nat>, stages: nat, log: seq<Event>, k: nat)
    requires Follow(ms, stages, log).Some?
    ensures var p := Follow(ms, stages, log).value;
      p.handled <= |ms| && -1 <= p.stage < stages
      && Handlers(log, k) == if k < p.stage then ms else if k == p.stage then ms[..p.handled] else []
  {
    if log != [] {
      var before, e := log[..|log| - 1], log[|log| - 1];
      HandledOnceInOrder(ms, stages, before, k);
      if e.Handled? && e.stage == k {
        var p := Follow(ms, stages, before).value;
        assert ms[..p.handled] + [ms[p.handled]] == ms[..p.handled + 1];
      }
    }
  }

  /** A module has finished a stage, at once or later. */
  ghost predicate Finishes(e: Event, m: nat, k: nat) {
    e == Handled(m, k, true) || e == Completed(m, k)
  }

  ghost predicate FinishedIn(log: seq<Event>, m: nat, k: nat) {
    exists q :: 0 <= q < |log| && Finishes(log[q], m, k)
  }

  lemma FinishedLonger(log: seq<Event>, e: Event, m: nat, k: nat)
    requires FinishedIn(log, m, k) || Finishes(e, m, k)
    ensures FinishedIn(log + [e], m, k)
  {
    if FinishedIn(log, m, k) {
      var q :| 0 <= q < |log| && Finishes(log[q], m, k);
      assert Finishes((log + [e])[q], m, k);
    } else {
      assert Finishes((log + [e])[|log|], m, k);
    }
  }

  lemma {:induction false} FinishedUnlessWaiting(ms: seq<nat>, stages: nat, log: seq<Event>, i: nat, k: nat)
    requires Follow(ms, stages, log).Some? && i < |ms|
    requires var p := Follow(ms, stages, log).value;
      k < p.stage || (k == p.stage && i < p.handled && ms[i] !in p.waiting)
    ensures FinishedIn(log, ms[i], k)
  {
    if log != [] {
      var before, e := log[..|log| - 1], log[|log| - 1];
      var p := Follow(ms, stages, before).value;
      HandledOnceInOrder(ms, stages, before, k);
      if k < p.stage || (k == p.stage && i < p.handled && ms[i] !in p.waiting) {
        FinishedUnlessWaiting(ms, stages, before, i, k);
      }
      FinishedLonger(before, e, ms[i], k);
      assert before + [e] == log;
    }
  }

  /** No module handles a stage before every module has finished the one before it. */
  lemma Barrier(ms: seq<nat>, stages: nat, log: seq<Event>, at: nat, i: nat, k: nat)
    requires Follow(ms, stages, log).Some? && at < |log| && i < |ms|
    requires log[at].Handled? && log[at].stage == k + 1
    ensures FinishedIn(log[..at], ms[i], k)
  {
    FollowPrefix(ms, stages, log, at + 1);
    assert log[..at + 1][..at] == log[..at];
    FinishedUnlessWaiting(ms, stages, log[..at], i, k);
  }

  lemma {:induction false} FollowPrefix(ms: seq<nat>, stages: nat, log: seq<Event>, n: nat)
    requires Follow(ms, stages, log).Some? && n <= |log|
    ensures Follow(ms, stages, log[..n]).Some?
  {
    if n == |log| {
      assert log[..n] == log;
    } else {
      FollowPrefix(ms, stages, log[..|log| - 1], n);
      assert log[..|log| - 1][..n] == log[..n];
    }
  }

  function Notifications(log: seq<Event>): nat {
    if log == [] then 0 else Notifications(log[..|log| - 1]) + (if log[|log| - 1] == Notified then 1 else 0)
  }

  /** The caller is notified at most once, and only when every module has finished every stage. */
  lemma {:induction false} NotifiedOnce(ms: seq<nat>, stages: nat, log: seq<Event>)
    requires Follow(ms, stages, log).Some?
    ensures var p := Follow(ms, stages, log).value;
      Notifications(log) == (if p.notified then 1 else 0)
      && (p.notified ==> p.stage == stages - 1 && p.handled == |ms| && p.waiting == {})
  {
    if log != [] {
      NotifiedOnce(ms, stages, log[..|log| - 1]);
    }
  }

  /** At the end every module has handled every stage exactly once and finished it. */
  lemma AllDone(ms: seq<nat>, stages: nat, log: seq<Event>, notified: bool, k: nat, i: nat)
    requires Follow(ms, stages, log) == Some(Progress(stages - 1, |ms|, {}, notified)) && k < stages && i < |ms|
    ensures Handlers(log, k) == ms && FinishedIn(log, ms[i], k)
    ensures Notifications(log) == if notified then 1 else 0
  {
    HandledOnceInOrder(ms, stages, log, k);
    assert ms[..|ms|] == ms;
    FinishedUnlessWaiting(ms, stages, log, i, k);
    NotifiedOnce(ms, stages, log);
  }

  // ----- A stage as the controller does it -----

  /** The modules handle a stage one after the other. */
  function Handlings(ms: seq<nat>, stage: nat, handle: (nat, nat) -> bool): seq<Event> {
    seq(|ms|, i requires 0 <= i < |ms| => Handled(ms[i], stage, handle(ms[i], stage)))
  }

  /** Those that do not complete the stage at once. */
  function Refusing(ms: seq<nat>, stage: nat, handle: (nat, nat) -> bool): seq<nat> {
    if ms == [] then []
    else
      var last := ms[|ms| - 1];
      Refusing(ms[..|ms| - 1], stage, handle) + (if handle(last, stage) then [] else [last])
  }

  lemma {:induction false} RefusingJoin(a: seq<nat>, b: seq<nat>, stage: nat, handle: (nat, nat) -> bool)
    ensures Refusing(a + b, stage, handle) == Refusing(a, stage, handle) + Refusing(b, stage, handle)
    decreases |b|
  {
    if b == [] {
      assert a + b == a;
    } else {
      RefusingJoin(a, b[..|b| - 1], stage, handle);
      assert (a + b)[..|a + b| - 1] == a + b[..|b| - 1];
    }
  }

  lemma HandlingsJoin(a: seq<nat>, b: seq<nat>, stage: nat, handle: (nat, nat) -> bool)
    ensures Handlings(a + b, stage, handle) == Handlings(a, stage, handle) + Handlings(b, stage, handle)
  {
  }

  function ToSet(s: seq<nat>): set<nat> {
    set x | x in s
  }

  lemma {:induction false} RefusingAre(ms: seq<nat>, stage: nat, handle: (nat, nat) -> bool)
    requires Distinct(ms)
    ensures Distinct(Refusing(ms, stage, handle))
    ensures forall m :: m in Refusing(ms, stage, handle) <==> m in ms && !handle(m, stage)
  {
    if ms != [] {
      var front, last := ms[..|ms| - 1], ms[|ms| - 1];
      RefusingAre(front, stage, handle);
      assert ms == front + [last];
      forall m | m in front ensures m != last {
        var i :| 0 <= i < |front| && front[i] == m;
        assert ms[i] == m;
      }
      var r := Refusing(front, stage, handle);
      forall i | 0 <= i < |r| ensures r[i] != last {
        assert r[i] in r;
      }
    }
  }

  lemma FollowOne(ms: seq<nat>, stages: nat, log: seq<Event>, e: Event)
    requires Follow(ms, stages, log).Some?
    ensures Follow(ms, stages, log + [e]) == Advance(ms, stages, Follow(ms, stages, log).value, e)
  {
    assert (log + [e])[..|log|] == log;
  }

  /** After the first `n` modules have handled the stage. */
  lemma {:induction false} FollowHandlings(ms: seq<nat>, stages: nat, log: seq<Event>, stage: nat, handle: (nat,
                                           nat) -> bool, n: nat)
    requires n <= |ms| && Follow(ms, stages, log) == Some(Progress(stage, 0, {}, false))
    ensures Follow(ms, stages, log + Handlings(ms[..n], stage, handle))
      == Some(Progress(stage, n, ToSet(Refusing(ms[..n], stage, handle)), false))
  {
    hide Follow, Handlings, Refusing, ToSet;
    if n == 0 {
      NobodyYet(ms, log, stage, handle);
    } else {
      FollowHandlings(ms, stages, log, stage, handle, n - 1);
      OneMore(ms, log, stage, handle, n);
      var e := Handled(ms[n - 1], stage, handle(ms[n - 1], stage));
      FollowOne(ms, stages, log + Handlings(ms[..n - 1], stage, handle), e);
    }
  }

  lemma NobodyYet(ms: seq<nat>, log: seq<Event>, stage: nat, handle: (nat, nat) -> bool)
    ensures log + Handlings(ms[..0], stage, handle) == log && ToSet(Refusing(ms[..0], stage, handle)) == {}
  {
  }

  lemma OneMore(ms: seq<nat>, log: seq<Event>, stage: nat, handle: (nat, nat) -> bool, n: nat)
    requires 0 < n <= |ms|
    ensures var e := Handled(ms[n - 1], stage, handle(ms[n - 1], stage));
      log + Handlings(ms[..n], stage, handle) == log + Handlings(ms[..n - 1], stage, handle) + [e]
      && ToSet(Refusing(ms[..n], stage, handle)) ==
        var before := ToSet(Refusing(ms[..n - 1], stage, handle)); if e.done then before else before + {ms[n - 1]}
  {
    var m := ms[n - 1];
    assert ms[..n] == ms[..n - 1] + [m] && ms[..n][..n - 1] == ms[..n - 1];
    HandlingsJoin(ms[..n - 1], [m], stage, handle);
    assert Handlings([m], stage, handle) == [Handled(m, stage, handle(m, stage))];
    assert Refusing(ms[..n], stage, handle) ==
      Refusing(ms[..n - 1], stage, handle) + (if handle(m, stage) then [] else [m]);
  }

  /** The events of a stage up to its last handling. */
  function StageOf(ms: seq<nat>, stage: nat, handle: (nat, nat) -> bool): seq<Event> {
    [Doing(stage)] + Handlings(ms, stage, handle)
  }

  /** A whole stage begun and handled by all. */
  lemma FollowStage(ms: seq<nat>, stages: nat, log: seq<Event>, stage: nat, handle: (nat, nat) -> bool)
    requires stage < stages && Follow(ms, stages, log) == Some(Progress(stage - 1, |ms|, {}, false))
    ensures Follow(ms, stages, log + StageOf(ms, stage, handle))
      == Some(Progress(stage, |ms|, ToSet(Refusing(ms, stage, handle)), false))
  {
    hide Handlings, Refusing;
    FollowOne(ms, stages, log, Doing(stage));
    FollowHandlings(ms, stages, log + [Doing(stage)], stage, handle, |ms|);
    assert ms[..|ms|] == ms;
    assert log + StageOf(ms, stage, handle) == log + [Doing(stage)] + Handlings(ms, stage, handle);
  }

  // ----- An operation as a whole -----

  /** An operation between two calls: its stage, the modules that have yet to complete it, the events so far. */
  datatype Operation = Operation(stage: nat, waiting: seq<nat>, log: seq<Event>)

  /** Stage after stage, until one is left pending or all are done; then perhaps the caller is notified. */
  function Resume(ms: seq<nat>, stages: nat, handle: (nat, nat) -> bool, notify: bool, o: Operation): Operation
    decreases stages - o.stage
  {
    if o.stage >= stages then o.(log := if notify then o.log + [Notified] else o.log)
    else
      var waiting, log := Refusing(ms, o.stage, handle), o.log + StageOf(ms, o.stage, handle);
      if waiting == [] then Resume(ms, stages, handle, notify, Operation(o.stage + 1, [], log))
      else Operation(o.stage, waiting, log)
  }

  function Initiate(ms: seq<nat>, stages: nat, handle: (nat, nat) -> bool): Operation {
    Resume(ms, stages, handle, false, Operation(0, [], []))
  }

  /** The `k`th of the waiting modules completes the stage. */
  function Complete(ms: seq<nat>, stages: nat, handle: (nat, nat) -> bool, notify: bool, o: Operation,
                    k: nat): Operation
    requires k < |o.waiting|
  {
    var left, log := Without(o.waiting, k), o.log + [Completed(o.waiting[k], o.stage)];
    if left == [] then Resume(ms, stages, handle, notify, Operation(o.stage + 1, [], log))
    else Operation(o.stage, left, log)
  }

  function Without<T>(s: seq<T>, k: nat): seq<T>
    requires k < |s|
  {
    s[..k] + s[k + 1..]
  }

  /** The log keeps the discipline, and the operation is where the log says: at a pending stage or at the end. */
  ghost predicate InOrder(ms: seq<nat>, stages: nat, o: Operation, notified: bool) {
    Distinct(o.waiting)
    && (if o.waiting == [] then o.stage == stages else o.stage < stages && !notified)
    && Follow(ms, stages, o.log) ==
      Some(Progress(if o.waiting == [] then stages - 1 else o.stage, |ms|, ToSet(o.waiting), notified))
  }

  lemma {:induction false} ResumeInOrder(ms: seq<nat>, stages: nat, handle: (nat, nat) -> bool, notify: bool,
                                         o: Operation)
    requires Distinct(ms) && o.waiting == [] && o.stage <= stages
    requires Follow(ms, stages, o.log) == Some(Progress(o.stage - 1, |ms|, {}, false))
    ensures var r := Resume(ms, stages, handle, notify, o);
      InOrder(ms, stages, r, notify && r.waiting == []) && o.log <= r.log
    decreases stages - o.stage
  {
    hide Follow, Handlings, Refusing;
    assert ToSet([]) == {};
    if o.stage >= stages {
      FollowOne(ms, stages, o.log, Notified);
    } else {
      FollowStage(ms, stages, o.log, o.stage, handle);
      RefusingAre(ms, o.stage, handle);
      if Refusing(ms, o.stage, handle) == [] {
        var next := Operation(o.stage + 1, [], o.log + StageOf(ms, o.stage, handle));
        ResumeInOrder(ms, stages, handle, notify, next);
        assert o.log <= next.log;
      }
    }
  }

  lemma CompleteInOrder(ms: seq<nat>, stages: nat, handle: (nat, nat) -> bool, notify: bool, o: Operation, k: nat)
    requires Distinct(ms) && InOrder(ms, stages, o, false) && k < |o.waiting|
    ensures var r := Complete(ms, stages, handle, notify, o, k);
      InOrder(ms, stages, r, notify && r.waiting == [])
      && o.log + [Completed(o.waiting[k], o.stage)] <= r.log
  {
    hide Follow;
    var m, left := o.waiting[k], Without(o.waiting, k);
    FollowOne(ms, stages, o.log, Completed(m, o.stage));
    WithoutIs(o.waiting, k);
    if left == [] {
      assert ToSet(left) == {};
      ResumeInOrder(ms, stages, handle, notify, Operation(o.stage + 1, [], o.log + [Completed(m, o.stage)]));
    }
  }

  lemma WithoutIs(s: seq<nat>, k: nat)
    requires k < |s| && Distinct(s)
    ensures var r := Without(s, k);
      Distinct(r) && ToSet(r) == ToSet(s) - {s[k]} && s[k] in ToSet(s) && s[k] !in r
  {
    var r := Without(s, k);
    forall i | 0 <= i < |r| ensures r[i] == s[if i < k then i else i + 1] {
    }
    forall x | x in r ensures x in s && x != s[k] {
      var i :| 0 <= i < |r| && r[i] == x;
      assert s[if i < k then i else i + 1] == x;
    }
    forall x | x in s && x != s[k] ensures x in r {
      var i :| 0 <= i < |s| && s[i] == x;
      assert r[if i < k then i else i - 1] == x;
    }
  }

  // ----- Every run of an operation -----

  ghost predicate Completes(ms: seq<nat>, stages: nat, handle: (nat, nat) -> bool, notify: bool, o: Operation,
                            o': Operation) {
    exists k: nat :: k < |o.waiting| && o' == Complete(ms, stages, handle, notify, o, k)
  }

  /** An operation initiated, and then completed by one pending module after the other, in any order. */
  ghost predicate OperationRun(ms: seq<nat>, stages: nat, handle: (nat, nat) -> bool, notify: bool,
                               run: seq<Operation>) {
    run != [] && run[0] == Initiate(ms, stages, handle)
    && forall i :: 0 <= i < |run| - 1 ==> Completes(ms, stages, handle, notify, run[i], run[i + 1])
  }

  lemma {:induction false} RunInOrder(ms: seq<nat>, stages: nat, handle: (nat, nat) -> bool, notify: bool,
                                      run: seq<Operation>, i: nat)
    requires Distinct(ms) && OperationRun(ms, stages, handle, notify, run) && i < |run|
    ensures InOrder(ms, stages, run[i], notify && i > 0 && run[i].waiting == [])
  {
    hide InOrder;
    if i == 0 {
      InitiateInOrder(ms, stages, handle);
    } else {
      RunInOrder(ms, stages, handle, notify, run, i - 1);
      assert Completes(ms, stages, handle, notify, run[i - 1], run[i - 1 + 1]);
      var k: nat :| k < |run[i - 1].waiting| && run[i] == Complete(ms, stages, handle, notify, run[i - 1], k);
      CompleteInOrder(ms, stages, handle, notify, run[i - 1], k);
    }
  }

  lemma InitiateInOrder(ms: seq<nat>, stages: nat, handle: (nat, nat) -> bool)
    requires Distinct(ms)
    ensures InOrder(ms, stages, Initiate(ms, stages, handle), false)
  {
    hide InOrder;
    ResumeInOrder(ms, stages, handle, false, Operation(0, [], []));
  }

  /**
   * Through any completions the log only grows. There is exactly one notification once nobody is pending after an
   * initiation that left somebody so, and none before, nor if the caller gave no callback.
   */
  lemma {:induction false} NotifiedAtTheEnd(ms: seq<nat>, stages: nat, handle: (nat, nat) -> bool, notify: bool,
                                            run: seq<Operation>, i: nat)
    requires Distinct(ms) && OperationRun(ms, stages, handle, notify, run) && i < |run|
    ensures Notifications(run[i].log) == if notify && i > 0 && run[i].waiting == [] then 1 else 0
    ensures i > 0 ==> run[0].waiting != [] && run[i - 1].log < run[i].log
  {
    hide Follow;
    RunInOrder(ms, stages, handle, notify, run, i);
    NotifiedOnce(ms, stages, run[i].log);
    if i > 0 {
      assert Completes(ms, stages, handle, notify, run[0], run[0 + 1]);
      RunInOrder(ms, stages, handle, notify, run, i - 1);
      assert Completes(ms, stages, handle, notify, run[i - 1], run[i - 1 + 1]);
      var k: nat :| k < |run[i - 1].waiting| && run[i] == Complete(ms, stages, handle, notify, run[i - 1], k);
      CompleteInOrder(ms, stages, handle, notify, run[i - 1], k);
    }
  }

  /** When nobody is pending any more, every module has handled every stage once and finished it. */
  lemma RunEndsDone(ms: seq<nat>, stages: nat, handle: (nat, nat) -> bool, notify: bool, run: seq<Operation>, i: nat,
                    k: nat, m: nat)
    requires Distinct(ms) && OperationRun(ms, stages, handle, notify, run) && i < |run|
    requires run[i].waiting == [] && k < stages && m < |ms|
    ensures Handlers(run[i].log, k) == ms && FinishedIn(run[i].log, ms[m], k)
  {
    hide Follow;
    RunInOrder(ms, stages, handle, notify, run, i);
    assert ToSet([]) == {};
    AllDone(ms, stages, run[i].log, notify && i > 0, k, m);
  }

  /** How often a module does not complete a stage at once, over the stages from `stage` on. */
  function Refusals(ms: seq<nat>, stages: nat, handle: (nat, nat) -> bool, stage: nat): nat
    decreases stages - stage
  {
    if stage >= stages then 0
    else |Refusing(ms, stage, handle)| + Refusals(ms, stages, handle, stage + 1)
  }

  /** The completions that an operation still needs. */
  function Needs(ms: seq<nat>, stages: nat, handle: (nat, nat) -> bool, o: Operation): nat {
    |o.waiting| + Refusals(ms, stages, handle, o.stage + 1)
  }

  lemma {:induction false} ResumeNeeds(ms: seq<nat>, stages: nat, handle: (nat, nat) -> bool, notify: bool,
                                       o: Operation)
    requires o.waiting == []
    ensures Needs(ms, stages, handle, Resume(ms, stages, handle, notify, o)) == Refusals(ms, stages, handle, o.stage)
    decreases stages - o.stage
  {
    if o.stage < stages && Refusing(ms, o.stage, handle) == [] {
      var log := o.log + StageOf(ms, o.stage, handle);
      ResumeNeeds(ms, stages, handle, notify, Operation(o.stage + 1, [], log));
    }
  }

  lemma {:induction false} CompletionsLeft(ms: seq<nat>, stages: nat, handle: (nat, nat) -> bool, notify: bool,
                                           run: seq<Operation>, i: nat)
    requires Distinct(ms) && OperationRun(ms, stages, handle, notify, run) && i < |run|
    ensures i + Needs(ms, stages, handle, run[i]) == Refusals(ms, stages, handle, 0)
  {
    hide Refusals, Refusing;
    if i == 0 {
      ResumeNeeds(ms, stages, handle, false, Operation(0, [], []));
    } else {
      CompletionsLeft(ms, stages, handle, notify, run, i - 1);
      var o := run[i - 1];
      assert Completes(ms, stages, handle, notify, o, run[i - 1 + 1]);
      var k: nat :| k < |o.waiting| && run[i] == Complete(ms, stages, handle, notify, o, k);
      if Without(o.waiting, k) == [] {
        var log := o.log + [Completed(o.waiting[k], o.stage)];
        ResumeNeeds(ms, stages, handle, notify, Operation(o.stage + 1, [], log));
      }
    }
  }

  /**
   * An operation is over exactly after as many completions as there are modules and stages that did not complete
   * at once, whatever their order.
   */
  lemma EndsAfter(ms: seq<nat>, stages: nat, handle: (nat, nat) -> bool, notify: bool, run: seq<Operation>, i: nat)
    requires Distinct(ms) && OperationRun(ms, stages, handle, notify, run) && i < |run|
    ensures i <= Refusals(ms, stages, handle, 0)
    ensures run[i].waiting == [] <==> i == Refusals(ms, stages, handle, 0)
  {
    CompletionsLeft(ms, stages, handle, notify, run, i);
    RunInOrder(ms, stages, handle, notify, run, i);
  }
}

/** The controller with its operations and callbacks. */
module LifecycleControllers {
  import opened Sequences
  import opened LifecycleEvents

  /** Given to a module that does not complete a stage at once; invoking it completes the stage for that module. */
  class Callback {
    var who: nat
    var armed: bool

    constructor ()
      ensures !armed
    {
      who, armed := 0, false;
    }

    method Init(m: nat)
      modifies this
      ensures who == m && armed
    {
      who, armed := m, true;
    }
  }

  class LifecycleOperation {
    const root: Module
    const numStages: nat
    var currentStage: nat
    var pendingList: seq<Callback>
    var insideInitiateOperation: bool
    var hasCompletionCallback: bool
    /** What has happened since the operation was initiated. */
    var log: seq<Event>
    /** The modules of the callbacks pending. */
    ghost var waiting: seq<nat>

    constructor (root: Module, numStages: nat)
      ensures this.root == root && this.numStages == numStages
      ensures pendingList == [] && waiting == [] && log == []
    {
      this.root, this.numStages := root, numStages;
      currentStage, pendingList, insideInitiateOperation, hasCompletionCallback := 0, [], false, false;
      log, waiting := [], [];
    }

    /** The pending callbacks are those of the waiting modules, in order, and each is in the list once. */
    ghost predicate Listed()
      reads this, pendingList
    {
      |waiting| == |pendingList|
      && (forall i :: 0 <= i < |pendingList| ==> pendingList[i].armed && pendingList[i].who == waiting[i])
      && Distinct(pendingList)
    }

    ghost function Modules(): seq<nat> {
      Preorder(root)
    }

    /** The operation as a value. */
    ghost function Now(): Operation
      reads this
    {
      Operation(currentStage, waiting, log)
    }

    /** Whether the caller is to be told of the end. */
    ghost predicate Notifies()
      reads this
    {
      hasCompletionCallback && !insideInitiateOperation
    }
  }

  class LifecycleController {
    var spareCallback: Callback?
    const handle: (nat, nat) -> bool

    constructor (handle: (nat, nat) -> bool)
      ensures this.handle == handle && spareCallback == null
    {
      this.handle, spareCallback := handle, null;
    }

    /** The spare callback has not been given to a module that waits. */
    ghost predicate SpareFree(op: LifecycleOperation)
      reads this, op
    {
      spareCallback == null || spareCallback !in op.pendingList
    }

    /** One module's turn at the current stage. */
    method HandleStage(op: LifecycleOperation, m: nat)
      requires op.Listed() && SpareFree(op)
      modifies this`spareCallback, op`pendingList, op`waiting, op`log
      modifies if spareCallback == null then {} else {spareCallback}
      ensures op.Listed() && SpareFree(op)
      ensures spareCallback == null || spareCallback == old(spareCallback) || fresh(spareCallback)
      ensures forall c :: c in op.pendingList ==> c in old(op.pendingList) || c == old(spareCallback) || fresh(c)
      ensures op.log == old(op.log) + [Handled(m, op.currentStage, handle(m, op.currentStage))]
      ensures op.waiting == if handle(m, op.currentStage) then old(op.waiting) else old(op.waiting) + [m]
    {
      var callback: Callback;
      if spareCallback != null {
        callback := spareCallback;
      } else {
        callback := new Callback();
      }
      var done := handle(m, op.currentStage);
      op.log := op.log + [Handled(m, op.currentStage, done)];
      if !done {
        callback.Init(m);
        op.pendingList := op.pendingList + [callback];
        op.waiting := op.waiting + [m];
        spareCallback := null;
      } else {
        spareCallback := callback;
      }
    }

    /** The modules of a tree handle the current stage, each before those inside it. */
    method DoOneStage(op: LifecycleOperation, submodule: Module)
      requires op.Listed() && SpareFree(op)
      modifies this`spareCallback, op`pendingList, op`waiting, op`log
      modifies if spareCallback == null then {} else {spareCallback}
      ensures op.Listed() && SpareFree(op)
      ensures spareCallback == null || spareCallback == old(spareCallback) || fresh(spareCallback)
      ensures forall c :: c in op.pendingList ==> c in old(op.pendingList) || c == old(spareCallback) || fresh(c)
      ensures op.log == old(op.log) + Handlings(Preorder(submodule), op.currentStage, handle)
      ensures op.waiting == old(op.waiting) + Refusing(Preorder(submodule), op.currentStage, handle)
      decreases submodule
    {
      hide Handlings, Refusing, Preorder, PreorderAll, Distinct;
      ghost var k, self := op.currentStage, if submodule.subject then [submodule.id] else [];
      if submodule.subject {
        HandleStage(op, submodule.id);
      }
      OneRefusing(submodule, k, handle);
      var i := 0;
      while i < |submodule.children|
        invariant i <= |submodule.children|
        invariant op.Listed() && SpareFree(op)
        invariant spareCallback == null || spareCallback == old(spareCallback) || fresh(spareCallback)
        invariant forall c :: c in op.pendingList ==> c in old(op.pendingList) || c == old(spareCallback) || fresh(c)
        invariant op.log == old(op.log) + Handlings(self + PreorderAll(submodule.children[..i]), k, handle)
        invariant op.waiting == old(op.waiting) + Refusing(self + PreorderAll(submodule.children[..i]), k, handle)
      {
        NextChild(self, submodule.children, i, k, handle, old(op.log), old(op.waiting));
        DoOneStage(op, submodule.children[i]);
        i := i + 1;
      }
      assert submodule.children[..i] == submodule.children;
    }

    /** Stage after stage, until one is left pending or all are done; then the caller is told, unless still calling. */
    method ResumeOperation(op: LifecycleOperation) returns (done: bool)
      requires op.pendingList == [] && op.waiting == [] && SpareFree(op)
      modifies this`spareCallback, op`currentStage, op`pendingList, op`waiting, op`log
      modifies if spareCallback == null then {} else {spareCallback}
      ensures op.Listed() && SpareFree(op) && (done <==> op.pendingList == [])
      ensures op.Now() == Resume(op.Modules(), op.numStages, handle, op.Notifies(), old(op.Now()))
    {
      hide Resume, Handlings, Refusing, Preorder, PreorderAll;
      while op.currentStage < op.numStages
        invariant op.pendingList == [] && op.waiting == [] && SpareFree(op)
        invariant spareCallback == null || spareCallback == old(spareCallback) || fresh(spareCallback)
        invariant Resume(op.Modules(), op.numStages, handle, op.Notifies(), op.Now())
          == Resume(op.Modules(), op.numStages, handle, op.Notifies(), old(op.Now()))
        decreases op.numStages - op.currentStage
      {
        OneStage(op.Modules(), op.numStages, handle, op.Notifies(), op.currentStage, op.log);
        op.log := op.log + [Doing(op.currentStage)];
        DoOneStage(op, op.root);
        if op.pendingList == [] {
          op.currentStage := op.currentStage + 1;
        } else {
          return false;
        }
      }
      NoStageLeft(op.Modules(), op.numStages, handle, op.Notifies(), op.Now());
      if op.hasCompletionCallback && !op.insideInitiateOperation {
        op.log := op.log + [Notified];
      }
      done := true;
    }

    /** Starts an operation; true tells that all is done, and then there is no notification. */
    method InitiateOperation(op: LifecycleOperation, completionCallback: bool) returns (done: bool)
      requires op.pendingList == [] && op.waiting == []
      modifies this`spareCallback, op
      modifies if spareCallback == null then {} else {spareCallback}
      ensures op.Listed() && SpareFree(op) && (done <==> op.pendingList == [])
      ensures op.hasCompletionCallback == completionCallback
      ensures op.Now() == Initiate(op.Modules(), op.numStages, handle)
    {
      op.currentStage := 0;
      op.hasCompletionCallback := completionCallback;
      op.insideInitiateOperation := true;
      op.log := [];
      done := ResumeOperation(op);
    }

    /** A module that was pending completes the stage; the last one makes the operation go on. */
    method ModuleOperationStageCompleted(op: LifecycleOperation, callback: Callback) returns (ghost k: nat)
      requires op.Listed() && SpareFree(op) && callback in op.pendingList
      modifies this`spareCallback, op
      modifies if spareCallback == null then {} else {spareCallback}
      ensures op.Listed() && SpareFree(op) && op.hasCompletionCallback == old(op.hasCompletionCallback)
      ensures k < |old(op.pendingList)| && old(op.pendingList)[k] == callback
      ensures op.Now() == Complete(op.Modules(), op.numStages, handle, op.hasCompletionCallback, old(op.Now()), k)
    {
      hide Handlings, Refusing, Preorder, PreorderAll, Without;
      k := DeletePending(op, callback);
      op.log := op.log + [Completed(callback.who, op.currentStage)];
      if op.pendingList == [] {
        op.currentStage := op.currentStage + 1;
        op.insideInitiateOperation := false;
        var done := ResumeOperation(op);
      }
    }

    /** Takes a callback off the list of those pending. */
    method DeletePending(op: LifecycleOperation, callback: Callback) returns (ghost k: nat)
      requires op.Listed() && callback in op.pendingList
      modifies op`pendingList, op`waiting
      ensures op.Listed() && k < |old(op.pendingList)| && old(op.pendingList)[k] == callback
      ensures op.pendingList == Without(old(op.pendingList), k) && op.waiting == Without(old(op.waiting), k)
      ensures forall c :: c in op.pendingList ==> c in old(op.pendingList)
    {
      var i := 0;
      while op.pendingList[i] != callback
        invariant i < |op.pendingList| && callback in op.pendingList[i..]
        decreases |op.pendingList| - i
      {
        i := i + 1;
      }
      k := i;
      op.pendingList := op.pendingList[..i] + op.pendingList[i + 1..];
      op.waiting := op.waiting[..i] + op.waiting[i + 1..];
    }
  }

  /** What a stage begun and handled by all comes to: it is over, or some have refused to complete it at once. */
  lemma OneStage(ms: seq<nat>, stages: nat, handle: (nat, nat) -> bool, notify: bool, k: nat, before: seq<Event>)
    requires k < stages
    ensures var waiting, log := [] + Refusing(ms, k, handle), before + [Doing(k)] + Handlings(ms, k, handle);
      Resume(ms, stages, handle, notify, Operation(k, [], before)) ==
        if waiting == [] then Resume(ms, stages, handle, notify, Operation(k + 1, [], log))
        else Operation(k, waiting, log)
  {
    hide Handlings, Refusing;
    assert [] + Refusing(ms, k, handle) == Refusing(ms, k, handle);
    assert before + [Doing(k)] + Handlings(ms, k, handle) == before + StageOf(ms, k, handle);
  }

  lemma NoStageLeft(ms: seq<nat>, stages: nat, handle: (nat, nat) -> bool, notify: bool, o: Operation)
    requires o.stage >= stages
    ensures Resume(ms, stages, handle, notify, o) == o.(log := if notify then o.log + [Notified] else o.log)
  {
  }

  lemma OneRefusing(submodule: Module, k: nat, handle: (nat, nat) -> bool)
    ensures var self := if submodule.subject then [submodule.id] else [];
      Handlings(self, k, handle) ==
        (if submodule.subject then [Handled(submodule.id, k, handle(submodule.id, k))] else [])
      && Refusing(self, k, handle) == (if submodule.subject && !handle(submodule.id, k) then [submodule.id] else [])
      && self + PreorderAll(submodule.children[..0]) == self
      && Preorder(submodule) == self + PreorderAll(submodule.children)
  {
    if submodule.subject { assert [submodule.id][..0] == []; }
  }

  lemma NextChild(self: seq<nat>, ms: seq<Module>, i: nat, k: nat, handle: (nat, nat) -> bool, log: seq<Event>,
                  waiting: seq<nat>)
    requires i < |ms|
    ensures var before, after := self + PreorderAll(ms[..i]), self + PreorderAll(ms[..i + 1]);
      log + Handlings(before, k, handle) + Handlings(Preorder(ms[i]), k, handle) == log + Handlings(after, k, handle)
      && waiting + Refusing(before, k, handle) + Refusing(Preorder(ms[i]), k, handle)
        == waiting + Refusing(after, k, handle)
  {
    hide Handlings, Refusing, Preorder;
    var before, child := self + PreorderAll(ms[..i]), Preorder(ms[i]);
    assert ms[..i + 1][..i] == ms[..i];
    assert self + PreorderAll(ms[..i + 1]) == before + child;
    Joined(before, child, k, handle, log, waiting);
  }

  lemma Joined(a: seq<nat>, b: seq<nat>, k: nat, handle: (nat, nat) -> bool, log: seq<Event>, waiting: seq<nat>)
    ensures log + Handlings(a, k, handle) + Handlings(b, k, handle) == log + Handlings(a + b, k, handle)
    ensures waiting + Refusing(a, k, handle) + Refusing(b, k, handle) == waiting + Refusing(a + b, k, handle)
  {
    HandlingsJoin(a, b, k, handle);
    RefusingJoin(a, b, k, handle);
  }
}
