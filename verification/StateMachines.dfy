/** Hierarchical states: which of them a transition leaves and enters, and what their history records. */
module StateMachines {
  import opened Options

  /** A state's number; 0 is Root, and parents have lower numbers than their substates. */
  type State = nat

  datatype HistoryKind = NoHistory | Shallow | Deep

  datatype BoxKind = EmptyBox | PlainBox | PersistentBox

  datatype Tree = Tree(parent: seq<State>, kind: seq<HistoryKind>, box: seq<BoxKind>)

  ghost predicate TreeOk(t: Tree) {
    |t.parent| == |t.kind| == |t.box| > 0 && t.kind[0] == NoHistory
    && forall s :: 0 < s < |t.parent| ==> t.parent[s] < s
  }

  ghost predicate InTree(t: Tree, s: State) {
    TreeOk(t) && s < |t.parent|
  }

  /** Whether `s` is `a` or one of its substates. */
  predicate IsChild(t: Tree, s: State, a: State)
    requires InTree(t, s)
    decreases s
  {
    s == a || (s != 0 && IsChild(t, t.parent[s], a))
  }

  ghost predicate IsProper(t: Tree, s: State, a: State)
    requires InTree(t, s)
  {
    s != a && IsChild(t, s, a)
  }

  /** The states one is in when in `s`: from the one below Root down to `s`. */
  function Chain(t: Tree, s: State): seq<State>
    requires InTree(t, s)
    decreases s
  {
    if s == 0 then [] else Chain(t, t.parent[s]) + [s]
  }

  lemma {:induction false} ChildIsHigher(t: Tree, s: State, a: State)
    requires InTree(t, s) && IsChild(t, s, a)
    ensures a <= s
    decreases s
  {
    if s != a { ChildIsHigher(t, t.parent[s], a); }
  }

  lemma {:induction false} ChildTransitive(t: Tree, s: State, a: State, b: State)
    requires InTree(t, s) && InTree(t, a) && IsChild(t, s, a) && IsChild(t, a, b)
    ensures IsChild(t, s, b)
    decreases s
  {
    if s != a { ChildTransitive(t, t.parent[s], a, b); }
  }

  lemma {:induction false} UnderRoot(t: Tree, s: State)
    requires InTree(t, s)
    ensures IsChild(t, s, 0)
    decreases s
  {
    if s != 0 { UnderRoot(t, t.parent[s]); }
  }

  /** Two states above the same one lie one above the other. */
  lemma {:induction false} AncestorsInLine(t: Tree, s: State, a: State, b: State)
    requires InTree(t, s) && IsChild(t, s, a) && IsChild(t, s, b)
    ensures a < |t.parent| && b < |t.parent| && (IsChild(t, a, b) || IsChild(t, b, a))
    decreases s
  {
    if s != a && s != b {
      AncestorsInLine(t, t.parent[s], a, b);
    } else if s == a {
      ChildIsHigher(t, s, b);
    } else {
      ChildIsHigher(t, s, a);
    }
  }

  lemma {:induction false} ChainIsAncestors(t: Tree, s: State, a: State)
    requires InTree(t, s)
    ensures a in Chain(t, s) <==> a != 0 && IsChild(t, s, a)
    decreases s
  {
    if s != 0 { ChainIsAncestors(t, t.parent[s], a); }
  }

  // ----- Exit and entry actions -----

  datatype Action = Enter(s: State) | Exit(s: State)

  /** Whether going to `next` takes one out of `s`: a self transition, or `next` lies elsewhere. */
  predicate Leaves(t: Tree, s: State, next: State)
    requires InTree(t, next)
  {
    s == next || !IsChild(t, next, s)
  }

  /** The exit actions, from `s` upwards. */
  function Exits(t: Tree, s: State, next: State): seq<Action>
    requires InTree(t, s) && InTree(t, next)
    decreases s
  {
    if s == 0 || !Leaves(t, s, next) then [] else [Exit(s)] + Exits(t, t.parent[s], next)
  }

  /** The entry actions down to `s`, coming from `previous`. */
  function Entries(t: Tree, s: State, previous: State, first: bool): seq<Action>
    requires InTree(t, s) && InTree(t, previous)
    decreases s
  {
    if s == 0 || (!first && IsChild(t, previous, s)) then []
    else Entries(t, t.parent[s], previous, false) + [Enter(s)]
  }

  /** The states left are those on the old chain that are the target or not above it, innermost first. */
  lemma {:induction false} ExitsAre(t: Tree, s: State, next: State)
    requires InTree(t, s) && InTree(t, next)
    ensures forall a :: Exit(a) in Exits(t, s, next) <==> a != 0 && IsChild(t, s, a) && Leaves(t, a, next)
    ensures forall i :: 0 <= i < |Exits(t, s, next)| ==> Exits(t, s, next)[i].Exit? && InTree(t, Exits(t, s, next)[i].s)
    ensures forall i, j :: 0 <= i < j < |Exits(t, s, next)| ==>
      IsProper(t, Exits(t, s, next)[i].s, Exits(t, s, next)[j].s)
    decreases s
  {
    if s != 0 {
      var p := t.parent[s];
      if Leaves(t, s, next) {
        ExitsAre(t, p, next);
        var rest := Exits(t, p, next);
        assert Exits(t, s, next) == [Exit(s)] + rest;
        forall j | 0 <= j < |rest| ensures IsProper(t, s, rest[j].s) {
          assert rest[j] == Exit(rest[j].s);
          ChildIsHigher(t, p, rest[j].s);
        }
      } else {
        forall a | a != 0 && IsChild(t, s, a) ensures !Leaves(t, a, next) {
          StaysAbove(t, s, a, next);
        }
      }
    }
  }

  lemma StaysAbove(t: Tree, s: State, a: State, next: State)
    requires InTree(t, s) && InTree(t, next) && IsChild(t, s, a) && !Leaves(t, s, next)
    ensures !Leaves(t, a, next)
  {
    ChildTransitive(t, next, s, a);
    ChildIsHigher(t, next, s);
    ChildIsHigher(t, s, a);
  }

  /** The states entered are those on the new chain that are the target or not above the old state, outermost first. */
  lemma {:induction false} EntriesAre(t: Tree, s: State, previous: State, first: bool)
    requires InTree(t, s) && InTree(t, previous)
    ensures var es := Entries(t, s, previous, first);
      (forall a :: Enter(a) in es <==> a != 0 && IsChild(t, s, a) && ((first && a == s) || !IsChild(t, previous, a)))
      && (forall i :: 0 <= i < |es| ==> es[i].Enter? && InTree(t, es[i].s))
      && (forall i, j :: 0 <= i < j < |es| ==> IsProper(t, es[j].s, es[i].s))
    decreases s
  {
    if s != 0 {
      var p := t.parent[s];
      if first || !IsChild(t, previous, s) {
        EntriesAre(t, p, previous, false);
        var rest := Entries(t, p, previous, false);
        forall i | 0 <= i < |rest| ensures IsProper(t, s, rest[i].s) {
          assert rest[i] == Enter(rest[i].s);
          ChildIsHigher(t, p, rest[i].s);
        }
        forall a | IsChild(t, p, a) ensures a != s {
          ChildIsHigher(t, p, a);
        }
      } else {
        forall a | a != 0 && IsChild(t, s, a) ensures IsChild(t, previous, a) {
          ChildTransitive(t, previous, s, a);
        }
      }
    }
  }

  // ----- The log of actions -----

  /** The states entered and not yet exited, innermost last; nothing if an action does not fit. */
  ghost function Replay(t: Tree, log: seq<Action>): Option<seq<State>>
    requires TreeOk(t)
  {
    if log == [] then Some([])
    else
      match Replay(t, log[..|log| - 1])
      case None => None
      case Some(stack) => After(t, stack, log[|log| - 1])
  }

  ghost function Innermost(stack: seq<State>): State {
    if stack == [] then 0 else stack[|stack| - 1]
  }

  /** One may only enter a substate of the innermost state, and only leave the innermost. */
  ghost function After(t: Tree, stack: seq<State>, a: Action): Option<seq<State>>
    requires TreeOk(t)
  {
    match a
    case Enter(s) => if 0 < s < |t.parent| && t.parent[s] == Innermost(stack) then Some(stack + [s]) else None
    case Exit(s) => if stack != [] && Innermost(stack) == s then Some(stack[..|stack| - 1]) else None
  }

  lemma ReplayOne(t: Tree, log: seq<Action>, a: Action)
    requires TreeOk(t) && Replay(t, log).Some?
    ensures Replay(t, log + [a]) == After(t, Replay(t, log).value, a)
  {
    assert (log + [a])[..|log|] == log;
  }

  lemma ChainEnds(t: Tree, s: State)
    requires InTree(t, s)
    ensures Innermost(Chain(t, s)) == s
    ensures s != 0 ==> Chain(t, s) != [] && Chain(t, s)[..|Chain(t, s)| - 1] == Chain(t, t.parent[s])
  {
  }

  /** Where the exit actions stop. */
  ghost function ExitStop(t: Tree, s: State, next: State): (e: State)
    requires InTree(t, s) && InTree(t, next)
    ensures e <= s
    decreases s
  {
    if s == 0 || !Leaves(t, s, next) then s else ExitStop(t, t.parent[s], next)
  }

  ghost function EntryStop(t: Tree, s: State, previous: State, first: bool): (e: State)
    requires InTree(t, s) && InTree(t, previous)
    ensures e <= s
    decreases s
  {
    if s == 0 || (!first && IsChild(t, previous, s)) then s else EntryStop(t, t.parent[s], previous, false)
  }

  lemma {:induction false} ReplayExits(t: Tree, log: seq<Action>, s: State, next: State)
    requires InTree(t, s) && InTree(t, next) && Replay(t, log) == Some(Chain(t, s))
    ensures Replay(t, log + Exits(t, s, next)) == Some(Chain(t, ExitStop(t, s, next)))
    decreases s
  {
    if s == 0 || !Leaves(t, s, next) {
      assert log + [] == log;
    } else {
      ReplayOne(t, log, Exit(s));
      ChainEnds(t, s);
      ReplayExits(t, log + [Exit(s)], t.parent[s], next);
      assert log + [Exit(s)] + Exits(t, t.parent[s], next) == log + ([Exit(s)] + Exits(t, t.parent[s], next));
    }
  }

  lemma {:induction false} ReplayEntries(t: Tree, log: seq<Action>, s: State, previous: State, first: bool)
    requires InTree(t, s) && InTree(t, previous)
    requires Replay(t, log) == Some(Chain(t, EntryStop(t, s, previous, first)))
    ensures Replay(t, log + Entries(t, s, previous, first)) == Some(Chain(t, s))
    decreases s
  {
    if s == 0 || (!first && IsChild(t, previous, s)) {
      assert log + [] == log;
    } else {
      var p := t.parent[s];
      var up := Entries(t, p, previous, false);
      ReplayEntries(t, log, p, previous, false);
      ReplayOne(t, log + up, Enter(s));
      ChainEnds(t, p);
      assert log + up + [Enter(s)] == log + (up + [Enter(s)]);
    }
  }

  lemma {:induction false} ExitStopIs(t: Tree, s: State, next: State, a: State)
    requires InTree(t, s) && InTree(t, next)
    ensures var e := ExitStop(t, s, next);
      IsChild(t, s, e) && (e == 0 || !Leaves(t, e, next))
      && (IsChild(t, s, a) && (a == 0 || !Leaves(t, a, next)) ==> a <= e)
    decreases s
  {
    if s != 0 && Leaves(t, s, next) {
      ExitStopIs(t, t.parent[s], next, a);
    } else if IsChild(t, s, a) {
      ChildIsHigher(t, s, a);
    }
  }

  lemma {:induction false} EntryStopIs(t: Tree, s: State, previous: State, first: bool, a: State)
    requires InTree(t, s) && InTree(t, previous)
    ensures var e := EntryStop(t, s, previous, first);
      IsChild(t, s, e) && IsChild(t, previous, e) && (first && s != 0 ==> e != s)
      && (IsChild(t, s, a) && IsChild(t, previous, a) && (first && s != 0 ==> a != s) ==> a <= e)
    decreases s
  {
    UnderRoot(t, previous);
    if s == 0 || (!first && IsChild(t, previous, s)) {
      if IsChild(t, s, a) { ChildIsHigher(t, s, a); }
    } else {
      EntryStopIs(t, t.parent[s], previous, false, a);
    }
  }

  /** Exits stop where entries begin. */
  lemma StopsMeet(t: Tree, s: State, next: State)
    requires InTree(t, s) && InTree(t, next)
    ensures ExitStop(t, s, next) == EntryStop(t, next, s, true)
  {
    var x, e := ExitStop(t, s, next), EntryStop(t, next, s, true);
    ExitStopIs(t, s, next, e);
    EntryStopIs(t, next, s, true, x);
    UnderRoot(t, next);
  }

  /** A transition's exits and entries lead from the one chain to the other. */
  lemma TransitionReplays(t: Tree, log: seq<Action>, s: State, next: State)
    requires InTree(t, s) && InTree(t, next) && Replay(t, log) == Some(Chain(t, s))
    ensures Replay(t, log + Exits(t, s, next) + Entries(t, next, s, true)) == Some(Chain(t, next))
  {
    ReplayExits(t, log, s, next);
    StopsMeet(t, s, next);
    ReplayEntries(t, log + Exits(t, s, next), next, s, true);
  }

  // ----- Boxes and balance -----

  /** The states that have their box after the actions; a persistent or empty one stays. */
  function Boxed(t: Tree, log: seq<Action>): set<State> {
    if log == [] then {}
    else
      var before := Boxed(t, log[..|log| - 1]);
      match log[|log| - 1]
      case Enter(s) => before + {s}
      case Exit(s) => if s < |t.box| && t.box[s] == PlainBox then before - {s} else before
  }

  lemma BoxedOne(t: Tree, log: seq<Action>, a: Action)
    ensures a.Enter? ==> Boxed(t, log + [a]) == Boxed(t, log) + {a.s}
    ensures a.Exit? ==>
      Boxed(t, log + [a]) == if a.s < |t.box| && t.box[a.s] == PlainBox then Boxed(t, log) - {a.s} else Boxed(t, log)
  {
    assert (log + [a])[..|log|] == log;
  }

  /** A state with a box of its own has it exactly while the state is active; so an exit finds it there. */
  lemma {:induction false} BoxWhileActive(t: Tree, log: seq<Action>, s: State)
    requires TreeOk(t) && Replay(t, log).Some? && s < |t.box| && t.box[s] == PlainBox
    ensures s in Boxed(t, log) <==> s in Replay(t, log).value
    ensures OnceEach(t, Replay(t, log).value)
  {
    if log != [] {
      var before, a := log[..|log| - 1], log[|log| - 1];
      BoxWhileActive(t, before, s);
      StackStep(t, Replay(t, before).value, a, s);
    }
  }

  /** Any other box is there from the first entry on. */
  lemma {:induction false} BoxStays(t: Tree, log: seq<Action>, s: State)
    requires s < |t.box| && t.box[s] != PlainBox
    ensures s in Boxed(t, log) <==> Enter(s) in log
  {
    if log != [] {
      BoxStays(t, log[..|log| - 1], s);
      assert log == log[..|log| - 1] + [log[|log| - 1]];
    }
  }

  /** Every state in the stack but the first has the one before it as its parent. */
  ghost predicate OnceEach(t: Tree, stack: seq<State>)
    requires TreeOk(t)
  {
    (forall i :: 0 <= i < |stack| ==> stack[i] < |t.parent|)
    && forall i, j :: 0 <= i < j < |stack| ==> stack[i] < stack[j]
  }

  lemma StackStep(t: Tree, stack: seq<State>, a: Action, s: State)
    requires TreeOk(t) && OnceEach(t, stack) && After(t, stack, a).Some?
    ensures var stack' := After(t, stack, a).value;
      OnceEach(t, stack')
      && (s in stack' <==> if a == Enter(s) then true else if a == Exit(s) then false else s in stack)
      && (a == Enter(s) ==> s !in stack) && (a == Exit(s) ==> s in stack)
  {
    var stack' := After(t, stack, a).value;
    match a
    case Enter(e) =>
      assert forall i :: 0 <= i < |stack| ==> stack[i] <= Innermost(stack) < e;
      assert stack' == stack + [e];
    case Exit(e) =>
      assert stack == stack' + [e];
  }

  function Count(log: seq<Action>, a: Action): nat {
    if log == [] then 0 else Count(log[..|log| - 1], a) + (if log[|log| - 1] == a then 1 else 0)
  }

  /** A state has been entered as often as exited, and once more if it is active. */
  lemma {:induction false} EntriesBalance(t: Tree, log: seq<Action>, s: State)
    requires TreeOk(t) && Replay(t, log).Some?
    ensures Count(log, Enter(s)) == Count(log, Exit(s)) + (if s in Replay(t, log).value then 1 else 0)
    ensures OnceEach(t, Replay(t, log).value)
  {
    if log != [] {
      var before, a := log[..|log| - 1], log[|log| - 1];
      EntriesBalance(t, before, s);
      StackStep(t, Replay(t, before).value, a, s);
    }
  }
}
