/** What a machine of hierarchical states does: transitions, the history they save, and chains of init actions. */
module MachineSteps {
  import opened Options
  import opened StateMachines

  type Histories = seq<Option<State>>

  /** How a new state is initialized: its init action, its history if there is one, or an init with parameters. */
  datatype Initializer = Default | History | WithParameters

  /** A pending transition. */
  datatype Target = Target(state: State, init: Initializer)

  datatype Configuration = Configuration(current: State, history: Histories, log: seq<Action>)

  /** A recorded history is a proper substate. */
  ghost predicate HistoryOk(t: Tree, h: Histories)
    requires TreeOk(t)
  {
    |h| == |t.parent|
    && forall a :: 0 <= a < |h| && h[a].Some? ==> InTree(t, h[a].value) && IsProper(t, h[a].value, a)
  }

  ghost predicate ConfigurationOk(t: Tree, m: Configuration) {
    InTree(t, m.current) && HistoryOk(t, m.history)
  }

  // ----- Saving history -----

  /** Whether history is still asked for at `s` or above; else bubbling up ends there. */
  predicate Bubbles(t: Tree, s: State)
    requires InTree(t, s)
    decreases s
  {
    t.kind[s] != NoHistory || (s != 0 && Bubbles(t, t.parent[s]))
  }

  /** The histories after the superstates of `self` have recorded that `deep` was left. */
  function Saved(t: Tree, h: Histories, self: State, deep: State): (r: Histories)
    requires InTree(t, self) && |h| == |t.parent|
    ensures |r| == |h|
    decreases self, 1
  {
    if self == 0 then h else SavedAt(t, h, t.parent[self], self, deep)
  }

  function SavedAt(t: Tree, h: Histories, p: State, shallow: State, deep: State): (r: Histories)
    requires InTree(t, p) && |h| == |t.parent|
    ensures |r| == |h|
    decreases p, 2
  {
    match t.kind[p]
    case NoHistory => if Bubbles(t, p) then Saved(t, h, p, deep) else h
    case Shallow => var h' := h[p := Some(shallow)]; if Bubbles(t, t.parent[p]) then Saved(t, h', p, deep) else h'
    case Deep => var h' := h[p := Some(deep)]; if Bubbles(t, t.parent[p]) then Saved(t, h', p, deep) else h'
  }

  /** The direct substate of `a` on the way to `s`. */
  function Toward(t: Tree, s: State, a: State): (c: State)
    requires InTree(t, s) && s != 0
    decreases s
  {
    if t.parent[s] == a || t.parent[s] == 0 then s else Toward(t, t.parent[s], a)
  }

  lemma {:induction false} TowardIsChild(t: Tree, s: State, a: State)
    requires InTree(t, s) && IsProper(t, s, a)
    ensures s != 0 && var c := Toward(t, s, a);
      InTree(t, c) && c != 0 && t.parent[c] == a && IsChild(t, s, c) && IsProper(t, c, a)
    decreases s
  {
    if s != 0 && t.parent[s] != a {
      TowardIsChild(t, t.parent[s], a);
    }
    if s != 0 && t.parent[s] == a { assert IsChild(t, a, a); }
  }

  lemma {:induction false} NoneAbove(t: Tree, s: State, a: State)
    requires InTree(t, s) && !Bubbles(t, s) && IsChild(t, s, a)
    ensures a < |t.parent| && t.kind[a] == NoHistory
    decreases s
  {
    if s != a { NoneAbove(t, t.parent[s], a); }
  }

  /** What a state's record is after `deep`, at or below `self`, was left. */
  function Record(t: Tree, h: Histories, self: State, deep: State, a: State): Option<State>
    requires InTree(t, self) && InTree(t, a) && |h| == |t.parent|
  {
    if a == self || !IsChild(t, self, a) then h[a]
    else
      match t.kind[a]
      case NoHistory => h[a]
      case Shallow => if self == 0 then h[a] else Some(Toward(t, self, a))
      case Deep => Some(deep)
  }

  /** Exactly the states above `self` that keep history record it: the deep ones `deep`, the others their substate. */
  lemma {:induction false} SavedIs(t: Tree, h: Histories, self: State, deep: State, a: State)
    requires InTree(t, self) && InTree(t, a) && |h| == |t.parent|
    ensures Saved(t, h, self, deep)[a] == Record(t, h, self, deep, a)
    decreases self
  {
    if self != 0 {
      var p := t.parent[self];
      ParentIsNotBelow(t, self);
      assert IsChild(t, self, a) <==> self == a || IsChild(t, p, a);
      assert IsProper(t, self, a) && p != a ==> p != 0 && Toward(t, self, a) == Toward(t, p, a);
      var h' := match t.kind[p]
        case Shallow => h[p := Some(self)]
        case Deep => h[p := Some(deep)]
        case NoHistory => h;
      if t.kind[p] == NoHistory && !Bubbles(t, p) {
        if IsChild(t, p, a) { NoneAbove(t, p, a); }
      } else if t.kind[p] != NoHistory && !Bubbles(t, t.parent[p]) {
        assert IsChild(t, p, a) <==> p == a || IsChild(t, t.parent[p], a);
        if IsChild(t, t.parent[p], a) { NoneAbove(t, t.parent[p], a); }
      } else {
        SavedIs(t, h', p, deep, a);
      }
    }
  }

  lemma ParentIsNotBelow(t: Tree, s: State)
    requires InTree(t, s) && s != 0
    ensures !IsChild(t, t.parent[s], s)
  {
    if IsChild(t, t.parent[s], s) { ChildIsHigher(t, t.parent[s], s); }
  }

  lemma SavedOk(t: Tree, h: Histories, s: State)
    requires InTree(t, s) && HistoryOk(t, h)
    ensures HistoryOk(t, Saved(t, h, s, s))
  {
    var r := Saved(t, h, s, s);
    forall a | 0 <= a < |r| && r[a].Some? ensures InTree(t, r[a].value) && IsProper(t, r[a].value, a) {
      SavedIs(t, h, s, s, a);
      if a != s && IsChild(t, s, a) { TowardIsChild(t, s, a); }
    }
  }

  // ----- Transitions -----

  /** Exits, history, and entries. */
  function Goes(t: Tree, m: Configuration, next: State): Configuration
    requires InTree(t, m.current) && InTree(t, next) && |m.history| == |t.parent|
  {
    Configuration(next, Saved(t, m.history, m.current, m.current),
                  m.log + Exits(t, m.current, next) + Entries(t, next, m.current, true))
  }

  /** The new state's history is forgotten, whether it was used or not, unless its init takes parameters. */
  function Forgotten(m: Configuration, how: Initializer): Configuration
    requires m.current < |m.history|
  {
    if how == WithParameters then m else m.(history := m.history[m.current := None])
  }

  /** Where the initializer sends the machine next, if anywhere; `user` is what the init action would ask for. */
  function InitTarget(m: Configuration, how: Initializer, user: Option<Target>): Option<Target>
    requires m.current < |m.history|
  {
    if how == History && m.history[m.current].Some? then Some(Target(m.history[m.current].value, Default)) else user
  }

  /** What init actions may ask for: a proper substate, nothing in Root. The second argument is the log's length. */
  ghost predicate InitsOk(t: Tree, inits: (State, nat) -> Option<Target>)
    requires TreeOk(t)
  {
    (forall k :: inits(0, k) == None)
    && forall s: State, k: nat :: s < |t.parent| && inits(s, k).Some? ==>
         InTree(t, inits(s, k).value.state) && IsProper(t, inits(s, k).value.state, s)
  }

  function Step(t: Tree, m: Configuration, target: Target): Configuration
    requires InTree(t, m.current) && InTree(t, target.state) && |m.history| == |t.parent|
  {
    Forgotten(Goes(t, m, target.state), target.init)
  }

  lemma StepOk(t: Tree, m: Configuration, target: Target)
    requires ConfigurationOk(t, m) && InTree(t, target.state)
    ensures ConfigurationOk(t, Goes(t, m, target.state)) && ConfigurationOk(t, Step(t, m, target))
  {
    SavedOk(t, m.history, m.current);
  }

  function Pending(t: Tree, inits: (State, nat) -> Option<Target>, m: Configuration, target: Target): Option<Target>
    requires InTree(t, m.current) && InTree(t, target.state) && |m.history| == |t.parent|
  {
    var m' := Goes(t, m, target.state);
    InitTarget(m', target.init, inits(target.state, |m'.log|))
  }

  lemma PendingIsProper(t: Tree, inits: (State, nat) -> Option<Target>, m: Configuration, target: Target)
    requires ConfigurationOk(t, m) && InTree(t, target.state) && InitsOk(t, inits)
    ensures var p := Pending(t, inits, m, target);
      p.Some? ==> InTree(t, p.value.state) && IsProper(t, p.value.state, target.state) && p.value.state > target.state
  {
    StepOk(t, m, target);
    var p := Pending(t, inits, m, target);
    if p.Some? { ChildIsHigher(t, p.value.state, target.state); }
  }

  /** The pending transition and those that init actions and histories add, down to a state that asks for none. */
  ghost function Rattle(t: Tree, inits: (State, nat) -> Option<Target>, m: Configuration,
                        target: Target): (r: Configuration)
    requires ConfigurationOk(t, m) && InTree(t, target.state) && InitsOk(t, inits)
    ensures ConfigurationOk(t, r)
    decreases |t.parent| - target.state
  {
    StepOk(t, m, target);
    PendingIsProper(t, inits, m, target);
    var p := Pending(t, inits, m, target);
    if p.None? then Step(t, m, target) else Rattle(t, inits, Step(t, m, target), p.value)
  }

  // ----- What a transition does -----

  /**
   * A transition leads to its target, with the histories of the states left recorded. The target's own history is
   * used up, unless its init takes parameters.
   */
  lemma TransitionGoes(t: Tree, m: Configuration, target: Target, a: State)
    requires InTree(t, m.current) && InTree(t, target.state) && InTree(t, a) && |m.history| == |t.parent|
    ensures var m' := Step(t, m, target);
      m'.current == target.state && |m'.history| == |t.parent|
      && m'.log == m.log + Exits(t, m.current, target.state) + Entries(t, target.state, m.current, true)
      && m'.history[a] == if a == target.state && target.init != WithParameters then None
                          else Record(t, m.history, m.current, m.current, a)
  {
    SavedIs(t, m.history, m.current, m.current, a);
  }

  /**
   * What comes next: the history recorded at the target if the transition asks for it and it is there, and otherwise
   * what the target's init action asks for after all exits and entries.
   */
  lemma InitIsObeyed(t: Tree, inits: (State, nat) -> Option<Target>, m: Configuration, target: Target)
    requires InTree(t, m.current) && InTree(t, target.state) && |m.history| == |t.parent|
    ensures var recorded := Record(t, m.history, m.current, m.current, target.state);
      Pending(t, inits, m, target) ==
        if target.init == History && recorded.Some? then Some(Target(recorded.value, Default))
        else inits(target.state, |Step(t, m, target).log|)
  {
    SavedIs(t, m.history, m.current, m.current, target.state);
  }

  /** A transition with all that follows ends at rest: the init action of the state it ends in asks for nothing. */
  lemma {:induction false} RattleRests(t: Tree, inits: (State, nat) -> Option<Target>, m: Configuration, target: Target)
    requires ConfigurationOk(t, m) && InTree(t, target.state) && InitsOk(t, inits)
    ensures var r := Rattle(t, inits, m, target); inits(r.current, |r.log|) == None
    decreases |t.parent| - target.state
  {
    StepOk(t, m, target);
    PendingIsProper(t, inits, m, target);
    var p := Pending(t, inits, m, target);
    if p.Some? { RattleRests(t, inits, Step(t, m, target), p.value); }
  }

  // ----- Runs -----

  /** The actions so far are those of being in the current state. */
  ghost predicate Consistent(t: Tree, m: Configuration) {
    ConfigurationOk(t, m) && Replay(t, m.log) == Some(Chain(t, m.current))
  }

  lemma StepConsistent(t: Tree, m: Configuration, target: Target)
    requires Consistent(t, m) && InTree(t, target.state)
    ensures Consistent(t, Step(t, m, target))
  {
    StepOk(t, m, target);
    TransitionReplays(t, m.log, m.current, target.state);
  }

  lemma {:induction false} RattleConsistent(t: Tree, inits: (State, nat) -> Option<Target>, m: Configuration,
                                            target: Target)
    requires Consistent(t, m) && InTree(t, target.state) && InitsOk(t, inits)
    ensures Consistent(t, Rattle(t, inits, m, target))
    ensures IsChild(t, Rattle(t, inits, m, target).current, target.state)
    decreases |t.parent| - target.state
  {
    StepConsistent(t, m, target);
    PendingIsProper(t, inits, m, target);
    var p := Pending(t, inits, m, target);
    if p.Some? {
      RattleConsistent(t, inits, Step(t, m, target), p.value);
      ChildTransitive(t, Rattle(t, inits, m, target).current, p.value.state, target.state);
    }
  }

  /** What a user does with a machine: a transition, or clearing a state's history. */
  datatype Operation = SetState(target: Target) | ClearHistory(s: State)

  ghost predicate OperationOk(t: Tree, op: Operation) {
    match op
    case SetState(target) => InTree(t, target.state)
    case ClearHistory(s) => InTree(t, s)
  }

  ghost function Perform(t: Tree, inits: (State, nat) -> Option<Target>, m: Configuration, op: Operation): Configuration
    requires ConfigurationOk(t, m) && InitsOk(t, inits) && OperationOk(t, op)
    ensures ConfigurationOk(t, Perform(t, inits, m, op))
  {
    match op
    case SetState(target) => Rattle(t, inits, m, target)
    case ClearHistory(s) => m.(history := m.history[s := None])
  }

  ghost function RunFrom(t: Tree, inits: (State, nat) -> Option<Target>, m: Configuration,
                         ops: seq<Operation>): Configuration
    requires ConfigurationOk(t, m) && InitsOk(t, inits) && forall i :: 0 <= i < |ops| ==> OperationOk(t, ops[i])
    ensures ConfigurationOk(t, RunFrom(t, inits, m, ops))
  {
    if ops == [] then m
    else Perform(t, inits, RunFrom(t, inits, m, ops[..|ops| - 1]), ops[|ops| - 1])
  }

  function Fresh(t: Tree): Configuration {
    Configuration(0, seq(|t.parent|, i => None), [])
  }

  /** Through every run, the states entered and not yet exited are exactly the current state's chain below Root. */
  lemma {:induction false} RunIsConsistent(t: Tree, inits: (State, nat) -> Option<Target>, ops: seq<Operation>)
    requires TreeOk(t) && InitsOk(t, inits) && forall i :: 0 <= i < |ops| ==> OperationOk(t, ops[i])
    ensures ConfigurationOk(t, Fresh(t)) && Consistent(t, RunFrom(t, inits, Fresh(t), ops))
  {
    if ops != [] {
      var op := ops[|ops| - 1];
      RunIsConsistent(t, inits, ops[..|ops| - 1]);
      var m := RunFrom(t, inits, Fresh(t), ops[..|ops| - 1]);
      if op.SetState? { RattleConsistent(t, inits, m, op.target); }
    }
  }

  /** Going to Root, as a shutdown does, leaves every state exited as often as it was entered. */
  lemma ShutdownExitsAll(t: Tree, inits: (State, nat) -> Option<Target>, m: Configuration, s: State)
    requires Consistent(t, m) && InitsOk(t, inits)
    ensures var m' := Rattle(t, inits, m, Target(0, Default));
      m'.current == 0 && Replay(t, m'.log) == Some([]) && Count(m'.log, Enter(s)) == Count(m'.log, Exit(s))
  {
    RattleConsistent(t, inits, m, Target(0, Default));
    var m' := Rattle(t, inits, m, Target(0, Default));
    assert m' == Step(t, m, Target(0, Default));
    EntriesBalance(t, m'.log, s);
  }

  // ----- History restored -----

  /** The single moves that runs are made of. */
  datatype Move = To(target: Target) | Forget(s: State)

  ghost predicate MoveOk(t: Tree, move: Move) {
    match move
    case To(target) => InTree(t, target.state)
    case Forget(s) => InTree(t, s)
  }

  function Moved(t: Tree, m: Configuration, move: Move): (r: Configuration)
    requires InTree(t, m.current) && |m.history| == |t.parent| && MoveOk(t, move)
    ensures InTree(t, r.current) && |r.history| == |t.parent|
  {
    match move
    case To(target) => Step(t, m, target)
    case Forget(s) => m.(history := m.history[s := None])
  }

  ghost function Moves(t: Tree, m: Configuration, moves: seq<Move>): (r: Configuration)
    requires InTree(t, m.current) && |m.history| == |t.parent| && forall i :: 0 <= i < |moves| ==> MoveOk(t, moves[i])
    ensures InTree(t, r.current) && |r.history| == |t.parent|
  {
    if moves == [] then m else Moved(t, Moves(t, m, moves[..|moves| - 1]), moves[|moves| - 1])
  }

  /** A transition with all that init actions add is a sequence of moves, each to what the one before leaves pending. */
  lemma {:induction false} RattleIsMoves(t: Tree, inits: (State, nat) -> Option<Target>, m: Configuration,
                                         target: Target)
    returns (moves: seq<Move>)
    requires ConfigurationOk(t, m) && InTree(t, target.state) && InitsOk(t, inits)
    ensures moves != [] && moves[0] == To(target)
    ensures forall i :: 0 <= i < |moves| ==> MoveOk(t, moves[i]) && moves[i].To?
    ensures Moves(t, m, moves) == Rattle(t, inits, m, target)
    ensures forall i :: 0 < i < |moves| ==> IsProper(t, moves[i].target.state, moves[i - 1].target.state)
    ensures forall i :: 0 < i < |moves| ==> Follows(t, inits, m, moves, i)
    decreases |t.parent| - target.state
  {
    StepOk(t, m, target);
    PendingIsProper(t, inits, m, target);
    var p := Pending(t, inits, m, target);
    moves := [To(target)];
    MovesOne(t, m, To(target));
    if p.Some? {
      var rest := RattleIsMoves(t, inits, Step(t, m, target), p.value);
      MovesJoin(t, m, [To(target)], rest);
      moves := [To(target)] + rest;
      forall i | 0 < i < |moves| ensures Follows(t, inits, m, moves, i) {
        FollowsLater(t, inits, m, target, rest, i);
      }
    }
  }

  /** The `i`th move is to what the move before it leaves pending. */
  ghost predicate Follows(t: Tree, inits: (State, nat) -> Option<Target>, m: Configuration, moves: seq<Move>, i: nat)
    requires InTree(t, m.current) && |m.history| == |t.parent| && 0 < i < |moves|
    requires forall k :: 0 <= k < |moves| ==> MoveOk(t, moves[k]) && moves[k].To?
  {
    assert MoveOk(t, moves[i - 1]) && moves[i - 1].To?;
    Pending(t, inits, Moves(t, m, moves[..i - 1]), moves[i - 1].target) == Some(moves[i].target)
  }

  lemma FollowsLater(t: Tree, inits: (State, nat) -> Option<Target>, m: Configuration, target: Target,
                     rest: seq<Move>, i: nat)
    requires ConfigurationOk(t, m) && InTree(t, target.state) && rest != [] && 0 < i < |rest| + 1
    requires forall k :: 0 <= k < |rest| ==> MoveOk(t, rest[k]) && rest[k].To?
    requires Pending(t, inits, m, target) == Some(rest[0].target)
    requires i > 1 ==> Follows(t, inits, Step(t, m, target), rest, i - 1)
    ensures Follows(t, inits, m, [To(target)] + rest, i)
  {
    var moves := [To(target)] + rest;
    if i == 1 {
      assert moves[..0] == [];
    } else {
      MovesOne(t, m, To(target));
      MovesJoin(t, m, [To(target)], rest[..i - 2]);
      assert moves[..i - 1] == [To(target)] + rest[..i - 2];
    }
  }

  lemma MovesOne(t: Tree, m: Configuration, move: Move)
    requires InTree(t, m.current) && |m.history| == |t.parent| && MoveOk(t, move)
    ensures Moves(t, m, [move]) == Moved(t, m, move)
  {
    assert [move][..0] == [];
  }

  lemma {:induction false} MovesJoin(t: Tree, m: Configuration, a: seq<Move>, b: seq<Move>)
    requires InTree(t, m.current) && |m.history| == |t.parent|
    requires (forall i :: 0 <= i < |a| ==> MoveOk(t, a[i])) && (forall i :: 0 <= i < |b| ==> MoveOk(t, b[i]))
    ensures Moves(t, m, a + b) == Moves(t, Moves(t, m, a), b)
    decreases |b|
  {
    if b == [] {
      assert a + b == a;
    } else {
      MovesJoin(t, m, a, b[..|b| - 1]);
      assert (a + b)[..|a + b| - 1] == a + b[..|b| - 1];
    }
  }

  /** A move that stays out of `s`: not to it or a substate, and not clearing its history. */
  ghost predicate Outside(t: Tree, move: Move, s: State) {
    MoveOk(t, move)
    && match move
      case To(target) => !IsChild(t, target.state, s)
      case Forget(a) => a != s
  }

  /** What a state remembers of having been left from `c`. */
  function Remembered(t: Tree, s: State, c: State): State
    requires InTree(t, s) && InTree(t, c)
  {
    if t.kind[s] == Shallow && c != 0 then Toward(t, c, s) else c
  }

  /**
   * A state with history that was left from its substate `c` remembers it through any number of moves that
   * stay out of it; a history transition then goes next to `c` (deep) or to its direct substate on the way (shallow).
   */
  lemma {:induction false} HistoryRestored(t: Tree, inits: (State, nat) -> Option<Target>, m: Configuration, s: State,
                                           c: State, moves: seq<Move>)
    requires InTree(t, s) && InTree(t, c) && IsProper(t, c, s) && t.kind[s] != NoHistory
    requires m.current == c && |m.history| == |t.parent|
    requires moves != [] && moves[0].To?
    requires forall i :: 0 <= i < |moves| ==> MoveOk(t, moves[i]) && Outside(t, moves[i], s)
    ensures var m' := Moves(t, m, moves);
      m'.history[s] == Some(Remembered(t, s, c)) && !IsChild(t, m'.current, s)
      && Pending(t, inits, m', Target(s, History)) == Some(Target(Remembered(t, s, c), Default))
    decreases |moves|
  {
    var before, move := moves[..|moves| - 1], moves[|moves| - 1];
    var m1 := Moves(t, m, before);
    var m' := Moves(t, m, moves);
    if before == [] {
      SavedIs(t, m.history, c, c, s);
      ChildIsHigher(t, c, s);
    } else {
      HistoryRestored(t, inits, m, s, c, before);
      SavedIs(t, m1.history, m1.current, m1.current, s);
    }
    SavedIs(t, m'.history, m'.current, m'.current, s);
  }
}

/** The machine object. */
module Machines {
  import opened Options
  import opened StateMachines
  import opened Steps = MachineSteps

  class Machine {
    const tree: Tree
    const inits: (State, nat) -> Option<Target>
    var current: Option<State>
    var pending: Option<Target>
    var history: Histories
    var boxes: set<State>
    var log: seq<Action>

    ghost predicate Valid()
      reads this
    {
      TreeOk(tree) && InitsOk(tree, inits) && HistoryOk(tree, history) && boxes == Boxed(tree, log)
      && (current.Some? ==> InTree(tree, current.value))
      && (pending.Some? ==> InTree(tree, pending.value.state))
    }

    ghost function View(): Configuration
      requires current.Some?
      reads this
    {
      Configuration(current.value, history, log)
    }

    constructor (tree: Tree, inits: (State, nat) -> Option<Target>)
      requires TreeOk(tree) && InitsOk(tree, inits)
      ensures this.tree == tree && this.inits == inits
      ensures Valid() && current == None && pending == None && log == [] && history == Fresh(tree).history
      ensures boxes == {} && forall a :: 0 <= a < |history| ==> history[a] == None
    {
      this.tree, this.inits := tree, inits;
      current, pending, log, boxes := None, None, [], {};
      history := seq(|tree.parent|, i => None);
    }

    /** Exit actions from `s` upwards, with the boxes deleted. */
    method Exit(s: State, next: State)
      requires InTree(tree, s) && InTree(tree, next) && boxes == Boxed(tree, log)
      modifies this`log, this`boxes
      ensures boxes == Boxed(tree, log) && log == old(log) + Exits(tree, s, next)
      decreases s
    {
      hide Boxed, IsChild;
      if s == 0 {
        return;
      }
      if s == next || !IsChild(tree, next, s) {
        BoxedOne(tree, log, StateMachines.Exit(s));
        log := log + [StateMachines.Exit(s)];
        if tree.box[s] == PlainBox {
          boxes := boxes - {s};
        }
        Exit(tree.parent[s], next);
        assert log == old(log) + ([StateMachines.Exit(s)] + Exits(tree, tree.parent[s], next));
      }
    }

    /** Entry actions down to `s`, with the boxes created. */
    method Entry(s: State, previous: State, first: bool)
      requires InTree(tree, s) && InTree(tree, previous) && boxes == Boxed(tree, log)
      modifies this`log, this`boxes
      ensures boxes == Boxed(tree, log) && log == old(log) + Entries(tree, s, previous, first)
      decreases s
    {
      if s == 0 {
        return;
      }
      if first || !IsChild(tree, previous, s) {
        Entry(tree.parent[s], previous, false);
        BoxedOne(tree, log, Enter(s));
        if s !in boxes {
          boxes := boxes + {s};
        }
        log := log + [Enter(s)];
        assert log == old(log) + (Entries(tree, tree.parent[s], previous, false) + [Enter(s)]);
      }
    }

    method SetHistorySuper(self: State, deep: State)
      requires TreeOk(tree) && |history| == |tree.parent| && InTree(tree, self)
      modifies this`history
      ensures history == Saved(tree, old(history), self, deep)
      decreases self, 1
    {
      if self != 0 {
        SaveHistory(tree.parent[self], self, deep);
      }
    }

    /** A superstate records by its strategy and lets those above it record. */
    method SaveHistory(p: State, shallow: State, deep: State)
      requires TreeOk(tree) && |history| == |tree.parent| && InTree(tree, p)
      modifies this`history
      ensures history == SavedAt(tree, old(history), p, shallow, deep)
      decreases p, 2
    {
      match tree.kind[p] {
        case NoHistory =>
          if Bubbles(tree, p) { SetHistorySuper(p, deep); }
        case Shallow =>
          history := history[p := Some(shallow)];
          if Bubbles(tree, tree.parent[p]) { SetHistorySuper(p, deep); }
        case Deep =>
          history := history[p := Some(deep)];
          if Bubbles(tree, tree.parent[p]) { SetHistorySuper(p, deep); }
      }
    }

    method SetPendingState(target: Target)
      requires pending == None || pending == Some(target)
      modifies this`pending
      ensures pending == Some(target)
    {
      pending := Some(target);
    }

    /** The state's own init action, which may ask for a proper substate. */
    method UserInit(s: State)
      requires Valid() && pending == None && InTree(tree, s)
      modifies this`pending
      ensures Valid() && pending == inits(s, |log|)
    {
      var target := inits(s, |log|);
      if target.Some? {
        SetPendingState(target.value);
      }
    }

    method Init(s: State, useHistory: bool)
      requires Valid() && pending == None && InTree(tree, s)
      modifies this`pending, this`history
      ensures Valid()
      ensures pending ==
        if useHistory && old(history)[s].Some? then Some(Target(old(history)[s].value, Default)) else inits(s, |log|)
      ensures history == old(history)[s := None]
    {
      if useHistory && history[s].Some? {
        SetPendingState(Target(history[s].value, Default));
      } else {
        UserInit(s);
      }
      history := history[s := None];
    }

    /** One pending transition: exits, history, entries, and the init action, which may leave another one pending. */
    method Transit()
      requires Valid() && current.Some? && pending.Some?
      modifies this
      ensures Valid() && current.Some?
      ensures View() == Step(tree, old(View()), old(pending).value)
      ensures pending == Pending(tree, inits, old(View()), old(pending).value)
    {
      var target := pending.value;
      ghost var m := View();
      Exit(current.value, target.state);
      SetHistorySuper(current.value, current.value);
      var previous := current.value;
      current := Some(target.state);
      Entry(target.state, previous, true);
      SavedOk(tree, m.history, previous);
      assert View() == Goes(tree, m, target.state);
      pending := None;
      match target.init {
        case Default => Init(target.state, false);
        case History => Init(target.state, true);
        case WithParameters => UserInit(target.state);
      }
    }

    /** Performs the pending transition, and those that init actions ask for. */
    method RattleOn()
      requires Valid() && current.Some?
      modifies this
      ensures Valid() && current.Some? && pending == None
      ensures View() == if old(pending).None? then old(View()) else Rattle(tree, inits, old(View()), old(pending).value)
    {
      ghost var m, p := View(), pending;
      while pending.Some?
        invariant Valid() && current.Some?
        invariant (if p.None? then m else Rattle(tree, inits, m, p.value))
          == if pending.None? then View() else Rattle(tree, inits, View(), pending.value)
        decreases if pending.Some? then |tree.parent| - pending.value.state else 0
      {
        PendingIsProper(tree, inits, View(), pending.value);
        Transit();
      }
    }

    method SetState(target: Target)
      requires Valid() && current.Some? && pending == None && InTree(tree, target.state)
      modifies this
      ensures Valid() && current.Some? && pending == None
      ensures View() == Rattle(tree, inits, old(View()), target)
    {
      SetPendingState(target);
      RattleOn();
    }

    /** Starts in Root and goes to the start state. */
    method Start(state: State)
      requires Valid() && pending == None && InTree(tree, state)
      modifies this
      ensures Valid() && current.Some? && pending == None
      ensures View() == Rattle(tree, inits, Configuration(0, old(history), old(log)), Target(state, Default))
    {
      current := Some(0);
      SetState(Target(state, Default));
    }

    /** Exits every state by going to Root. */
    method Shutdown()
      requires Valid() && current.Some? && pending == None
      modifies this
      ensures Valid() && current == None && pending == None
      ensures log == Rattle(tree, inits, old(View()), Target(0, Default)).log
    {
      SetState(Target(0, Default));
      current := None;
    }

    /** Clears the history of a state and of all its substates. */
    method ClearHistoryDeep(s: State)
      requires Valid() && InTree(tree, s)
      modifies this`history
      ensures Valid()
      ensures forall a :: 0 <= a < |history| ==> history[a] == if IsChild(tree, a, s) then None else old(history)[a]
    {
      var i := 0;
      while i < |tree.parent|
        invariant i <= |tree.parent| && Valid()
        invariant forall a :: 0 <= a < |history| ==>
          history[a] == if a < i && IsChild(tree, a, s) then None else old(history)[a]
      {
        if IsChild(tree, i, s) {
          history := history[i := None];
        }
        i := i + 1;
      }
    }
  }
}
