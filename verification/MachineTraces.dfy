/** What every run of a hierarchical state machine keeps: the trace of actions is a stack discipline,
    the boxes follow it, and histories lead back. */
module MachineTraces {
  import opened StateTrees
  import opened MachineRuns
  import opened Sequences

  function Top(stack: seq<State>): State {
    if stack == [] then Root else stack[|stack| - 1]
  }

  /** Runs a trace on a stack of entered states: a state is entered only on top of its superstate, left
      only from the top, and only the top state is initialized. */
  function Replay(trace: seq<Action>, stack: seq<State>): Option<seq<State>>
    decreases |trace|
  {
    if trace == [] then Some(stack)
    else match trace[0]
      case Enter(s) => if s.Sub? && s.super == Top(stack) then Replay(trace[1..], stack + [s]) else None
      case Leave(s) => if stack != [] && Top(stack) == s then Replay(trace[1..], stack[..|stack| - 1]) else None
      case Begin(s) => if s == Top(stack) then Replay(trace[1..], stack) else None
  }

  lemma {:induction false} ReplayAppend(a: seq<Action>, b: seq<Action>, stack: seq<State>)
    ensures Replay(a, stack).None? ==> Replay(a + b, stack).None?
    ensures Replay(a, stack).Some? ==> Replay(a + b, stack) == Replay(b, Replay(a, stack).value)
    decreases |a|
  {
    if a == [] {
      assert a + b == b;
    } else {
      assert (a + b)[0] == a[0] && (a + b)[1..] == a[1..] + b;
      match a[0]
      case Enter(s) => ReplayAppend(a[1..], b, stack + [s]);
      case Leave(s) => if stack != [] { ReplayAppend(a[1..], b, stack[..|stack| - 1]); }
      case Begin(s) => ReplayAppend(a[1..], b, stack);
    }
  }

  lemma ReplayLeave(s: State, rest: seq<Action>)
    requires s.Sub?
    ensures Replay([Leave(s)] + rest, Path(s)) == Replay(rest, Path(s.super))
  {
    var actions := [Leave(s)] + rest;
    assert actions[0] == Leave(s) && actions[1..] == rest;
    assert Path(s)[..|Path(s)| - 1] == Path(s.super);
  }

  lemma ReplayEnter(s: State, rest: seq<Action>)
    requires s.Sub?
    ensures Replay([Enter(s)] + rest, Path(s.super)) == Replay(rest, Path(s))
  {
    var actions := [Enter(s)] + rest;
    assert actions[0] == Enter(s) && actions[1..] == rest;
    TopOfPath(s.super);
  }

  lemma {:induction false} ReplayExits(s: State, next: State)
    ensures Kept(s, next) <= |Path(s)|
    ensures Replay(Exits(s, next), Path(s)) == Some(Path(s)[..Kept(s, next)])
  {
    hide Replay;
    PathIsChain(s);
    KeptBound(s, next);
    if s.Sub? && (s == next || !IsChild(next, s)) {
      ReplayExits(s.super, next);
      ReplayLeave(s, Exits(s.super, next));
      assert Path(s)[..Kept(s, next)] == Path(s.super)[..Kept(s, next)];
    } else {
      ReplayNothing(Path(s));
      assert Path(s)[..Kept(s, next)] == Path(s);
    }
  }

  lemma ReplayNothing(stack: seq<State>)
    ensures Replay([], stack) == Some(stack)
  {
  }

  lemma {:induction false} PrefixIsPath(s: State, k: nat)
    requires k < |Path(s)|
    ensures Path(s)[k].Sub? && Path(s)[..k + 1] == Path(Path(s)[k]) && Path(s)[..k] == Path(Path(s)[k].super)
  {
    PathIsChain(s);
    if k < |Path(s)| - 1 {
      PrefixIsPath(s.super, k);
      assert Path(s)[..k + 1] == Path(s.super)[..k + 1] && Path(s)[..k] == Path(s.super)[..k];
    } else {
      assert Path(s)[..k + 1] == Path(s);
    }
  }

  lemma {:induction false} ReplayEnters(s: State, from: nat)
    requires from <= |Path(s)|
    ensures Replay(Enters(Path(s)[from..]), Path(s)[..from]) == Some(Path(s))
    decreases |Path(s)| - from
  {
    hide Replay;
    var path := Path(s);
    if from < |path| {
      PrefixIsPath(s, from);
      ReplayEnters(s, from + 1);
      assert Enters(path[from..]) == [Enter(path[from])] + Enters(path[from + 1..]);
      ReplayEnter(path[from], Enters(path[from + 1..]));
    } else {
      ReplayNothing(path);
      assert path[..from] == path && Enters(path[from..]) == [];
    }
  }

  lemma {:induction false} KeptPrefix(s: State, next: State)
    ensures Kept(s, next) <= |Path(s)| && Kept(s, next) <= |Path(next)|
    ensures Path(s)[..Kept(s, next)] == Path(next)[..Kept(s, next)]
  {
    EntriesAreExact(s, next);
    PathIsChain(s);
    KeptBound(s, next);
    if s.Sub? {
      if s != next && IsChild(next, s) {
        PathPrefix(next, s);
      } else {
        KeptPrefix(s.super, next);
      }
    }
  }

  /** One transition replays from the path of the old state to the path of the new one. */
  lemma ReplayStep(s: State, next: State)
    ensures Replay(Exits(s, next) + Entries(next, s, true), Path(s)) == Some(Path(next))
  {
    ReplayExits(s, next);
    EntriesAreExact(s, next);
    KeptPrefix(s, next);
    ReplayEnters(next, Kept(s, next));
    ReplayAppend(Exits(s, next), Entries(next, s, true), Path(s));
  }

  lemma TopOfPath(s: State)
    ensures Top(Path(s)) == s
  {
    PathIsChain(s);
  }

  /** Every state on the path has its box, and a box that does not survive the exit belongs to a state
      on the path, or to the top state when that has yet to be entered. */
  ghost predicate BoxesFit(d: Design, boxes: set<State>, stack: seq<State>, early: bool) {
    && (forall s | s in stack :: s in boxes)
    && (forall s | s in boxes :: s in stack || s in d.persistent || (early && s == d.top))
  }

  /** What holds between events, from the start on. */
  ghost predicate Good(d: Design, c: Config) {
    && Sound(d, c)
    && Replay(c.trace, []) == Some(Path(c.current))
    && BoxesFit(d, c.boxes, Path(c.current), Enter(d.top) !in c.trace)
  }

  lemma {:induction false} BoxesFollow(d: Design, actions: seq<Action>, boxes: set<State>, s: State, early: bool)
    requires Replay(actions, Path(s)).Some? && BoxesFit(d, boxes, Path(s), early)
    ensures BoxesFit(d, BoxesAfter(d, boxes, actions), Replay(actions, Path(s)).value,
                     early && Enter(d.top) !in actions)
    decreases |actions|
  {
    PathIsChain(s);
    if actions != [] {
      var rest := actions[1..];
      assert actions == [actions[0]] + rest;
      match actions[0]
      case Enter(t) =>
        assert Path(s) + [t] == Path(t);
        BoxesFollow(d, rest, boxes + {t}, t, early && t != d.top);
      case Leave(t) =>
        assert t == s && Path(s)[..|Path(s)| - 1] == Path(s.super);
        NotBelowItself(s);
        OnPath(s.super, s);
        var now := if t in d.persistent then boxes else boxes - {t};
        assert BoxesFit(d, now, Path(s.super), early);
        BoxesFollow(d, rest, now, s.super, early);
      case Begin(t) =>
        BoxesFollow(d, rest, boxes, s, early);
    }
  }

  /** The box of a persistent state is there exactly when it was there before or the state has been entered. */
  lemma {:induction false} PersistentBoxesStay(d: Design, boxes: set<State>, actions: seq<Action>, s: State)
    requires s in d.persistent
    ensures s in BoxesAfter(d, boxes, actions) <==> s in boxes || Enter(s) in actions
    decreases |actions|
  {
    if actions != [] {
      var now := match actions[0]
        case Enter(t) => boxes + {t}
        case Leave(t) => if t in d.persistent then boxes else boxes - {t}
        case Begin(_) => boxes;
      assert actions == [actions[0]] + actions[1..];
      PersistentBoxesStay(d, now, actions[1..], s);
    }
  }

  /** Over a request: the trace only grows, and a persistent box is there exactly when it was or was made on the way. */
  lemma {:induction false} RunKeepsPersistent(d: Design, c: Config, r: Option<Request>, s: State)
    requires Sound(d, c) && Targets(d, r) && s in d.persistent
    ensures c.trace <= Run(d, c, r).trace
    ensures s in Run(d, c, r).boxes <==> s in c.boxes || Enter(s) in Run(d, c, r).trace[|c.trace|..]
    decreases if r.Some? then 1 + |Below(d, r.value.target)| else 0
  {
    if r.Some? {
      StepIsSound(d, c, r.value);
      var actions := Exits(c.current, r.value.target) + Entries(r.value.target, c.current, true);
      PersistentBoxesStay(d, c.boxes, actions, s);
      var (b, next) := Begun(d, Step(d, c, r.value.target), r.value.init);
      assert next.None? ==> Run(d, b, next) == b;
      if next.Some? {
        BelowShrinks(d, r.value.target, next.value.target);
        RunKeepsPersistent(d, b, next, s);
      }
      var end := Run(d, c, r);
      assert b.trace[|c.trace|..] == actions || b.trace[|c.trace|..] == actions + [Begin(r.value.target)];
      assert end.trace[|c.trace|..] == b.trace[|c.trace|..] + end.trace[|b.trace|..];
    }
  }

  /** Over any run the box of a persistent state survives: it is there from its first entry on, or from the start when
      it was given. */
  lemma {:induction false} PersistentBoxesSurvive(d: Design, c: Config, events: seq<Request>, s: State)
    requires Sound(d, c) && (forall r | r in events :: r.target in d.states) && s in d.persistent
    ensures c.trace <= RunAll(d, c, events).trace
    ensures s in RunAll(d, c, events).boxes <==>
            s in c.boxes || Enter(s) in RunAll(d, c, events).trace[|c.trace|..]
    decreases |events|
  {
    if events != [] {
      assert events[0] in events;
      var r := Some(events[0]);
      RunKeepsPersistent(d, c, r, s);
      var b, end := Run(d, c, r), RunAll(d, c, events);
      PersistentBoxesSurvive(d, b, events[1..], s);
      assert end.trace[|c.trace|..] == b.trace[|c.trace|..] + end.trace[|b.trace|..];
    }
  }

  lemma StepKeepsGood(d: Design, c: Config, target: State)
    requires Good(d, c) && target in d.states
    ensures Good(d, Step(d, c, target))
  {
    var actions := Exits(c.current, target) + Entries(target, c.current, true);
    SavedIsBelow(d, c.history, c.current, c.current);
    ReplayStep(c.current, target);
    ReplayAppend(c.trace, actions, []);
    BoxesFollow(d, actions, c.boxes, c.current, Enter(d.top) !in c.trace);
  }

  lemma BegunKeepsGood(d: Design, c: Config, init: Init)
    requires Good(d, c)
    ensures Good(d, Begun(d, c, init).0)
  {
    TopOfPath(c.current);
    assert [Begin(c.current)][1..] == [];
    assert Replay([Begin(c.current)], Path(c.current)) == Some(Path(c.current));
    ReplayAppend(c.trace, [Begin(c.current)], []);
  }

  /** Over any run the trace is a stack discipline whose stack is the path to the current state. */
  lemma {:induction false} RunKeepsGood(d: Design, c: Config, r: Option<Request>)
    requires Good(d, c) && Targets(d, r)
    ensures Good(d, Run(d, c, r))
    decreases if r.Some? then 1 + |Below(d, r.value.target)| else 0
  {
    if r.Some? {
      StepIsSound(d, c, r.value);
      StepKeepsGood(d, c, r.value.target);
      BegunKeepsGood(d, Step(d, c, r.value.target), r.value.init);
      var (b, next) := Begun(d, Step(d, c, r.value.target), r.value.init);
      if next.Some? {
        BelowShrinks(d, r.value.target, next.value.target);
        RunKeepsGood(d, b, next);
      }
    }
  }

  /** A machine before its start: at Root, nothing done; the top state's box may have been given. */
  ghost predicate Fresh(d: Design, c: Config) {
    && d.Valid() && c.current == Root && c.history == map[] && c.trace == []
    && c.boxes <= d.persistent + {d.top}
  }

  lemma {:induction false} AllRunsAreGood(d: Design, c: Config, events: seq<Request>)
    requires Good(d, c) && forall r | r in events :: r.target in d.states
    ensures Good(d, RunAll(d, c, events))
    decreases |events|
  {
    if events != [] {
      assert events[0] in events;
      RunKeepsGood(d, c, Some(events[0]));
      AllRunsAreGood(d, Run(d, c, Some(events[0])), events[1..]);
    }
  }

  /** Entries and exits of a state balance, but for the states still on the stack. */
  lemma {:induction false} Balance(trace: seq<Action>, stack: seq<State>, s: State)
    requires Replay(trace, stack).Some?
    ensures multiset(stack)[s] + multiset(trace)[Enter(s)] ==
            multiset(Replay(trace, stack).value)[s] + multiset(trace)[Leave(s)]
    decreases |trace|
  {
    if trace != [] {
      var rest := trace[1..];
      assert trace == [trace[0]] + rest;
      match trace[0]
      case Enter(t) =>
        Balance(rest, stack + [t], s);
      case Leave(t) =>
        assert stack == stack[..|stack| - 1] + [t];
        Balance(rest, stack[..|stack| - 1], s);
      case Begin(t) =>
        Balance(rest, stack, s);
    }
  }

  /** Nothing is taken back from a trace. */
  lemma {:induction false} RunExtendsTrace(d: Design, c: Config, r: Option<Request>)
    requires Sound(d, c) && Targets(d, r)
    ensures c.trace <= Run(d, c, r).trace
    ensures r.Some? ==> Step(d, c, r.value.target).trace <= Run(d, c, r).trace
    decreases if r.Some? then 1 + |Below(d, r.value.target)| else 0
  {
    if r.Some? {
      StepIsSound(d, c, r.value);
      var (b, next) := Begun(d, Step(d, c, r.value.target), r.value.init);
      if next.Some? {
        BelowShrinks(d, r.value.target, next.value.target);
        RunExtendsTrace(d, b, next);
      }
    }
  }

  lemma {:induction false} RunAllExtendsTrace(d: Design, c: Config, events: seq<Request>)
    requires Sound(d, c) && forall r | r in events :: r.target in d.states
    ensures c.trace <= RunAll(d, c, events).trace
    decreases |events|
  {
    if events != [] {
      assert events[0] in events;
      RunExtendsTrace(d, c, Some(events[0]));
      RunAllExtendsTrace(d, Run(d, c, Some(events[0])), events[1..]);
    }
  }

  /** The first transition of a machine enters the top state. */
  lemma StartEntersTop(d: Design, c: Config, target: State)
    requires d.Valid() && c.current == Root && target in d.states && target != Root
    ensures Enter(d.top) in Step(d, c, target).trace
  {
    EntriesAreExact(Root, target);
    OnPath(target, d.top);
    var k :| 0 <= k < |Path(target)| && Path(target)[k] == d.top;
    assert Path(target)[0..] == Path(target);
    assert Entries(target, Root, true)[k] == Enter(d.top);
  }

  /** From the start at some state, through any events, to a shutdown: every entry is matched by one exit,
      nothing is left entered, and no box is left but the surviving ones. */
  lemma ShutdownLeavesAll(d: Design, c: Config, events: seq<Request>, s: State)
    requires Fresh(d, c) && forall r | r in events :: r.target in d.states
    requires events != [] && events[0].target != Root
    ensures var end := Run(d, RunAll(d, c, events), Some(Request(Root, Default)));
      && Replay(end.trace, []) == Some([])
      && multiset(end.trace)[Enter(s)] == multiset(end.trace)[Leave(s)]
      && end.boxes <= d.persistent
  {
    assert Good(d, c) && events[0] in events;
    AllRunsAreGood(d, c, events);
    var before := RunAll(d, c, events);
    var r := Some(Request(Root, Default));
    TopHasBeenEntered(d, c, events);
    RunKeepsGood(d, before, r);
    RunExtendsTrace(d, before, r);
    ChainDeepens(d, before, r);
    StepIsSound(d, before, r.value);
    var end := Run(d, before, r);
    assert end.current == Root;
    Balance(end.trace, [], s);
  }

  lemma TopHasBeenEntered(d: Design, c: Config, events: seq<Request>)
    requires Fresh(d, c) && forall r | r in events :: r.target in d.states
    requires events != [] && events[0].target != Root
    ensures Enter(d.top) in RunAll(d, c, events).trace
  {
    assert events[0] in events;
    StartEntersTop(d, c, events[0].target);
    RunExtendsTrace(d, c, Some(events[0]));
    RunAllExtendsTrace(d, Run(d, c, Some(events[0])), events[1..]);
  }
}
