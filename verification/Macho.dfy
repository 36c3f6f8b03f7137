/** The machine object itself: recursive exits and entries, histories passed upwards, and the loop that
    carries out pending transitions. */
module Macho {
  import opened StateTrees
  import opened MachineRuns
  import opened MachineTraces
  import MachineInits
  import opened Sequences

  class Machine {
    const design: Design
    var current: State
    var history: map<State, State>
    var boxes: set<State>
    var pendingState: Option<State>
    var pendingInit: Init
    var trace: seq<Action>

    ghost function View(): Config
      reads this
    {
      Config(current, history, boxes, trace)
    }

    ghost function Pending(): Option<Request>
      reads this
    {
      if pendingState.Some? then Some(Request(pendingState.value, pendingInit)) else None
    }

    /** A machine starts at Root; the box of its top state may be given. */
    constructor (design: Design, given: set<State>)
      requires design.Valid() && given <= design.persistent + {design.top}
      ensures this.design == design && Fresh(design, View()) && Good(design, View()) && Pending() == None
    {
      this.design := design;
      current, history, boxes, trace := Root, map[], given, [];
      pendingState, pendingInit := None, Default;
    }

    /** exit: a state is left unless `next` is one of its proper substates. */
    method Exit(s: State, next: State)
      requires s.Sub? ==> forall t | t in Path(s) :: t in boxes
      modifies `boxes, `trace
      ensures trace == old(trace) + Exits(s, next)
      ensures boxes == BoxesAfter(design, old(boxes), Exits(s, next))
      decreases s
    {
      hide BoxesAfter;
      BoxesStay(design, boxes);
      if s == Root {
        return;
      }
      if s == next || !IsChild(next, s) {
        trace := trace + [Leave(s)];
        OnPath(s, s);
        if s !in design.persistent {
          DeleteBox(s);
        }
        NotBelowItself(s);
        OnPath(s.super, s);
        BoxesLeave(design, old(boxes), s, Exits(s.super, next));
        Exit(s.super, next);
      }
    }

    /** deleteBox: the box is there. */
    method DeleteBox(s: State)
      requires s in boxes
      modifies `boxes
      ensures boxes == old(boxes) - {s}
    {
      boxes := boxes - {s};
    }

    /** entry: superstates first, and only those that do not contain the previous state. */
    method Entry(s: State, previous: State, first: bool)
      modifies `boxes, `trace
      ensures trace == old(trace) + Entries(s, previous, first)
      ensures boxes == BoxesAfter(design, old(boxes), Entries(s, previous, first))
      decreases s
    {
      if s == Root {
        return;
      }
      if first || !IsChild(previous, s) {
        Entry(s.super, previous, false);
        BoxesAppend(design, old(boxes), Entries(s.super, previous, false), Enter(s));
        boxes := boxes + {s};
        trace := trace + [Enter(s)];
      }
    }

    /** saveHistory: the strategy of `s` chooses, then the superstates are told. */
    method SaveHistory(s: State, shallow: State, deep: State)
      requires design.Valid() && shallow.Sub? && shallow.super == s
      modifies `history
      ensures history == Saved(design, old(history), shallow, deep)
      decreases s, 1
    {
      match design.Keeps(s) {
        case NoHistory =>
        case Shallow => history := history[s := shallow];
        case Deep => history := history[s := deep];
      }
      SetHistorySuper(s, deep);
    }

    method SetHistorySuper(s: State, deep: State)
      requires design.Valid()
      modifies `history
      ensures history == Saved(design, old(history), s, deep)
      decreases s, 0
    {
      if s.Sub? {
        SaveHistory(s.super, s, deep);
      }
    }

    /** init and the initializers: a history transition, or the state's own init action. */
    method InitCurrent(init: Init)
      requires Sound(design, View()) && pendingState == None
      modifies `history, `trace, `pendingState, `pendingInit
      ensures (View(), Pending()) == Begun(design, old(View()), init)
    {
      if init == History && current in history {
        SetPendingState(history[current], Default);
      } else {
        trace := trace + [Begin(current)];
        var request := design.user(current, trace);
        if request.Some? {
          SetPendingState(request.value.target, request.value.init);
        }
      }
      if init != Arguments {
        history := map s | s in history && s != current :: history[s];
      }
    }

    method SetPendingState(s: State, init: Init)
      modifies `pendingState, `pendingInit
      ensures pendingState == Some(s) && pendingInit == init
    {
      pendingState := Some(s);
      pendingInit := init;
    }

    /** Exit actions, histories, and entry actions of a transition. */
    method MoveTo(target: State)
      requires Good(design, View()) && target in design.states
      modifies `current, `history, `boxes, `trace
      ensures View() == Step(design, old(View()), target)
    {
      hide Saved, BoxesAfter, Replay, HistoryIsBelow, Exits, Entries;
      var previous := current;
      Exit(current, target);
      SetHistorySuper(current, current);
      current := target;
      Entry(current, previous, true);
      BoxesJoin(design, old(boxes), Exits(previous, target), Entries(target, previous, true));
    }

    /** One round of the inner loop. */
    method Transition()
      requires Good(design, View()) && pendingState.Some? && pendingState.value in design.states
      modifies this
      ensures (View(), Pending()) ==
              Begun(design, Step(design, old(View()), old(pendingState).value), old(pendingInit))
    {
      hide Step, Begun, Good, Sound;
      StepKeepsGood(design, View(), pendingState.value);
      GoodIsSound(design, Step(design, View(), pendingState.value));
      MoveTo(pendingState.value);
      pendingState := None;
      InitCurrent(pendingInit);
    }

    /** rattleOn: until nothing is pending.  The init action performed last requested nothing. */
    method RattleOn()
      requires Good(design, View()) && Targets(design, Pending())
      modifies this
      ensures View() == Run(design, old(View()), old(Pending()))
      ensures Good(design, View()) && Pending() == None
      ensures old(pendingState).Some? ==>
        trace != [] && trace[|trace| - 1] == Begin(current) && design.user(current, trace) == None
    {
      if pendingState.Some? {
        MachineInits.RunEndsQuietly(design, View(), Pending().value);
      }
      while pendingState.Some?
        invariant Good(design, View()) && Targets(design, Pending())
        invariant Run(design, View(), Pending()) == Run(design, old(View()), old(Pending()))
        decreases if pendingState.Some? then 1 + |Below(design, pendingState.value)| else 0
      {
        ghost var before, target := View(), pendingState.value;
        StepIsSound(design, before, Pending().value);
        StepKeepsGood(design, before, target);
        BegunKeepsGood(design, Step(design, before, target), pendingInit);
        Transition();
        if pendingState.Some? {
          BelowShrinks(design, target, pendingState.value);
        }
      }
    }

    method SetState(s: State, init: Init)
      requires Good(design, View()) && s in design.states && pendingState == None
      modifies this
      ensures View() == Run(design, old(View()), Some(Request(s, init)))
      ensures Good(design, View()) && Pending() == None
      ensures trace != [] && trace[|trace| - 1] == Begin(current) && design.user(current, trace) == None
    {
      SetPendingState(s, init);
      RattleOn();
    }

    /** shutdown: all states are left. */
    method Shutdown()
      requires Good(design, View()) && pendingState == None
      modifies this
      ensures View() == Run(design, old(View()), Some(Request(Root, Default)))
      ensures Good(design, View()) && Replay(trace, []) == Some([]) && current == Root
    {
      ghost var before := View();
      ChainDeepens(design, before, Some(Request(Root, Default)));
      StepIsSound(design, before, Request(Root, Default));
      SetState(Root, Default);
    }

    /** clearHistoryDeep: the state and its substates forget. */
    method ClearHistoryDeep(s: State)
      modifies `history
      ensures history == map t | t in old(history) && !IsChild(t, s) :: old(history)[t]
    {
      var left := history.Keys;
      while left != {}
        invariant left <= old(history).Keys
        invariant forall t | t in history :: t in old(history) && history[t] == old(history)[t]
        invariant forall t | t in old(history) :: t in history <==> t in left || !IsChild(t, s)
        decreases |left|
      {
        var t :| t in left;
        left := left - {t};
        if IsChild(t, s) {
          history := history - {t};
        }
      }
    }
  }

  lemma GoodIsSound(d: Design, c: Config)
    requires Good(d, c)
    ensures Sound(d, c)
  {
  }

  lemma BoxesStay(d: Design, boxes: set<State>)
    ensures BoxesAfter(d, boxes, []) == boxes
  {
  }

  lemma BoxesLeave(d: Design, boxes: set<State>, s: State, rest: seq<Action>)
    ensures BoxesAfter(d, boxes, [Leave(s)] + rest) ==
            BoxesAfter(d, if s in d.persistent then boxes else boxes - {s}, rest)
  {
    assert ([Leave(s)] + rest)[1..] == rest;
  }

  lemma {:induction false} BoxesAppend(d: Design, boxes: set<State>, actions: seq<Action>, a: Action)
    ensures BoxesAfter(d, boxes, actions + [a]) == BoxesAfter(d, BoxesAfter(d, boxes, actions), [a])
  {
    BoxesJoin(d, boxes, actions, [a]);
  }

  lemma {:induction false} BoxesJoin(d: Design, boxes: set<State>, a: seq<Action>, b: seq<Action>)
    ensures BoxesAfter(d, boxes, a + b) == BoxesAfter(d, BoxesAfter(d, boxes, a), b)
    decreases |a|
  {
    if a == [] {
      assert a + b == b;
    } else {
      var now := match a[0]
        case Enter(s) => boxes + {s}
        case Leave(s) => if s in d.persistent then boxes else boxes - {s}
        case Begin(_) => boxes;
      assert (a + b)[0] == a[0] && (a + b)[1..] == a[1..] + b;
      BoxesJoin(d, now, a[1..], b);
    }
  }
}
