/** What a hierarchical state machine does on a run: transitions, histories, boxes and the trace of
    entry, exit and init actions. */
module MachineRuns {
  import opened StateTrees
  import opened Sequences

  datatype Strategy = NoHistory | Shallow | Deep

  /** How a target is initialized: its init action, its history, or an init action with arguments. */
  datatype Init = Default | History | Arguments

  datatype Request = Request(target: State, init: Init)

  /** What the user of a machine writes down.  `persistent` are the states whose box survives the exit
      (or is the shared empty one); `user` is the request an init action makes, given all that happened. */
  datatype Design = Design(
    top: State,
    states: set<State>,
    strategy: map<State, Strategy>,
    persistent: set<State>,
    user: (State, seq<Action>) -> Option<Request>)
  {
    /** All states but Root are the top state and its substates; Root has no strategy and no init action of
        its own; an init action may only go to proper substates. */
    ghost predicate Valid() {
      && top in states && top.Sub? && top.super == Root && (forall s | s in states && s.Sub? :: IsChild(s, top))
      && Root in states && Root !in strategy
      && (forall s | s in states && s.Sub? :: s.super in states)
      && (forall trace :: user(Root, trace).None?)
      && (forall s, trace | s in states && user(s, trace).Some? ::
            user(s, trace).value.target in states && ProperChild(user(s, trace).value.target, s))
    }

    function Keeps(s: State): Strategy {
      if s in strategy then strategy[s] else NoHistory
    }
  }

  datatype Config = Config(current: State, history: map<State, State>, boxes: set<State>, trace: seq<Action>)

  /** The histories after leaving `deep`, from state `s` upwards. */
  function Saved(d: Design, history: map<State, State>, s: State, deep: State): map<State, State>
    decreases s
  {
    if s == Root then history
    else
      var kept := match d.Keeps(s.super)
        case NoHistory => history
        case Shallow => history[s.super := s]
        case Deep => history[s.super := deep];
      Saved(d, kept, s.super, deep)
  }

  function BoxesAfter(d: Design, boxes: set<State>, actions: seq<Action>): set<State>
    decreases |actions|
  {
    if actions == [] then boxes
    else
      var now := match actions[0]
        case Enter(s) => boxes + {s}
        case Leave(s) => if s in d.persistent then boxes else boxes - {s}
        case Begin(_) => boxes;
      BoxesAfter(d, now, actions[1..])
  }

  /** One transition: exits, histories, entries. */
  function Step(d: Design, c: Config, target: State): Config {
    var actions := Exits(c.current, target) + Entries(target, c.current, true);
    Config(target, Saved(d, c.history, c.current, c.current), BoxesAfter(d, c.boxes, actions), c.trace + actions)
  }

  function WithoutHistory(c: Config): Config {
    c.(history := map s | s in c.history && s != c.current :: c.history[s])
  }

  /** Initializing the current state, and what that requests. */
  function Begun(d: Design, c: Config, init: Init): (Config, Option<Request>) {
    if init == History && c.current in c.history then
      (WithoutHistory(c), Some(Request(c.history[c.current], Default)))
    else
      ((if init == Arguments then c else WithoutHistory(c)).(trace := c.trace + [Begin(c.current)]),
       d.user(c.current, c.trace + [Begin(c.current)]))
  }

  /** A recorded history is a proper substate. */
  ghost predicate HistoryIsBelow(d: Design, history: map<State, State>) {
    forall s | s in history :: history[s] in d.states && ProperChild(history[s], s)
  }

  ghost predicate Sound(d: Design, c: Config) {
    d.Valid() && c.current in d.states && HistoryIsBelow(d, c.history)
  }

  ghost function Below(d: Design, s: State): set<State> {
    set t | t in d.states && IsChild(t, s)
  }

  ghost predicate Targets(d: Design, r: Option<Request>) {
    r.Some? ==> r.value.target in d.states
  }

  lemma {:induction false} SavedIsBelow(d: Design, history: map<State, State>, s: State, deep: State)
    requires d.Valid() && HistoryIsBelow(d, history) && deep in d.states && s in d.states && IsChild(deep, s)
    ensures HistoryIsBelow(d, Saved(d, history, s, deep))
    decreases s
  {
    if s.Sub? {
      ChildOfChild(deep, s, s.super);
      NotBelowItself(s);
      if deep == s.super {
        assert false;
      }
      var kept := match d.Keeps(s.super)
        case NoHistory => history
        case Shallow => history[s.super := s]
        case Deep => history[s.super := deep];
      assert HistoryIsBelow(d, kept);
      SavedIsBelow(d, kept, s.super, deep);
    }
  }

  /** After one transition and the initialization the next request goes to a proper substate. */
  lemma StepIsSound(d: Design, c: Config, r: Request)
    requires Sound(d, c) && r.target in d.states
    ensures var (b, next) := Begun(d, Step(d, c, r.target), r.init);
      && Sound(d, b) && b.current == r.target && Targets(d, next)
      && (next.Some? ==> ProperChild(next.value.target, r.target))
  {
    SavedIsBelow(d, c.history, c.current, c.current);
  }

  lemma BelowShrinks(d: Design, s: State, t: State)
    requires s in d.states && ProperChild(t, s)
    ensures |Below(d, t)| < |Below(d, s)|
  {
    forall u | u in Below(d, t)
      ensures u in Below(d, s)
    {
      ChildOfChild(u, t, s);
    }
    if s in Below(d, t) {
      NoCycle(s, t);
    }
    assert s in Below(d, s) && Below(d, t) <= Below(d, s) - {s};
    SubsetIsSmaller(Below(d, t), Below(d, s) - {s});
  }

  /** Carries out a request and those of the init actions.  The targets strictly deepen. */
  ghost function Run(d: Design, c: Config, r: Option<Request>): (end: Config)
    requires Sound(d, c) && Targets(d, r)
    ensures Sound(d, end)
    decreases if r.Some? then 1 + |Below(d, r.value.target)| else 0
  {
    if r.None? then c
    else
      var (b, next) := Begun(d, Step(d, c, r.value.target), r.value.init);
      StepIsSound(d, c, r.value);
      if next.Some? then BelowShrinks(d, r.value.target, next.value.target); Run(d, b, next) else b
  }

  /** Any number of events, one after the other. */
  ghost function RunAll(d: Design, c: Config, events: seq<Request>): (end: Config)
    requires Sound(d, c) && forall r | r in events :: r.target in d.states
    ensures Sound(d, end)
    decreases |events|
  {
    if events == [] then c
    else
      assert events[0] in events;
      RunAll(d, Run(d, c, Some(events[0])), events[1..])
  }

  /** The states that become current on the way. */
  ghost function Visits(d: Design, c: Config, r: Option<Request>): seq<State>
    requires Sound(d, c) && Targets(d, r)
    decreases if r.Some? then 1 + |Below(d, r.value.target)| else 0
  {
    if r.None? then []
    else
      var (b, next) := Begun(d, Step(d, c, r.value.target), r.value.init);
      StepIsSound(d, c, r.value);
      if next.Some? then BelowShrinks(d, r.value.target, next.value.target); [r.value.target] + Visits(d, b, next)
      else [r.value.target]
  }

  /** The init chain strictly deepens and visits no state twice: it ends. */
  lemma {:induction false} ChainDeepens(d: Design, c: Config, r: Option<Request>)
    requires Sound(d, c) && Targets(d, r)
    ensures forall i | 0 < i < |Visits(d, c, r)| :: ProperChild(Visits(d, c, r)[i], Visits(d, c, r)[i - 1])
    ensures |Visits(d, c, r)| <= |d.states|
    ensures Visits(d, c, r) != [] ==> Run(d, c, r).current == Visits(d, c, r)[|Visits(d, c, r)| - 1]
  {
    ChainIsBounded(d, c, r);
    if r.Some? {
      SubsetIsSmaller(Below(d, r.value.target), d.states);
    }
  }

  lemma {:induction false} ChainIsBounded(d: Design, c: Config, r: Option<Request>)
    requires Sound(d, c) && Targets(d, r)
    ensures forall i | 0 < i < |Visits(d, c, r)| :: ProperChild(Visits(d, c, r)[i], Visits(d, c, r)[i - 1])
    ensures r.Some? ==>
      && Visits(d, c, r) != [] && Visits(d, c, r)[0] == r.value.target
      && |Visits(d, c, r)| <= |Below(d, r.value.target)|
      && Run(d, c, r).current == Visits(d, c, r)[|Visits(d, c, r)| - 1]
    decreases if r.Some? then 1 + |Below(d, r.value.target)| else 0
  {
    if r.Some? {
      var (b, next) := Begun(d, Step(d, c, r.value.target), r.value.init);
      StepIsSound(d, c, r.value);
      assert r.value.target in Below(d, r.value.target);
      if next.Some? {
        BelowShrinks(d, r.value.target, next.value.target);
        ChainIsBounded(d, b, next);
      }
    }
  }
}
