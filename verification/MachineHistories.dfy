/** Where a history transition leads. */
module MachineHistories {
  import opened StateTrees
  import opened MachineRuns
  import opened Sequences

  /** The history of `a` is the same in both. */
  predicate SameAt(h: map<State, State>, k: map<State, State>, a: State) {
    (a in h <==> a in k) && (a in h ==> h[a] == k[a])
  }

  /** What leaving `deep` records: the state itself, or the substate towards it, in every proper
      superstate, as its strategy says, and nothing anywhere else. */
  lemma {:induction false} SavedAt(d: Design, history: map<State, State>, s: State, deep: State, a: State)
    requires d.Valid()
    ensures ProperChild(s, a) && d.Keeps(a) == Deep ==> (a, deep) in Saved(d, history, s, deep).Items
    ensures ProperChild(s, a) && d.Keeps(a) == Shallow ==> (a, Toward(s, a)) in Saved(d, history, s, deep).Items
    ensures !ProperChild(s, a) || d.Keeps(a) == NoHistory ==> SameAt(Saved(d, history, s, deep), history, a)
    decreases s
  {
    if s.Sub? {
      var kept := match d.Keeps(s.super)
        case NoHistory => history
        case Shallow => history[s.super := s]
        case Deep => history[s.super := deep];
      SavedAt(d, kept, s.super, deep, a);
      NotBelowItself(s);
      if a == s.super {
        assert !ProperChild(s.super, a) && ProperChild(s, a);
        assert SameAt(Saved(d, history, s, deep), kept, a);
      }
    }
  }

  /** Transitions and init chains outside a state leave its history as it is. */
  lemma {:induction false} OutsideKeepsHistory(d: Design, c: Config, r: Option<Request>, a: State)
    requires Sound(d, c) && Targets(d, r) && !ProperChild(c.current, a)
    requires forall v | v in Visits(d, c, r) :: !IsChild(v, a)
    ensures SameAt(Run(d, c, r).history, c.history, a)
    ensures r.Some? ==> !IsChild(Run(d, c, r).current, a)
    decreases if r.Some? then 1 + |Below(d, r.value.target)| else 0
  {
    if r.Some? {
      StepIsSound(d, c, r.value);
      SavedAt(d, c.history, c.current, c.current, a);
      var (b, next) := Begun(d, Step(d, c, r.value.target), r.value.init);
      assert Visits(d, c, r)[0] == r.value.target;
      if next.Some? {
        BelowShrinks(d, r.value.target, next.value.target);
        assert Visits(d, c, r) == [r.value.target] + Visits(d, b, next);
        OutsideKeepsHistory(d, b, next, a);
      }
    }
  }

  /** Leaving a state for good records it, and the run that leaves does not touch the record again. */
  lemma LeavingRecords(d: Design, c: Config, out: Request, a: State)
    requires Sound(d, c) && out.target in d.states && ProperChild(c.current, a)
    requires forall v | v in Visits(d, c, Some(out)) :: !IsChild(v, a)
    ensures var end := Run(d, c, Some(out));
      && (d.Keeps(a) == Deep ==> (a, c.current) in end.history.Items)
      && (d.Keeps(a) == Shallow ==> (a, Toward(c.current, a)) in end.history.Items)
      && !IsChild(end.current, a)
  {
    var r := Some(out);
    StepIsSound(d, c, out);
    SavedAt(d, c.history, c.current, c.current, a);
    var (b, next) := Begun(d, Step(d, c, out.target), out.init);
    assert Visits(d, c, r)[0] == out.target;
    if next.Some? {
      BelowShrinks(d, out.target, next.value.target);
      assert Visits(d, c, r) == [out.target] + Visits(d, b, next);
    }
    OutsideKeepsHistory(d, b, next, a);
  }

  /** All the events happen outside of a state. */
  ghost predicate AllOutside(d: Design, c: Config, events: seq<Request>, a: State)
    requires Sound(d, c)
    decreases |events|
  {
    events == [] ||
    (&& events[0].target in d.states
     && (forall v | v in Visits(d, c, Some(events[0])) :: !IsChild(v, a))
     && AllOutside(d, Run(d, c, Some(events[0])), events[1..], a))
  }

  lemma {:induction false} EventsOutsideKeepHistory(d: Design, c: Config, events: seq<Request>, a: State)
    requires Sound(d, c) && !IsChild(c.current, a) && AllOutside(d, c, events, a)
    requires forall r | r in events :: r.target in d.states
    ensures SameAt(RunAll(d, c, events).history, c.history, a)
    ensures !IsChild(RunAll(d, c, events).current, a)
    decreases |events|
  {
    if events != [] {
      assert events[0] in events;
      OutsideKeepsHistory(d, c, Some(events[0]), a);
      EventsOutsideKeepHistory(d, Run(d, c, Some(events[0])), events[1..], a);
    }
  }

  /** After leaving `a` from a substate and any events outside, a history transition into `a` goes on to
      that substate (deep), or to the direct substate towards it (shallow). */
  lemma HistoryLeadsBack(d: Design, c: Config, out: Request, events: seq<Request>, a: State)
    requires Sound(d, c) && out.target in d.states && a in d.states && ProperChild(c.current, a)
    requires forall v | v in Visits(d, c, Some(out)) :: !IsChild(v, a)
    requires forall r | r in events :: r.target in d.states
    requires AllOutside(d, Run(d, c, Some(out)), events, a)
    ensures var end := RunAll(d, Run(d, c, Some(out)), events);
      var way := Visits(d, end, Some(Request(a, History)));
      && (d.Keeps(a) == Deep ==> |way| >= 2 && way[0] == a && way[1] == c.current)
      && (d.Keeps(a) == Shallow ==> |way| >= 2 && way[0] == a && way[1] == Toward(c.current, a))
  {
    hide Run;
    LeavingRecords(d, c, out, a);
    var left := Run(d, c, Some(out));
    EventsOutsideKeepHistory(d, left, events, a);
    if d.Keeps(a) != NoHistory {
      HistoryIsFollowed(d, RunAll(d, left, events), a);
    }
  }

  lemma HistoryIsFollowed(d: Design, c: Config, a: State)
    requires Sound(d, c) && a in d.states && a in c.history && !IsChild(c.current, a)
    ensures var way := Visits(d, c, Some(Request(a, History)));
      |way| >= 2 && way[0] == a && way[1] == c.history[a]
  {
    var r := Request(a, History);
    StepIsSound(d, c, r);
    SavedAt(d, c.history, c.current, c.current, a);
    var (b, next) := Begun(d, Step(d, c, a), History);
    BelowShrinks(d, a, next.value.target);
    assert Visits(d, c, Some(r)) == [a] + Visits(d, b, next);
    assert Visits(d, b, next)[0] == next.value.target;
  }

  /** Without a recorded history the transition is to the state itself. */
  lemma NoHistoryIsDefault(d: Design, c: Config, a: State)
    requires Sound(d, c) && a in d.states && a !in c.history
    requires !ProperChild(c.current, a) || d.Keeps(a) == NoHistory
    ensures Run(d, c, Some(Request(a, History))) == Run(d, c, Some(Request(a, Default)))
  {
    SavedAt(d, c.history, c.current, c.current, a);
  }

  /** Entering a state to stay there forgets its history, unless its init action took arguments. */
  lemma StayingForgetsExactly(d: Design, c: Config, r: Request)
    requires Sound(d, c) && r.target in d.states && !ProperChild(c.current, r.target)
    requires Visits(d, c, Some(r)) == [r.target]
    ensures r.target in Run(d, c, Some(r)).history <==> r.init == Arguments && r.target in c.history
  {
    StepIsSound(d, c, r);
    SavedAt(d, c.history, c.current, c.current, r.target);
    var (b, next) := Begun(d, Step(d, c, r.target), r.init);
    if next.Some? {
      BelowShrinks(d, r.target, next.value.target);
      ChainIsBounded(d, b, next);
    }
  }
}
