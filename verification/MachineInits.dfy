/** What init actions do on a run: every state reached is initialized, what its init action requests is carried
    out, and a run only ends where nothing more was requested. */
module MachineInits {
  import opened StateTrees
  import opened MachineRuns
  import opened MachineTraces
  import opened Sequences

  /** A configuration whose current state has been initialized by its own init action. */
  ghost predicate InitializedFrom(d: Design, s: Config, init: Init, b: Config) {
    && b.current == s.current && b.boxes == s.boxes && b.trace == s.trace + [Begin(s.current)]
    && (init == Arguments ==> b.history == s.history)
    && (init != Arguments ==> b.history == s.history - {s.current})
  }

  /** Behind a transition the history recorded for the target is followed and forgotten when it is asked for and
      there; otherwise the target's init action is performed once, and the run goes on with exactly what that
      requests, or ends. */
  lemma TargetIsInitialized(d: Design, c: Config, r: Request)
    requires Sound(d, c) && r.target in d.states
    ensures var s := Step(d, c, r.target);
      var follows := r.init == History && r.target in s.history;
      && (follows ==>
            exists b: Config | Sound(d, b) ::
              && b == s.(history := s.history - {r.target})
              && Targets(d, Some(Request(s.history[r.target], Default)))
              && Run(d, c, Some(r)) == Run(d, b, Some(Request(s.history[r.target], Default)))
              && Visits(d, c, Some(r)) == [r.target] + Visits(d, b, Some(Request(s.history[r.target], Default))))
      && (!follows ==>
            exists b: Config | Sound(d, b) ::
              && InitializedFrom(d, s, r.init, b) && Targets(d, d.user(r.target, b.trace))
              && Run(d, c, Some(r)) == Run(d, b, d.user(r.target, b.trace))
              && Visits(d, c, Some(r)) == [r.target] + Visits(d, b, d.user(r.target, b.trace)))
  {
    StepIsSound(d, c, r);
    var s := Step(d, c, r.target);
    var (b, next) := Begun(d, s, r.init);
    if r.init == History && r.target in s.history {
      assert Sound(d, b) && b == s.(history := s.history - {r.target});
    } else {
      assert Sound(d, b) && InitializedFrom(d, s, r.init, b);
      assert Run(d, b, None) == b && Visits(d, b, None) == [];
      assert [r.target] + [] == [r.target];
    }
  }

  /** A run ends behind the init action of its last state, and that requested nothing. */
  lemma {:induction false} RunEndsQuietly(d: Design, c: Config, r: Request)
    requires Sound(d, c) && r.target in d.states
    ensures var end := Run(d, c, Some(r));
      && end.trace != [] && end.trace[|end.trace| - 1] == Begin(end.current)
      && d.user(end.current, end.trace) == None
    decreases |Below(d, r.target)|
  {
    StepIsSound(d, c, r);
    var (b, next) := Begun(d, Step(d, c, r.target), r.init);
    if next.Some? {
      BelowShrinks(d, r.target, next.value.target);
      RunEndsQuietly(d, b, next.value);
    }
  }

  /** Whatever the init action at place `i` of a trace requested is what happens next: the states from the
      initialized one down to the requested one are entered. */
  ghost predicate Answered(d: Design, trace: seq<Action>, i: nat)
    requires i < |trace| && trace[i].Begin?
  {
    var s, request := trace[i].state, d.user(trace[i].state, trace[..i + 1]);
    request.Some? ==>
      && Depth(s) <= |Path(request.value.target)|
      && trace[..i + 1] + Enters(Path(request.value.target)[Depth(s)..]) <= trace
  }

  ghost predicate AllAnswered(d: Design, trace: seq<Action>, from: nat) {
    forall i | from <= i < |trace| && trace[i].Begin? :: Answered(d, trace, i)
  }

  /** A transition to a proper substate only enters. */
  lemma DeeperOnlyEnters(s: State, next: State)
    requires ProperChild(next, s)
    ensures Depth(s) <= |Path(next)|
    ensures Exits(s, next) == [] && Entries(next, s, true) == Enters(Path(next)[Depth(s)..])
  {
    EntriesAreExact(s, next);
  }

  lemma AnsweredLater(d: Design, a: seq<Action>, b: seq<Action>, i: nat)
    requires i < |a| && a[i].Begin? && a <= b && Answered(d, a, i)
    ensures Answered(d, b, i)
  {
    assert b[..i + 1] == a[..i + 1];
  }

  /** A transition itself initializes nothing. */
  lemma StepHasNoInits(d: Design, c: Config, target: State)
    ensures var s := Step(d, c, target);
      c.trace <= s.trace && forall i | |c.trace| <= i < |s.trace| :: !s.trace[i].Begin?
  {
    ExitsHaveNoInits(c.current, target);
    EntriesHaveNoInits(target, c.current, true);
    var actions := Exits(c.current, target) + Entries(target, c.current, true);
    forall i | 0 <= i < |actions|
      ensures !actions[i].Begin?
    {
      assert actions[i] in actions;
    }
  }

  lemma {:induction false} ExitsHaveNoInits(s: State, next: State)
    ensures forall a | a in Exits(s, next) :: !a.Begin?
  {
    if s.Sub? {
      ExitsHaveNoInits(s.super, next);
    }
  }

  lemma {:induction false} EntriesHaveNoInits(s: State, previous: State, first: bool)
    ensures forall a | a in Entries(s, previous, first) :: !a.Begin?
  {
    if s.Sub? {
      EntriesHaveNoInits(s.super, previous, false);
    }
  }

  /** On a run no request of an init action is lost, and only the last init action requests nothing. */
  lemma {:induction false} InitsAreAnswered(d: Design, c: Config, r: Request)
    requires Sound(d, c) && r.target in d.states
    ensures AllAnswered(d, Run(d, c, Some(r)).trace, |c.trace|)
    ensures var trace := Run(d, c, Some(r)).trace;
      forall i | |c.trace| <= i < |trace| - 1 && trace[i].Begin? :: d.user(trace[i].state, trace[..i + 1]).Some?
    decreases |Below(d, r.target)|
  {
    hide Exits, Entries;
    StepIsSound(d, c, r);
    StepHasNoInits(d, c, r.target);
    var s := Step(d, c, r.target);
    var (b, next) := Begun(d, s, r.init);
    var end := Run(d, c, Some(r));
    RunExtendsTrace(d, b, next);
    if next.Some? {
      BelowShrinks(d, r.target, next.value.target);
      InitsAreAnswered(d, b, next.value);
      DeeperOnlyEnters(r.target, next.value.target);
      assert Step(d, b, next.value.target).trace == b.trace + Enters(Path(next.value.target)[Depth(r.target)..]);
    }
    forall i | |c.trace| <= i < |end.trace| && end.trace[i].Begin?
      ensures Answered(d, end.trace, i)
      ensures i < |end.trace| - 1 ==> d.user(end.trace[i].state, end.trace[..i + 1]).Some?
    {
      if i < |b.trace| {
        assert end.trace[i] == b.trace[i];
        assert end.trace[..i + 1] == b.trace;
      }
    }
  }

  /** Over any run from the start: whatever an init action requested happened at once, and the machine rests only
      where the last init action requested nothing. */
  lemma {:induction false} AllInitsAreAnswered(d: Design, c: Config, events: seq<Request>)
    requires Sound(d, c) && (forall r | r in events :: r.target in d.states) && AllAnswered(d, c.trace, 0)
    ensures var end := RunAll(d, c, events);
      && AllAnswered(d, end.trace, 0)
      && (events != [] ==>
            && end.trace != [] && end.trace[|end.trace| - 1] == Begin(end.current)
            && d.user(end.current, end.trace) == None)
    decreases |events|
  {
    if events != [] {
      assert events[0] in events;
      RunEndsQuietly(d, c, events[0]);
      InitsAreAnswered(d, c, events[0]);
      RunExtendsTrace(d, c, Some(events[0]));
      var b := Run(d, c, Some(events[0]));
      forall i | 0 <= i < |b.trace| && b.trace[i].Begin?
        ensures Answered(d, b.trace, i)
      {
        if i < |c.trace| {
          assert c.trace[i] == b.trace[i];
          AnsweredLater(d, c.trace, b.trace, i);
        }
      }
      AllInitsAreAnswered(d, b, events[1..]);
    }
  }
}
