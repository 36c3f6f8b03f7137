/** Staged operations over a module tree: what is asked of whom, and when. */
module LifecycleRuns {
  import opened Sequences

  datatype Module = Module(id: nat, participates: bool, children: seq<Module>)

  /** The participating modules of a tree, parents before their children. */
  function Preorder(m: Module): seq<nat> {
    (if m.participates then [m.id] else []) + PreorderAll(m.children)
  }

  function PreorderAll(ms: seq<Module>): seq<nat> {
    if ms == [] then [] else Preorder(ms[0]) + PreorderAll(ms[1..])
  }

  datatype Event = Told(subject: nat, stage: nat) | Finished(subject: nat, stage: nat) | Completed

  /** An operation: its modules, its number of stages, which module answers at once at which stage, and
      whether somebody wants to know when it completes. */
  datatype Plan = Plan(subjects: seq<nat>, stages: nat, atOnce: (nat, nat) -> bool, notify: bool)

  datatype Progress = Progress(stage: nat, pending: seq<nat>, inside: bool, log: seq<Event>)

  function Tell(plan: Plan, subjects: seq<nat>, stage: nat): seq<Event> {
    if subjects == [] then []
    else
      [Told(subjects[0], stage)] + (if plan.atOnce(subjects[0], stage) then [Finished(subjects[0], stage)] else [])
      + Tell(plan, subjects[1..], stage)
  }

  /** The modules that will answer later. */
  function Late(plan: Plan, subjects: seq<nat>, stage: nat): (late: seq<nat>)
    ensures forall m | m in late :: m in subjects && !plan.atOnce(m, stage)
    ensures forall m | m in subjects && !plan.atOnce(m, stage) :: m in late
  {
    if subjects == [] then []
    else (if plan.atOnce(subjects[0], stage) then [] else [subjects[0]]) + Late(plan, subjects[1..], stage)
  }

  /** resumeOperation: stage after stage until somebody is late, or all are done. */
  function Resume(plan: Plan, p: Progress): Progress
    decreases plan.stages - p.stage
  {
    if p.stage >= plan.stages then p.(log := p.log + if plan.notify && !p.inside then [Completed] else [])
    else
      var q := AfterStage(plan, p);
      if q.pending == [] then Resume(plan, q.(stage := p.stage + 1)) else q
  }

  /** doOneStage over the whole tree. */
  function AfterStage(plan: Plan, p: Progress): Progress {
    p.(pending := p.pending + Late(plan, plan.subjects, p.stage), log := p.log + Tell(plan, plan.subjects, p.stage))
  }

  function Initiated(plan: Plan): Progress {
    Resume(plan, Progress(0, [], true, []))
  }

  /** A late answer arrives. */
  ghost function Answered(plan: Plan, p: Progress, subject: nat): Progress {
    var q := p.(pending := Remove(p.pending, {subject}), log := p.log + [Finished(subject, p.stage)]);
    if q.pending == [] then Resume(plan, q.(stage := p.stage + 1, inside := false)) else q
  }

  /** A watcher of the log: the stage, how many modules have been told in it, which of them finished. */
  datatype Watch = Watch(stage: nat, told: nat, finished: set<nat>, completed: bool)

  ghost predicate StageDone(plan: Plan, w: Watch) {
    w.told == |plan.subjects| && w.finished == Elements(plan.subjects)
  }

  /** The next stage may begin only when every module has finished this one. */
  ghost function Seen(plan: Plan, w: Watch, e: Event): Option<Watch> {
    match e
    case Told(m, t) =>
      var v := if StageDone(plan, w) then Watch(w.stage + 1, 0, {}, w.completed) else w;
      if !v.completed && t == v.stage < plan.stages && v.told < |plan.subjects| && plan.subjects[v.told] == m then
        Some(v.(told := v.told + 1))
      else None
    case Finished(m, t) =>
      if !w.completed && t == w.stage && w.told <= |plan.subjects| && m in plan.subjects[..w.told]
         && m !in w.finished then
        Some(w.(finished := w.finished + {m}))
      else None
    case Completed =>
      if !w.completed
         && (plan.subjects == [] || plan.stages == 0 || (StageDone(plan, w) && w.stage + 1 == plan.stages)) then
        Some(w.(completed := true))
      else None
  }

  ghost function SeenAll(plan: Plan, w: Watch, log: seq<Event>): Option<Watch>
    decreases |log|
  {
    if log == [] then Some(w)
    else match Seen(plan, w, log[0])
      case None => None
      case Some(v) => SeenAll(plan, v, log[1..])
  }

  const START := Watch(0, 0, {}, false)

  lemma {:induction false} SeenAppend(plan: Plan, w: Watch, a: seq<Event>, b: seq<Event>)
    requires SeenAll(plan, w, a).Some?
    ensures SeenAll(plan, w, a + b) == SeenAll(plan, SeenAll(plan, w, a).value, b)
    decreases |a|
  {
    if a == [] {
      assert a + b == b;
    } else {
      assert (a + b)[0] == a[0] && (a + b)[1..] == a[1..] + b;
      SeenAppend(plan, Seen(plan, w, a[0]).value, a[1..], b);
    }
  }

  /** A plan over distinct modules. */
  ghost predicate Sane(plan: Plan) {
    Distinct(plan.subjects)
  }

  /** At rest: in the middle of a stage that waits for `pending`, or with all stages done. */
  ghost predicate Fits(plan: Plan, p: Progress, w: Watch) {
    if p.stage < plan.stages then
      && p.pending != [] && Distinct(p.pending)
      && w == Watch(p.stage, |plan.subjects|, Elements(plan.subjects) - Elements(p.pending), false)
      && Elements(p.pending) <= Elements(plan.subjects)
    else
      && p.pending == []
      && w.completed == (plan.notify && !p.inside)
      && (plan.subjects == [] || plan.stages == 0 || (StageDone(plan, w) && w.stage + 1 == plan.stages))
  }

  /** Between stages: the log up to here is fine and stage `p.stage` is next. */
  ghost predicate Ready(plan: Plan, p: Progress, w: Watch) {
    && p.pending == [] && !w.completed && p.stage <= plan.stages
    && (if p.stage == 0 || plan.subjects == [] then w == START
        else StageDone(plan, w) && w.stage + 1 == p.stage)
  }

  lemma TakeMember<T>(s: seq<T>, n: nat)
    requires n < |s| && Distinct(s)
    ensures s[n] in s[..n + 1] && s[n] !in s[..n] && forall x | x in s[..n] :: x in s[..n + 1]
  {
    assert s[..n + 1] == s[..n] + [s[n]];
  }

  /** Telling the modules from the n-th on is fine when the first `n` have been told. */
  lemma {:induction false} TellIsSeen(plan: Plan, w: Watch, n: nat)
    requires Sane(plan) && n <= |plan.subjects| && w.stage < plan.stages && !w.completed
    requires w.told == n
    requires w.finished == (set m | m in plan.subjects[..n] && plan.atOnce(m, w.stage))
    ensures SeenAll(plan, w, Tell(plan, plan.subjects[n..], w.stage)) ==
            Some(w.(told := |plan.subjects|, finished := set m | m in plan.subjects && plan.atOnce(m, w.stage)))
    decreases |plan.subjects| - n
  {
    if n < |plan.subjects| {
      var m, t := plan.subjects[n], w.stage;
      TakeMember(plan.subjects, n);
      var v := Seen(plan, w, Told(m, t)).value;
      var rest := Tell(plan, plan.subjects[n + 1..], t);
      assert plan.subjects[n..][1..] == plan.subjects[n + 1..];
      if plan.atOnce(m, t) {
        var u := v.(finished := v.finished + {m});
        assert Tell(plan, plan.subjects[n..], t) == [Told(m, t), Finished(m, t)] + rest;
        TwoSeen(plan, w, Told(m, t), v, Finished(m, t), u, rest);
        assert u.finished == set x | x in plan.subjects[..n + 1] && plan.atOnce(x, t);
        TellIsSeen(plan, u, n + 1);
      } else {
        assert Tell(plan, plan.subjects[n..], t) == [Told(m, t)] + rest;
        OneSeen(plan, w, Told(m, t), v, rest);
        assert v.finished == set x | x in plan.subjects[..n + 1] && plan.atOnce(x, t);
        TellIsSeen(plan, v, n + 1);
      }
    } else {
      assert plan.subjects[..n] == plan.subjects && plan.subjects[n..] == [];
    }
  }

  lemma OneSeen(plan: Plan, w: Watch, a: Event, v: Watch, rest: seq<Event>)
    requires Seen(plan, w, a) == Some(v)
    ensures SeenAll(plan, w, [a] + rest) == SeenAll(plan, v, rest)
  {
    assert ([a] + rest)[1..] == rest;
  }

  lemma TwoSeen(plan: Plan, w: Watch, a: Event, v: Watch, b: Event, u: Watch, rest: seq<Event>)
    requires Seen(plan, w, a) == Some(v) && Seen(plan, v, b) == Some(u)
    ensures SeenAll(plan, w, [a, b] + rest) == SeenAll(plan, u, rest)
  {
    OneSeen(plan, v, b, u, rest);
    OneSeen(plan, w, a, v, [b] + rest);
    assert [a] + ([b] + rest) == [a, b] + rest;
  }

  lemma {:induction false} LateIsDistinct(plan: Plan, subjects: seq<nat>, stage: nat)
    requires Distinct(subjects)
    ensures Distinct(Late(plan, subjects, stage))
  {
    if subjects != [] {
      LateIsDistinct(plan, subjects[1..], stage);
      assert subjects[0] !in subjects[1..];
    }
  }

  /** The first event of a stage is seen like at its beginning. */
  lemma StageBegins(plan: Plan, w: Watch, stage: nat)
    requires StageDone(plan, w) && w.stage + 1 == stage && plan.subjects != [] && !w.completed
    ensures SeenAll(plan, w, Tell(plan, plan.subjects, stage)) ==
            SeenAll(plan, Watch(stage, 0, {}, false), Tell(plan, plan.subjects, stage))
  {
    var log := Tell(plan, plan.subjects, stage);
    assert log[0] == Told(plan.subjects[0], stage);
    assert !StageDone(plan, Watch(stage, 0, {}, false));
  }

  lemma StageIsSeen(plan: Plan, p: Progress, w: Watch)
    requires Sane(plan) && Ready(plan, p, w) && p.stage < plan.stages
    ensures var q, v := AfterStage(plan, p), SeenAll(plan, w, Tell(plan, plan.subjects, p.stage));
      v.Some? && if q.pending == [] then Ready(plan, q.(stage := p.stage + 1), v.value) else Fits(plan, q, v.value)
  {
    var late := Late(plan, plan.subjects, p.stage);
    LateIsDistinct(plan, plan.subjects, p.stage);
    assert AfterStage(plan, p).pending == late;
    if plan.subjects != [] {
      if p.stage > 0 {
        StageBegins(plan, w, p.stage);
      }
      assert plan.subjects[0..] == plan.subjects;
      TellIsSeen(plan, Watch(p.stage, 0, {}, false), 0);
      var finished := set m | m in plan.subjects && plan.atOnce(m, p.stage);
      assert finished == Elements(plan.subjects) - Elements(late);
    }
  }

  /** The log is fine, and the watcher ends in `w`. */
  ghost predicate Watched(plan: Plan, log: seq<Event>, w: Watch) {
    SeenAll(plan, START, log) == Some(w)
  }

  lemma WatchOne(plan: Plan, log: seq<Event>, w: Watch, e: Event, v: Watch)
    requires Watched(plan, log, w) && Seen(plan, w, e) == Some(v)
    ensures Watched(plan, log + [e], v)
  {
    SeenAppend(plan, START, log, [e]);
    OneSeen(plan, w, e, v, []);
    assert [e] + [] == [e];
  }

  lemma CompletionIsSeen(plan: Plan, p: Progress, w: Watch)
    requires Ready(plan, p, w) && p.stage == plan.stages
    ensures Seen(plan, w, Completed) == Some(w.(completed := true))
  {
  }

  /** The log at rest is fine and fits the progress. */
  ghost predicate AtRest(plan: Plan, p: Progress) {
    exists w :: Watched(plan, p.log, w) && Fits(plan, p, w)
  }

  lemma {:induction false} ResumeIsSeen(plan: Plan, p: Progress, w: Watch)
    requires Sane(plan) && Ready(plan, p, w) && Watched(plan, p.log, w)
    ensures AtRest(plan, Resume(plan, p))
    decreases plan.stages - p.stage
  {
    hide SeenAll, Seen, Tell, Late, Sane;
    if p.stage < plan.stages {
      StageIsWatched(plan, p, w);
      var q := AfterStage(plan, p);
      if q.pending == [] {
        var v :| Watched(plan, q.log, v) && Ready(plan, q.(stage := p.stage + 1), v);
        ResumeIsSeen(plan, q.(stage := p.stage + 1), v);
      }
    } else if plan.notify && !p.inside {
      CompletionIsSeen(plan, p, w);
      WatchOne(plan, p.log, w, Completed, w.(completed := true));
      assert Fits(plan, Resume(plan, p), w.(completed := true));
    } else {
      assert p.log + [] == p.log;
      assert Fits(plan, Resume(plan, p), w);
    }
  }

  lemma StageIsWatched(plan: Plan, p: Progress, w: Watch)
    requires Sane(plan) && Ready(plan, p, w) && p.stage < plan.stages && Watched(plan, p.log, w)
    ensures var q := AfterStage(plan, p);
      if q.pending == [] then exists v :: Watched(plan, q.log, v) && Ready(plan, q.(stage := p.stage + 1), v)
      else AtRest(plan, q)
  {
    hide SeenAll, Seen, Late, Sane, Ready, Fits;
    StageIsSeen(plan, p, w);
    SeenOn(plan, p.log, w, Tell(plan, plan.subjects, p.stage));
  }

  lemma SeenOn(plan: Plan, log: seq<Event>, w: Watch, more: seq<Event>)
    requires Watched(plan, log, w) && SeenAll(plan, w, more).Some?
    ensures Watched(plan, log + more, SeenAll(plan, w, more).value)
  {
    SeenAppend(plan, START, log, more);
  }

  lemma FinishIsSeen(plan: Plan, p: Progress, w: Watch, subject: nat)
    requires Fits(plan, p, w) && p.stage < plan.stages && subject in p.pending
    ensures Seen(plan, w, Finished(subject, p.stage)) == Some(w.(finished := w.finished + {subject}))
  {
    assert plan.subjects[..|plan.subjects|] == plan.subjects;
    assert subject in Elements(p.pending);
  }

  /** With one answer less to wait for: the stage goes on, or is done. */
  lemma FinishFits(plan: Plan, p: Progress, w: Watch, subject: nat, log: seq<Event>)
    requires Fits(plan, p, w) && p.stage < plan.stages && subject in p.pending
    ensures var left, v := Remove(p.pending, {subject}), w.(finished := w.finished + {subject});
      if left == [] then Ready(plan, Progress(p.stage + 1, [], false, log), v)
      else Fits(plan, p.(pending := left, log := log), v)
  {
    var left, v := Remove(p.pending, {subject}), w.(finished := w.finished + {subject});
    RemoveElements(p.pending, {subject});
    RemoveKeepsDistinct(p.pending, {subject});
    assert subject in Elements(p.pending);
    assert Elements(left) == Elements(p.pending) - {subject};
    assert v.finished == Elements(plan.subjects) - Elements(left);
  }

  /** A late answer keeps the log fine. */
  lemma AnsweredIsSeen(plan: Plan, p: Progress, subject: nat)
    requires Sane(plan) && AtRest(plan, p) && p.stage < plan.stages && subject in p.pending
    ensures AtRest(plan, Answered(plan, p, subject))
  {
    hide Seen, Sane, Fits, Ready, Watched;
    var w :| Watched(plan, p.log, w) && Fits(plan, p, w);
    var e, v := Finished(subject, p.stage), w.(finished := w.finished + {subject});
    FinishIsSeen(plan, p, w, subject);
    WatchOne(plan, p.log, w, e, v);
    FinishFits(plan, p, w, subject, p.log + [e]);
    var left := Remove(p.pending, {subject});
    if left == [] {
      ResumeIsSeen(plan, Progress(p.stage + 1, [], false, p.log + [e]), v);
    } else {
      assert Fits(plan, p.(pending := left, log := p.log + [e]), v);
    }
  }

  /** A run: the operation is initiated, then late answers arrive in any order. */
  ghost predicate Possible(plan: Plan, p: Progress, answers: seq<nat>)
    decreases |answers|
  {
    answers == [] ||
    (p.stage < plan.stages && answers[0] in p.pending && Possible(plan, Answered(plan, p, answers[0]), answers[1..]))
  }

  ghost function After(plan: Plan, p: Progress, answers: seq<nat>): Progress
    requires Possible(plan, p, answers)
    decreases |answers|
  {
    if answers == [] then p else After(plan, Answered(plan, p, answers[0]), answers[1..])
  }

  lemma {:induction false} RunFits(plan: Plan, p: Progress, answers: seq<nat>)
    requires Sane(plan) && AtRest(plan, p) && Possible(plan, p, answers)
    ensures AtRest(plan, After(plan, p, answers))
    decreases |answers|
  {
    hide AtRest;
    if answers != [] {
      AnsweredIsSeen(plan, p, answers[0]);
      RunFits(plan, Answered(plan, p, answers[0]), answers[1..]);
    }
  }

  /** How often each event has been seen. */
  ghost predicate Counts(plan: Plan, w: Watch, log: seq<Event>) {
    && (forall k, t: nat | 0 <= k < |plan.subjects| ::
          multiset(log)[Told(plan.subjects[k], t)] == if t < w.stage || (t == w.stage && k < w.told) then 1 else 0)
    && (forall m, t: nat | m in plan.subjects ::
          multiset(log)[Finished(m, t)] == if t < w.stage || (t == w.stage && m in w.finished) then 1 else 0)
    && multiset(log)[Completed] == if w.completed then 1 else 0
  }

  lemma {:induction false} CountsFollow(plan: Plan, log: seq<Event>)
    requires Sane(plan) && SeenAll(plan, START, log).Some?
    ensures Counts(plan, SeenAll(plan, START, log).value, log)
    ensures SeenAll(plan, START, log).value.told <= |plan.subjects|
    decreases |log|
  {
    if log != [] {
      var before, e := log[..|log| - 1], log[|log| - 1];
      assert log == before + [e];
      PrefixIsSeen(plan, START, before, [e]);
      CountsFollow(plan, before);
      SeenAppend(plan, START, before, [e]);
      var w := SeenAll(plan, START, before).value;
      assert [e][1..] == [];
      assert Seen(plan, w, e) == SeenAll(plan, START, log);
      SeenCounts(plan, w, before, e, SeenAll(plan, START, log).value);
    } else {
      assert log == [] && SeenAll(plan, START, []) == Some(START);
    }
  }

  lemma {:induction false} PrefixIsSeen(plan: Plan, w: Watch, a: seq<Event>, b: seq<Event>)
    requires SeenAll(plan, w, a + b).Some?
    ensures SeenAll(plan, w, a).Some?
    decreases |a|
  {
    if a != [] {
      assert (a + b)[0] == a[0] && (a + b)[1..] == a[1..] + b;
      PrefixIsSeen(plan, Seen(plan, w, a[0]).value, a[1..], b);
    }
  }

  lemma SeenCounts(plan: Plan, w: Watch, log: seq<Event>, e: Event, v: Watch)
    requires Sane(plan) && Counts(plan, w, log) && w.told <= |plan.subjects| && Seen(plan, w, e) == Some(v)
    ensures Counts(plan, v, log + [e]) && v.told <= |plan.subjects|
  {
  }

  /** When an operation is done, however late the answers came, every module was told every stage exactly
      once and finished it exactly once. */
  lemma EachStageOnce(plan: Plan, answers: seq<nat>, k: nat, t: nat)
    requires Sane(plan) && Possible(plan, Initiated(plan), answers) && k < |plan.subjects| && t < plan.stages
    ensures var end := After(plan, Initiated(plan), answers);
      end.stage >= plan.stages ==>
        && multiset(end.log)[Told(plan.subjects[k], t)] == 1
        && multiset(end.log)[Finished(plan.subjects[k], t)] == 1
  {
    InitiatedIsAtRest(plan);
    RunFits(plan, Initiated(plan), answers);
    var end := After(plan, Initiated(plan), answers);
    var w :| Watched(plan, end.log, w) && Fits(plan, end, w);
    CountsFollow(plan, end.log);
    assert plan.subjects[k] in Elements(plan.subjects);
  }

  /** Who wants to know is told exactly once, when the operation is done, if the initiating call had
      returned before, and never if it had not; also without any modules or stages. */
  lemma CompletionOnce(plan: Plan, answers: seq<nat>)
    requires Sane(plan) && Possible(plan, Initiated(plan), answers)
    ensures var end := After(plan, Initiated(plan), answers);
      multiset(end.log)[Completed] ==
      if end.stage >= plan.stages && plan.notify && Initiated(plan).pending != [] then 1 else 0
  {
    InitiatedIsAtRest(plan);
    RunFits(plan, Initiated(plan), answers);
    var end := After(plan, Initiated(plan), answers);
    var w :| Watched(plan, end.log, w) && Fits(plan, end, w);
    CountsFollow(plan, end.log);
    InsideMeansAtOnce(plan, Initiated(plan), answers);
    ResumeKeepsInside(plan, Progress(0, [], true, []));
  }

  /** How many answers an operation at rest can still get at most. */
  function Room(plan: Plan, p: Progress): nat {
    if p.stage < plan.stages then |p.pending| + Times(|plan.subjects|, plan.stages - 1 - p.stage) else 0
  }

  function Times(n: nat, k: nat): nat {
    if k == 0 then 0 else n + Times(n, k - 1)
  }

  lemma {:induction false} TimesIsProduct(n: nat, k: nat)
    ensures Times(n, k) == n * k
  {
    if k > 0 {
      TimesIsProduct(n, k - 1);
    }
  }

  lemma {:induction false} LateIsNoLonger(plan: Plan, subjects: seq<nat>, stage: nat)
    ensures |Late(plan, subjects, stage)| <= |subjects|
  {
    if subjects != [] {
      LateIsNoLonger(plan, subjects[1..], stage);
    }
  }

  lemma {:induction false} ResumeHasRoom(plan: Plan, p: Progress)
    requires p.pending == []
    ensures Room(plan, Resume(plan, p)) <=
            if p.stage < plan.stages then Times(|plan.subjects|, plan.stages - p.stage) else 0
    decreases plan.stages - p.stage
  {
    if p.stage < plan.stages {
      LateIsNoLonger(plan, plan.subjects, p.stage);
      var q := AfterStage(plan, p);
      if q.pending == [] {
        ResumeHasRoom(plan, q.(stage := p.stage + 1));
      }
    }
  }

  lemma AnswerTakesRoom(plan: Plan, p: Progress, subject: nat)
    requires p.stage < plan.stages && subject in p.pending
    ensures Room(plan, Answered(plan, p, subject)) < Room(plan, p)
  {
    var left := Remove(p.pending, {subject});
    RemoveElements(p.pending, {subject});
    RemoveShortens(p.pending, subject);
    if left == [] {
      ResumeHasRoom(plan, Progress(p.stage + 1, [], false, p.log + [Finished(subject, p.stage)]));
    }
  }

  lemma {:induction false} RemoveShortens(s: seq<nat>, x: nat)
    requires x in s
    ensures |Remove(s, {x})| < |s|
  {
    RemoveElements(s[1..], {x});
    if s[0] != x {
      RemoveShortens(s[1..], x);
    }
  }

  lemma {:induction false} AnswersFit(plan: Plan, p: Progress, answers: seq<nat>)
    requires Possible(plan, p, answers)
    ensures |answers| + Room(plan, After(plan, p, answers)) <= Room(plan, p)
    decreases |answers|
  {
    if answers != [] {
      AnswerTakesRoom(plan, p, answers[0]);
      AnswersFit(plan, Answered(plan, p, answers[0]), answers[1..]);
    }
  }

  /** An operation ends: while it is not done somebody has still to answer, and there are never
      more late answers than modules times stages. */
  lemma OperationEnds(plan: Plan, answers: seq<nat>)
    requires Sane(plan) && Possible(plan, Initiated(plan), answers)
    ensures var end := After(plan, Initiated(plan), answers);
      end.stage < plan.stages <==> end.pending != []
    ensures |answers| <= |plan.subjects| * plan.stages
  {
    InitiatedIsAtRest(plan);
    RunFits(plan, Initiated(plan), answers);
    AnswersFit(plan, Initiated(plan), answers);
    ResumeHasRoom(plan, Progress(0, [], true, []));
    TimesIsProduct(|plan.subjects|, plan.stages);
  }

  lemma InitiatedIsAtRest(plan: Plan)
    requires Sane(plan)
    ensures AtRest(plan, Initiated(plan))
  {
    ResumeIsSeen(plan, Progress(0, [], true, []), START);
  }

  lemma {:induction false} ResumeKeepsInside(plan: Plan, p: Progress)
    ensures Resume(plan, p).inside == p.inside
    decreases plan.stages - p.stage
  {
    if p.stage < plan.stages && AfterStage(plan, p).pending == [] {
      ResumeKeepsInside(plan, AfterStage(plan, p).(stage := p.stage + 1));
    }
  }

  /** The operation is done inside the initiating call exactly when nobody was late. */
  lemma {:induction false} InsideMeansAtOnce(plan: Plan, p: Progress, answers: seq<nat>)
    requires Sane(plan) && AtRest(plan, p) && Possible(plan, p, answers)
    ensures After(plan, p, answers).stage >= plan.stages ==>
      (After(plan, p, answers).inside <==> p.inside && p.pending == [])
    decreases |answers|
  {
    hide AtRest, Resume;
    NothingPendingWhenDone(plan, p);
    if answers != [] {
      AnsweredIsSeen(plan, p, answers[0]);
      InsideMeansAtOnce(plan, Answered(plan, p, answers[0]), answers[1..]);
      var one := p.(pending := Remove(p.pending, {answers[0]}), log := p.log + [Finished(answers[0], p.stage)]);
      ResumeKeepsInside(plan, one.(stage := p.stage + 1, inside := false));
    }
  }

  lemma NothingPendingWhenDone(plan: Plan, p: Progress)
    requires AtRest(plan, p)
    ensures p.stage >= plan.stages ==> p.pending == []
  {
  }

  /** What has been seen when a module is told a stage. */
  lemma SeenBefore(plan: Plan, answers: seq<nat>, i: nat)
    requires Sane(plan) && Possible(plan, Initiated(plan), answers)
    requires var log := After(plan, Initiated(plan), answers).log; i < |log|
    ensures var log := After(plan, Initiated(plan), answers).log;
      && SeenAll(plan, START, log[..i]).Some?
      && Counts(plan, SeenAll(plan, START, log[..i]).value, log[..i])
      && SeenAll(plan, START, log[..i]).value.told <= |plan.subjects|
      && Seen(plan, SeenAll(plan, START, log[..i]).value, log[i]).Some?
  {
    InitiatedIsAtRest(plan);
    RunFits(plan, Initiated(plan), answers);
    var log := After(plan, Initiated(plan), answers).log;
    assert log == (log[..i] + [log[i]]) + log[i + 1..];
    PrefixIsSeen(plan, START, log[..i] + [log[i]], log[i + 1..]);
    PrefixIsSeen(plan, START, log[..i], [log[i]]);
    SeenAppend(plan, START, log[..i], [log[i]]);
    CountsFollow(plan, log[..i]);
    assert [log[i]][1..] == [];
  }

  /** No module is told a stage before all have finished the one before. */
  lemma Barrier(plan: Plan, answers: seq<nat>, i: nat, m: nat)
    requires Sane(plan) && Possible(plan, Initiated(plan), answers) && m in plan.subjects
    requires var log := After(plan, Initiated(plan), answers).log; i < |log| && log[i].Told? && log[i].stage > 0
    ensures var log := After(plan, Initiated(plan), answers).log; Finished(m, log[i].stage - 1) in log[..i]
  {
    SeenBefore(plan, answers, i);
    var log := After(plan, Initiated(plan), answers).log;
    assert m in Elements(plan.subjects);
    assert multiset(log[..i])[Finished(m, log[i].stage - 1)] == 1;
  }

  /** The stages reach a module in order: when it is told one, it has been told exactly the earlier ones. */
  lemma StagesComeInOrder(plan: Plan, answers: seq<nat>, i: nat, t: nat)
    requires Sane(plan) && Possible(plan, Initiated(plan), answers)
    requires var log := After(plan, Initiated(plan), answers).log; i < |log| && log[i].Told?
    ensures var log := After(plan, Initiated(plan), answers).log;
      multiset(log[..i])[Told(log[i].subject, t)] == if t < log[i].stage then 1 else 0
  {
    SeenBefore(plan, answers, i);
    var log := After(plan, Initiated(plan), answers).log;
    var w := SeenAll(plan, START, log[..i]).value;
    var k := if StageDone(plan, w) then 0 else w.told;
    assert plan.subjects[k] == log[i].subject;
  }
}
