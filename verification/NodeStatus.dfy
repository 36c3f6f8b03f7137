/** The status of a network node while lifecycle operations come and go. */
module NodeStatuses {

  datatype Status = Up | Down | GoingUp | GoingDown

  datatype Kind = NodeStart | NodeShutdown | NodeCrash | OtherKind

  /** One stage of an operation reaches the node. */
  datatype Call = Call(operation: nat, kind: Kind, stages: nat, stage: nat)

  /** The runtime error of an operation that comes at the wrong time, and a failed assertion. */
  datatype Outcome = Fine | WrongStatus | AssertionFailed

  function Going(kind: Kind): Status
    requires kind != OtherKind
  {
    if kind == NodeStart then GoingUp else GoingDown
  }

  function Before(kind: Kind): Status {
    if kind == NodeStart then Down else Up
  }

  function Behind(kind: Kind): Status {
    if kind == NodeStart then Up else Down
  }

  /** handleOperationStage. */
  function Handle(state: Status, c: Call): (r: (Status, Outcome)) {
    if c.kind == OtherKind then (state, Fine)
    else if c.stage == 0 && state != Before(c.kind) then (state, WrongStatus)
    else
      var now := if c.stage == 0 then Going(c.kind) else state;
      if c.stage != c.stages - 1 then (now, Fine)
      else if now != Going(c.kind) then (now, AssertionFailed)
      else (Behind(c.kind), Fine)
  }

  /** A run up to the first error: the simulation ends there. */
  function Run(state: Status, calls: seq<Call>): (r: (Status, Outcome))
    decreases |calls|
  {
    if calls == [] then (state, Fine)
    else
      var (before, outcome) := Run(state, calls[..|calls| - 1]);
      if outcome != Fine then (before, outcome) else Handle(before, calls[|calls| - 1])
  }

  /** How many stages of an operation have been handled. */
  function Count(calls: seq<Call>, operation: nat): nat
    decreases |calls|
  {
    if calls == [] then 0
    else Count(calls[..|calls| - 1], operation) + if calls[|calls| - 1].operation == operation then 1 else 0
  }

  /** Every operation brings its stages in order, each once, whatever other operations do in between. */
  ghost predicate InOrder(calls: seq<Call>) {
    && (forall i | 0 <= i < |calls| ::
          calls[i].stage < calls[i].stages && calls[i].stage == Count(calls[..i], calls[i].operation))
    && (forall i, j | 0 <= i < j < |calls| && calls[i].operation == calls[j].operation ::
          calls[i].kind == calls[j].kind && calls[i].stages == calls[j].stages)
  }

  /** The operation of the i-th call has begun and is not over. */
  ghost predicate Underway(calls: seq<Call>, i: nat)
    requires i < |calls|
  {
    calls[i].kind != OtherKind && Count(calls, calls[i].operation) < calls[i].stages
  }

  /** At most one operation that matters is under way, and the status shows which way it goes. */
  ghost predicate Consistent(calls: seq<Call>, state: Status) {
    && (forall i | 0 <= i < |calls| && Underway(calls, i) :: state == Going(calls[i].kind))
    && (forall i, j | 0 <= i < j < |calls| && Underway(calls, i) && Underway(calls, j) ::
          calls[i].operation == calls[j].operation)
  }

  lemma {:induction false} CountOfMember(calls: seq<Call>, i: nat)
    requires i < |calls|
    ensures Count(calls, calls[i].operation) > 0
    decreases |calls|
  {
    if i < |calls| - 1 {
      CountOfMember(calls[..|calls| - 1], i);
    }
  }

  lemma {:induction false} CountedIsThere(calls: seq<Call>, operation: nat)
    requires Count(calls, operation) > 0
    ensures exists i :: 0 <= i < |calls| && calls[i].operation == operation
    decreases |calls|
  {
    if calls[|calls| - 1].operation != operation {
      CountedIsThere(calls[..|calls| - 1], operation);
    }
  }

  lemma CountStep(before: seq<Call>, c: Call, operation: nat)
    ensures Count(before + [c], operation) == Count(before, operation) + if c.operation == operation then 1 else 0
  {
    var calls := before + [c];
    assert calls[..|calls| - 1] == before;
  }

  /** An operation that was under way before the last call. */
  lemma UnderwayBefore(before: seq<Call>, c: Call, calls: seq<Call>, i: nat)
    requires calls == before + [c] && InOrder(calls) && i < |before| && Underway(calls, i)
    ensures Underway(before, i) && calls[i] == before[i]
  {
    CountStep(before, c, calls[i].operation);
  }

  lemma LastIsInOrder(before: seq<Call>, c: Call, calls: seq<Call>)
    requires calls == before + [c] && InOrder(calls)
    ensures InOrder(before) && c.stage < c.stages && c.stage == Count(before, c.operation)
    ensures forall i | 0 <= i < |before| && before[i].operation == c.operation ::
              before[i].kind == c.kind && before[i].stages == c.stages
  {
    assert calls[..|before|] == before && calls[|before|] == c;
    assert forall i | 0 <= i < |before| :: before[..i] == calls[..i] && before[i] == calls[i];
  }

  /** A first stage that gets through finds nothing under way. */
  lemma FirstStage(before: seq<Call>, s: Status, c: Call, calls: seq<Call>, i: nat)
    requires calls == before + [c] && InOrder(calls) && Consistent(before, s)
    requires c.kind != OtherKind && s == Before(c.kind) && i < |calls| && Underway(calls, i)
    ensures i == |before|
  {
    if i < |before| {
      UnderwayBefore(before, c, calls, i);
    }
  }

  /** A later stage finds its own operation under way, and no other. */
  lemma LaterStage(before: seq<Call>, s: Status, c: Call, calls: seq<Call>)
    requires calls == before + [c] && InOrder(calls) && Consistent(before, s) && c.kind != OtherKind && c.stage > 0
    ensures s == Going(c.kind)
    ensures forall i | 0 <= i < |before| && Underway(before, i) :: before[i].operation == c.operation
  {
    LastIsInOrder(before, c, calls);
    CountedIsThere(before, c.operation);
    var k :| 0 <= k < |before| && before[k].operation == c.operation;
    assert Underway(before, k);
  }

  lemma CallIsConsistent(before: seq<Call>, s: Status, c: Call, calls: seq<Call>)
    requires calls == before + [c] && InOrder(calls) && Consistent(before, s)
    ensures Handle(s, c).1 != AssertionFailed
    ensures Handle(s, c).1 == Fine ==> Consistent(calls, Handle(s, c).0)
  {
    LastIsInOrder(before, c, calls);
    CountStep(before, c, c.operation);
    if c.kind != OtherKind && c.stage > 0 {
      LaterStage(before, s, c, calls);
    }
    if Handle(s, c).1 == Fine {
      StatusShows(before, s, c, calls);
      OneUnderway(before, s, c, calls);
    }
  }

  /** The status after a call shows what is under way. */
  lemma StatusShows(before: seq<Call>, s: Status, c: Call, calls: seq<Call>)
    requires calls == before + [c] && InOrder(calls) && Consistent(before, s) && Handle(s, c).1 == Fine
    ensures forall i | 0 <= i < |calls| && Underway(calls, i) :: Handle(s, c).0 == Going(calls[i].kind)
  {
    LastIsInOrder(before, c, calls);
    CountStep(before, c, c.operation);
    if c.kind != OtherKind && c.stage > 0 {
      LaterStage(before, s, c, calls);
    }
    hide InOrder, Count;
    forall i | 0 <= i < |calls| && Underway(calls, i)
      ensures Handle(s, c).0 == Going(calls[i].kind)
    {
      if i < |before| {
        UnderwayBefore(before, c, calls, i);
      }
      if c.kind != OtherKind && c.stage == 0 {
        FirstStage(before, s, c, calls, i);
      }
    }
  }

  /** After a call still at most one operation is under way. */
  lemma OneUnderway(before: seq<Call>, s: Status, c: Call, calls: seq<Call>)
    requires calls == before + [c] && InOrder(calls) && Consistent(before, s) && Handle(s, c).1 == Fine
    ensures forall i, j | 0 <= i < j < |calls| && Underway(calls, i) && Underway(calls, j) ::
              calls[i].operation == calls[j].operation
  {
    if c.kind != OtherKind && c.stage > 0 {
      LaterStage(before, s, c, calls);
    }
    LastIsInOrder(before, c, calls);
    hide InOrder, Count;
    forall i, j | 0 <= i < j < |calls| && Underway(calls, i) && Underway(calls, j)
      ensures calls[i].operation == calls[j].operation
    {
      UnderwayBefore(before, c, calls, i);
      if j < |before| {
        UnderwayBefore(before, c, calls, j);
      } else if c.stage == 0 {
        FirstStage(before, s, c, calls, i);
      }
    }
  }

  /** However operations on a node interleave, the assertions about GOING_UP and GOING_DOWN never fail:
      a run either goes on or has been ended by an operation that came at the wrong time. */
  lemma {:induction false} AssertionsHold(state: Status, calls: seq<Call>)
    requires InOrder(calls)
    ensures Run(state, calls).1 != AssertionFailed
    ensures Run(state, calls).1 == Fine ==> Consistent(calls, Run(state, calls).0)
    decreases |calls|
  {
    if calls != [] {
      hide InOrder, Consistent, Handle;
      var n := |calls| - 1;
      var before, c := calls[..n], calls[n];
      assert calls == before + [c];
      LastIsInOrder(before, c, calls);
      AssertionsHold(state, before);
      var (s, outcome) := Run(state, before);
      if outcome == Fine {
        CallIsConsistent(before, s, c, calls);
      }
    }
  }

  /** The first `k` stages of an operation, nothing in between. */
  function Stages(operation: nat, kind: Kind, stages: nat, k: nat): seq<Call>
    requires k <= stages
  {
    if k == 0 then [] else Stages(operation, kind, stages, k - 1) + [Call(operation, kind, stages, k - 1)]
  }

  /** An operation on its own: a start takes a node from DOWN over GOING_UP to UP, a shutdown or crash from
      UP over GOING_DOWN to DOWN, and from any other status it fails at once and changes nothing. */
  lemma {:induction false} OperationMoves(state: Status, operation: nat, kind: Kind, stages: nat, k: nat)
    requires kind != OtherKind && 0 < k <= stages
    ensures Run(state, Stages(operation, kind, stages, k)) ==
            if kind == NodeStart then
              if state != Down then (state, WrongStatus) else if k < stages then (GoingUp, Fine) else (Up, Fine)
            else
              if state != Up then (state, WrongStatus) else if k < stages then (GoingDown, Fine) else (Down, Fine)
  {
    hide Run;
    RunStep(state, Stages(operation, kind, stages, k - 1), Call(operation, kind, stages, k - 1));
    if k == 1 {
      RunNothing(state);
    } else {
      OperationMoves(state, operation, kind, stages, k - 1);
    }
  }

  lemma RunNothing(state: Status)
    ensures Run(state, []) == (state, Fine)
  {
  }

  lemma RunStep(state: Status, before: seq<Call>, c: Call)
    ensures Run(state, before + [c]) ==
            var (s, outcome) := Run(state, before); if outcome != Fine then (s, outcome) else Handle(s, c)
  {
    hide Handle;
    var calls := before + [c];
    assert calls[..|calls| - 1] == before;
  }

  class NodeStatus {
    var state: Status

    constructor (initial: Status)
      ensures state == initial
    {
      state := initial;
    }

    /** A start goes DOWN, GOING_UP, UP; a shutdown or crash goes UP, GOING_DOWN, DOWN. */
    method HandleOperationStage(c: Call) returns (outcome: Outcome)
      modifies this
      ensures (state, outcome) == Handle(old(state), c)
    {
      outcome := Fine;
      match c.kind {
        case OtherKind =>
        case NodeStart =>
          outcome := Advance(c, Down, GoingUp, Up);
        case NodeShutdown =>
          outcome := Advance(c, Up, GoingDown, Down);
        case NodeCrash =>
          outcome := Advance(c, Up, GoingDown, Down);
      }
    }

    method Advance(c: Call, from: Status, going: Status, to: Status) returns (outcome: Outcome)
      requires c.kind != OtherKind && (from, going, to) == (Before(c.kind), Going(c.kind), Behind(c.kind))
      modifies this
      ensures (state, outcome) == Handle(old(state), c)
    {
      outcome := Fine;
      if c.stage == 0 {
        if state != from {
          return WrongStatus;
        }
        state := going;
      }
      if c.stage == c.stages - 1 {
        if state != going {
          return AssertionFailed;
        }
        state := to;
      }
    }
  }
}
