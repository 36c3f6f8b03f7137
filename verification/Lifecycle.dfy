/** The lifecycle controller: operations in progress, their callbacks, and the spare callback object. */
module LifecycleControllers {
  import opened LifecycleRuns
  import opened Sequences

  class Callback {
    var operation: Operation?
    var subject: nat

    constructor ()
      ensures operation == null
    {
      operation := null;
      subject := 0;
    }
  }

  class Operation {
    const root: Module
    const plan: Plan
    var currentStage: nat
    var pendingList: seq<Callback>
    var insideInitiateOperation: bool
    var log: seq<Event>

    constructor (root: Module, stages: nat, atOnce: (nat, nat) -> bool, notify: bool)
      ensures this.root == root && plan == Plan(Preorder(root), stages, atOnce, notify)
      ensures View() == Progress(0, [], false, [])
    {
      this.root := root;
      plan := Plan(Preorder(root), stages, atOnce, notify);
      currentStage, pendingList, insideInitiateOperation, log := 0, [], false, [];
    }

    ghost predicate OverTree() {
      plan.subjects == Preorder(root)
    }

    ghost function Pending(): seq<nat>
      reads this, pendingList
    {
      Subjects(pendingList)
    }

    ghost function View(): Progress
      reads this, pendingList
    {
      Progress(currentStage, Pending(), insideInitiateOperation, log)
    }

    /** Its pending callbacks are its own, and none of them is the spare one. */
    ghost predicate Owns(spare: Callback?)
      reads this, pendingList
    {
      && (forall k | 0 <= k < |pendingList| :: pendingList[k].operation == this && pendingList[k] != spare)
      && Distinct(pendingList)
    }

    /** A callback is set up and kept until it is invoked. */
    method Await(callback: Callback, subject: nat)
      requires Owns(callback) && callback.operation == null
      modifies `pendingList, callback
      ensures Owns(null) && Pending() == old(Pending()) + [subject]
    {
      callback.operation := this;
      callback.subject := subject;
      pendingList := pendingList + [callback];
    }
  }

  ghost function Subjects(callbacks: seq<Callback>): (s: seq<nat>)
    reads callbacks
    ensures |s| == |callbacks| && forall k | 0 <= k < |s| :: s[k] == callbacks[k].subject
  {
    seq(|callbacks|, k requires 0 <= k < |callbacks| reads callbacks => callbacks[k].subject)
  }

  class LifecycleController {
    var spareCallback: Callback?

    constructor ()
      ensures spareCallback == null
    {
      spareCallback := null;
    }

    /** The spare callback has never been given out. */
    ghost predicate Valid()
      reads this, spareCallback
    {
      spareCallback != null ==> spareCallback.operation == null
    }

    /** One module of the tree is told the current stage; if it will answer later, its callback is kept. */
    method TellOne(op: Operation, subject: nat)
      requires Valid() && op.Owns(spareCallback)
      modifies this, spareCallback, op`pendingList, op`log
      ensures Valid() && op.Owns(spareCallback)
      ensures spareCallback == null || spareCallback == old(spareCallback) || fresh(spareCallback)
      ensures op.Pending() == old(op.Pending()) + if op.plan.atOnce(subject, op.currentStage) then [] else [subject]
      ensures op.log == old(op.log) + [Told(subject, op.currentStage)]
                        + if op.plan.atOnce(subject, op.currentStage) then [Finished(subject, op.currentStage)] else []
    {
      var callback := spareCallback;
      if callback == null {
        callback := new Callback();
      }
      op.log := op.log + [Told(subject, op.currentStage)];
      if !op.plan.atOnce(subject, op.currentStage) {
        op.Await(callback, subject);
        spareCallback := null;
      } else {
        op.log := op.log + [Finished(subject, op.currentStage)];
        spareCallback := callback;
      }
    }

    /** doOneStage: the module, then its submodules. */
    method DoOneStage(op: Operation, m: Module)
      requires Valid() && op.Owns(spareCallback)
      modifies this, spareCallback, op`pendingList, op`log
      ensures Valid() && op.Owns(spareCallback)
      ensures spareCallback == null || spareCallback == old(spareCallback) || fresh(spareCallback)
      ensures op.Pending() == old(op.Pending()) + Late(op.plan, Preorder(m), op.currentStage)
      ensures op.log == old(op.log) + Tell(op.plan, Preorder(m), op.currentStage)
      decreases m
    {
      hide Tell, Late, Preorder, PreorderAll;
      ghost var done := if m.participates then [m.id] else [];
      Nobody(op.plan, op.currentStage, op.Pending(), op.log);
      PreorderIs(m, done);
      if m.participates {
        OneTold(op.plan, m.id, op.currentStage);
        TellOne(op, m.id);
      }
      for i := 0 to |m.children|
        invariant Valid() && op.Owns(spareCallback)
        invariant spareCallback == null || spareCallback == old(spareCallback) || fresh(spareCallback)
        invariant op.Pending() ==
                  old(op.Pending()) + Late(op.plan, done + PreorderAll(m.children[..i]), op.currentStage)
        invariant op.log == old(op.log) + Tell(op.plan, done + PreorderAll(m.children[..i]), op.currentStage)
      {
        DoOneStage(op, m.children[i]);
        OneMore(op.plan, op.currentStage, old(op.Pending()), old(op.log), done, m.children, i);
      }
    }

    /** One round of the stage loop. */
    method NextStage(op: Operation) returns (all: bool)
      requires Valid() && op.Owns(spareCallback) && op.OverTree() && op.pendingList == []
      modifies this, spareCallback, op
      ensures Valid() && op.Owns(spareCallback)
      ensures spareCallback == null || spareCallback == old(spareCallback) || fresh(spareCallback)
      ensures var q := AfterStage(op.plan, old(op.View()));
        && (all <==> q.pending == [])
        && op.View() == if all then q.(stage := q.stage + 1) else q
    {
      hide Late, Tell;
      DoOneStage(op, op.root);
      all := op.pendingList == [];
      if all {
        op.currentStage := op.currentStage + 1;
      }
    }

    /** resumeOperation: goes on until somebody is late or all stages are done. */
    method ResumeOperation(op: Operation) returns (done: bool)
      requires Valid() && op.Owns(spareCallback) && op.OverTree() && op.pendingList == []
      modifies this, spareCallback, op
      ensures Valid() && op.Owns(spareCallback)
      ensures spareCallback == null || spareCallback == old(spareCallback) || fresh(spareCallback)
      ensures op.View() == Resume(op.plan, old(op.View()))
      ensures done <==> op.currentStage >= op.plan.stages
    {
      hide Late, Tell;
      assert op.Pending() == [];
      while op.currentStage < op.plan.stages
        invariant Valid() && op.Owns(spareCallback) && op.Pending() == []
        invariant spareCallback == null || spareCallback == old(spareCallback) || fresh(spareCallback)
        invariant Resume(op.plan, op.View()) == Resume(op.plan, old(op.View()))
        decreases op.plan.stages - op.currentStage
      {
        var all := NextStage(op);
        if !all {
          return false;
        }
      }
      if op.plan.notify && !op.insideInitiateOperation {
        op.log := op.log + [Completed];
      }
      done := true;
    }

    /** initiateOperation: true means that the operation is done.  No other operation is disturbed. */
    method InitiateOperation(op: Operation, ghost others: set<Operation>) returns (done: bool)
      requires Valid() && op.pendingList == [] && op.log == [] && op.OverTree()
      requires op !in others && forall o | o in others :: o.Owns(spareCallback)
      modifies this, spareCallback, op
      ensures Valid() && op.Owns(spareCallback)
      ensures op.View() == Initiated(op.plan)
      ensures done <==> op.currentStage >= op.plan.stages
      ensures forall o | o in others :: o.Owns(spareCallback) && o.View() == old(o.View())
    {
      op.currentStage := 0;
      op.insideInitiateOperation := true;
      assert op.Pending() == [];
      hide Resume;
      done := ResumeOperation(op);
    }

    /** Callback::invoke: a late answer.  No other operation is disturbed. */
    method Invoke(callback: Callback, ghost others: set<Operation>)
      requires Valid() && callback.operation != null && callback in callback.operation.pendingList
      requires callback.operation.Owns(spareCallback) && callback.operation.OverTree()
      requires Distinct(callback.operation.Pending())
      requires callback.operation !in others && forall o | o in others :: o.Owns(spareCallback)
      modifies this, spareCallback, callback.operation
      ensures callback.operation == old(callback.operation)
      ensures Valid() && callback.operation.Owns(spareCallback)
      ensures callback.operation.View() ==
              Answered(callback.operation.plan, old(callback.operation.View()), callback.subject)
      ensures forall o | o in others :: o.Owns(spareCallback) && o.View() == old(o.View())
    {
      hide Answered;
      ModuleOperationStageCompleted(callback.operation, callback);
    }

    method ModuleOperationStageCompleted(op: Operation, callback: Callback)
      requires Valid() && op.Owns(spareCallback) && op.OverTree()
      requires callback in op.pendingList && Distinct(op.Pending())
      modifies this, spareCallback, op
      ensures Valid() && op.Owns(spareCallback)
      ensures spareCallback == null || spareCallback == old(spareCallback) || fresh(spareCallback)
      ensures op.View() == Answered(op.plan, old(op.View()), callback.subject)
    {
      hide Resume, Late, Tell, Remove;
      op.log := op.log + [Finished(callback.subject, op.currentStage)];
      DeleteElement(op, callback);
      if op.pendingList == [] {
        AdvanceAndResume(op);
      }
    }

    method AdvanceAndResume(op: Operation)
      requires Valid() && op.Owns(spareCallback) && op.OverTree() && op.pendingList == []
      modifies this, spareCallback, op
      ensures Valid() && op.Owns(spareCallback)
      ensures spareCallback == null || spareCallback == old(spareCallback) || fresh(spareCallback)
      ensures op.View() ==
              Resume(op.plan, old(op.View()).(stage := old(op.currentStage) + 1, inside := false))
    {
      hide Resume;
      op.currentStage := op.currentStage + 1;
      op.insideInitiateOperation := false;
      var _ := ResumeOperation(op);
    }

    /** vector_delete_element. */
    method DeleteElement(op: Operation, callback: Callback)
      requires callback in op.pendingList && op.Owns(spareCallback) && Distinct(op.Pending())
      modifies op`pendingList
      ensures op.Pending() == Remove(old(op.Pending()), {callback.subject})
      ensures op.Owns(spareCallback) && (op.pendingList == [] <==> op.Pending() == [])
    {
      var k := 0;
      while op.pendingList[k] != callback
        invariant 0 <= k < |op.pendingList| && callback in op.pendingList[k..]
        decreases |op.pendingList| - k
      {
        k := k + 1;
      }
      Erased(op.pendingList, k);
      op.pendingList := op.pendingList[..k] + op.pendingList[k + 1..];
    }
  }

  lemma Erased(callbacks: seq<Callback>, k: nat)
    requires k < |callbacks| && Distinct(Subjects(callbacks)) && Distinct(callbacks)
    ensures Subjects(callbacks[..k] + callbacks[k + 1..]) == Remove(Subjects(callbacks), {callbacks[k].subject})
    ensures Distinct(callbacks[..k] + callbacks[k + 1..])
  {
    EraseIsRemove(Subjects(callbacks), k);
    assert Subjects(callbacks[..k] + callbacks[k + 1..]) == Subjects(callbacks)[..k] + Subjects(callbacks)[k + 1..];
  }

  lemma OneTold(plan: Plan, subject: nat, stage: nat)
    ensures Late(plan, [subject], stage) == if plan.atOnce(subject, stage) then [] else [subject]
    ensures Tell(plan, [subject], stage) ==
            [Told(subject, stage)] + if plan.atOnce(subject, stage) then [Finished(subject, stage)] else []
  {
    assert [subject][1..] == [];
  }

  lemma PreorderIs(m: Module, done: seq<nat>)
    requires done == if m.participates then [m.id] else []
    ensures Preorder(m) == done + PreorderAll(m.children[..|m.children|]) && done + PreorderAll(m.children[..0]) == done
  {
    assert m.children[..|m.children|] == m.children;
  }

  /** One child more: what it adds to the pending ones and to the log. */
  lemma OneMore(plan: Plan, stage: nat, pending: seq<nat>, log: seq<Event>, done: seq<nat>, ms: seq<Module>, i: nat)
    requires i < |ms|
    ensures var before, after := done + PreorderAll(ms[..i]), done + PreorderAll(ms[..i + 1]);
      && pending + Late(plan, before, stage) + Late(plan, Preorder(ms[i]), stage) == pending + Late(plan, after, stage)
      && log + Tell(plan, before, stage) + Tell(plan, Preorder(ms[i]), stage) == log + Tell(plan, after, stage)
  {
    hide Late, Tell, Preorder, PreorderAll;
    var before := done + PreorderAll(ms[..i]);
    ChildrenSoFar(ms, i);
    Regroup(done, PreorderAll(ms[..i]), Preorder(ms[i]));
    Together(plan, before, Preorder(ms[i]), stage);
    Regroup(pending, Late(plan, before, stage), Late(plan, Preorder(ms[i]), stage));
    Regroup(log, Tell(plan, before, stage), Tell(plan, Preorder(ms[i]), stage));
  }

  lemma Regroup<T>(a: seq<T>, b: seq<T>, c: seq<T>)
    ensures a + b + c == a + (b + c)
  {
  }

  lemma Nobody(plan: Plan, stage: nat, pending: seq<nat>, log: seq<Event>)
    ensures pending + Late(plan, [], stage) == pending && log + Tell(plan, [], stage) == log
  {
  }

  lemma {:induction false} ChildrenSoFar(ms: seq<Module>, i: nat)
    requires i < |ms|
    ensures PreorderAll(ms[..i + 1]) == PreorderAll(ms[..i]) + Preorder(ms[i])
    decreases |ms|
  {
    if i > 0 {
      ChildrenSoFar(ms[1..], i - 1);
      assert ms[..i + 1][1..] == ms[1..][..i] && ms[..i][1..] == ms[1..][..i - 1];
      assert ms[..i + 1][0] == ms[0] && ms[..i][0] == ms[0];
      Regroup(Preorder(ms[0]), PreorderAll(ms[1..][..i - 1]), Preorder(ms[i]));
    } else {
      assert ms[..1] == [ms[0]] && ms[..0] == [];
    }
  }

  lemma Together(plan: Plan, a: seq<nat>, b: seq<nat>, stage: nat)
    ensures Late(plan, a + b, stage) == Late(plan, a, stage) + Late(plan, b, stage)
    ensures Tell(plan, a + b, stage) == Tell(plan, a, stage) + Tell(plan, b, stage)
  {
    hide Late, Tell;
    LateTogether(plan, a, b, stage);
    ToldTogether(plan, a, b, stage);
  }

  lemma {:induction false} LateTogether(plan: Plan, a: seq<nat>, b: seq<nat>, stage: nat)
    ensures Late(plan, a + b, stage) == Late(plan, a, stage) + Late(plan, b, stage)
  {
    if a == [] {
      assert a + b == b;
    } else {
      assert (a + b)[0] == a[0] && (a + b)[1..] == a[1..] + b;
      LateTogether(plan, a[1..], b, stage);
      var one := if plan.atOnce(a[0], stage) then [] else [a[0]];
      Regroup(one, Late(plan, a[1..], stage), Late(plan, b, stage));
    }
  }

  lemma {:induction false} ToldTogether(plan: Plan, a: seq<nat>, b: seq<nat>, stage: nat)
    ensures Tell(plan, a + b, stage) == Tell(plan, a, stage) + Tell(plan, b, stage)
  {
    if a == [] {
      assert a + b == b;
    } else {
      assert (a + b)[0] == a[0] && (a + b)[1..] == a[1..] + b;
      ToldTogether(plan, a[1..], b, stage);
      var one := [Told(a[0], stage)] + if plan.atOnce(a[0], stage) then [Finished(a[0], stage)] else [];
      Regroup(one, Tell(plan, a[1..], stage), Tell(plan, b, stage));
    }
  }
}
