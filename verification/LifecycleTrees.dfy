/** Whom a staged operation reaches in a module tree, and in which order. */
module LifecycleTrees {
  import opened LifecycleRuns
  import opened Sequences

  ghost predicate InTree(x: Module, m: Module)
    decreases m
  {
    x == m || exists k :: 0 <= k < |m.children| && InTree(x, m.children[k])
  }

  ghost predicate Reached(x: Module, m: Module, id: nat) {
    InTree(x, m) && x.participates && x.id == id
  }

  /** Exactly the participating modules of the tree are told, also those below modules that do not participate. */
  lemma {:induction false} SubjectsAreTheTree(m: Module, id: nat)
    ensures id in Preorder(m) <==> exists x :: Reached(x, m, id)
    decreases m
  {
    forall k | 0 <= k < |m.children|
      ensures id in Preorder(m.children[k]) <==> exists x :: Reached(x, m.children[k], id)
    {
      SubjectsAreTheTree(m.children[k], id);
    }
    InSomeChild(m.children, id);
    if x :| Reached(x, m, id) {
      if x != m {
        var k :| 0 <= k < |m.children| && InTree(x, m.children[k]);
        assert Reached(x, m.children[k], id);
      }
    }
    if id in Preorder(m) {
      if m.participates && m.id == id {
        assert Reached(m, m, id);
      } else {
        var k :| 0 <= k < |m.children| && id in Preorder(m.children[k]);
        var x :| Reached(x, m.children[k], id);
        assert Reached(x, m, id);
      }
    }
  }

  lemma {:induction false} InSomeChild(ms: seq<Module>, id: nat)
    ensures id in PreorderAll(ms) <==> exists k :: 0 <= k < |ms| && id in Preorder(ms[k])
  {
    if ms != [] {
      InSomeChild(ms[1..], id);
      if k :| 0 <= k < |ms| && id in Preorder(ms[k]) {
        assert k > 0 ==> ms[1..][k - 1] == ms[k];
      }
      if k :| 0 <= k < |ms[1..]| && id in Preorder(ms[1..][k]) {
        assert ms[k + 1] == ms[1..][k];
      }
    }
  }

  /** The modules of the k-th tree are told together. */
  lemma {:induction false} ChildIsTogether(ms: seq<Module>, k: nat) returns (before: seq<nat>, behind: seq<nat>)
    requires k < |ms|
    ensures PreorderAll(ms) == before + Preorder(ms[k]) + behind
    ensures behind == PreorderAll(ms[k + 1..])
  {
    if k == 0 {
      before, behind := [], PreorderAll(ms[1..]);
    } else {
      before, behind := ChildIsTogether(ms[1..], k - 1);
      assert ms[1..][k..] == ms[k + 1..];
      var first, part := Preorder(ms[0]), Preorder(ms[k]);
      assert first + (before + part + behind) == first + before + part + behind;
      before := first + before;
    }
  }

  lemma Nested(own: seq<nat>, a: seq<nat>, before: seq<nat>, part: seq<nat>, behind: seq<nat>, b: seq<nat>)
    ensures own + (a + (before + part + behind) + b) == (own + a + before) + part + (behind + b)
  {
  }

  /** So are the modules of any subtree. */
  lemma {:induction false} SubtreeIsTogether(x: Module, m: Module) returns (before: seq<nat>, behind: seq<nat>)
    requires InTree(x, m)
    ensures Preorder(m) == before + Preorder(x) + behind
    decreases m
  {
    if x == m {
      before, behind := [], [];
      assert [] + Preorder(x) + [] == Preorder(x);
    } else {
      var k :| 0 <= k < |m.children| && InTree(x, m.children[k]);
      hide PreorderAll, InTree;
      var a, b := ChildIsTogether(m.children, k);
      before, behind := SubtreeIsTogether(x, m.children[k]);
      var own := if m.participates then [m.id] else [];
      Nested(own, a, before, Preorder(x), behind, b);
      before, behind := own + a + before, behind + b;
    }
  }

  /** The module `a` is told before the module `b`. */
  ghost predicate ToldBefore(subjects: seq<nat>, a: nat, b: nat) {
    forall i, j | 0 <= i < |subjects| && 0 <= j < |subjects| && subjects[i] == a && subjects[j] == b :: i < j
  }

  lemma OrderWithin(before: seq<nat>, part: seq<nat>, behind: seq<nat>, a: nat, b: nat)
    requires Distinct(before + part + behind) && a in part && b in part && ToldBefore(part, a, b)
    ensures ToldBefore(before + part + behind, a, b)
  {
    var s := before + part + behind;
    var i :| 0 <= i < |part| && part[i] == a;
    var j :| 0 <= j < |part| && part[j] == b;
    assert s[|before| + i] == a && s[|before| + j] == b;
  }

  lemma OrderAcross(first: seq<nat>, second: seq<nat>, a: nat, b: nat)
    requires Distinct(first + second) && a in first && b in second
    ensures ToldBefore(first + second, a, b)
  {
    var s := first + second;
    var i :| 0 <= i < |first| && first[i] == a;
    var j :| 0 <= j < |second| && second[j] == b;
    assert s[i] == a && s[|first| + j] == b;
  }

  lemma PartIsDistinct(before: seq<nat>, part: seq<nat>, behind: seq<nat>)
    requires Distinct(before + part + behind)
    ensures Distinct(part)
  {
    var s := before + part + behind;
    forall i, j | 0 <= i < j < |part|
      ensures part[i] != part[j]
    {
      assert s[|before| + i] == part[i] && s[|before| + j] == part[j];
    }
  }

  /** A module is told before all the modules inside it. */
  lemma ParentsFirst(root: Module, x: Module, y: Module)
    requires Distinct(Preorder(root)) && InTree(x, root) && InTree(y, x) && x.participates && y.participates
    requires x.id != y.id
    ensures ToldBefore(Preorder(root), x.id, y.id)
  {
    hide Distinct, ToldBefore, Preorder;
    var before, behind := SubtreeIsTogether(x, root);
    PartIsDistinct(before, Preorder(x), behind);
    SubjectsAreTheTree(x, y.id);
    assert Reached(y, x, y.id);
    FirstIsFirst(x, y.id);
    OrderWithin(before, Preorder(x), behind, x.id, y.id);
  }

  lemma FirstIsFirst(x: Module, id: nat)
    requires Distinct(Preorder(x)) && x.participates && id in Preorder(x) && id != x.id
    ensures x.id in Preorder(x) && ToldBefore(Preorder(x), x.id, id)
  {
    assert Preorder(x) == [x.id] + PreorderAll(x.children);
    OrderAcross([x.id], PreorderAll(x.children), x.id, id);
  }

  /** All modules inside a submodule are told before those inside a later one. */
  lemma SiblingsInOrder(root: Module, x: Module, k: nat, l: nat, y: Module, z: Module)
    requires Distinct(Preorder(root)) && InTree(x, root) && k < l < |x.children|
    requires InTree(y, x.children[k]) && InTree(z, x.children[l]) && y.participates && z.participates
    ensures ToldBefore(Preorder(root), y.id, z.id)
  {
    hide Distinct, ToldBefore, Preorder;
    var before, behind := SubtreeIsTogether(x, root);
    PartIsDistinct(before, Preorder(x), behind);
    SubjectsAreTheTree(x.children[k], y.id);
    assert Reached(y, x.children[k], y.id);
    SubjectsAreTheTree(x.children[l], z.id);
    assert Reached(z, x.children[l], z.id);
    var first, second := SplitAt(x, k, l, y.id, z.id);
    OrderAcross(first, second, y.id, z.id);
    assert y.id in first + second && z.id in first + second;
    OrderWithin(before, Preorder(x), behind, y.id, z.id);
  }

  /** The modules up to the k-th submodule, and those behind it. */
  lemma SplitAt(x: Module, k: nat, l: nat, a: nat, b: nat) returns (first: seq<nat>, second: seq<nat>)
    requires k < l < |x.children| && a in Preorder(x.children[k]) && b in Preorder(x.children[l])
    ensures Preorder(x) == first + second && a in first && b in second
  {
    var before, behind := ChildIsTogether(x.children, k);
    var own := if x.participates then [x.id] else [];
    first, second := own + before + Preorder(x.children[k]), behind;
    assert own + (before + Preorder(x.children[k]) + behind) == first + second;
    assert x.children[k + 1..][l - k - 1] == x.children[l];
    InSomeChild(x.children[k + 1..], b);
  }
}
