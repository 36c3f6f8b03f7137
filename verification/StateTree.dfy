/** The tree of states of a hierarchical state machine and the order of exit and entry actions. */
module StateTrees {

  /** A state knows its superstate.  Root is the superstate of the user's top state. */
  datatype State = Root | Sub(super: State, name: string)

  datatype Action = Enter(state: State) | Leave(state: State) | Begin(state: State)

  /** isChild: is `s` the state `ancestor` or one of its substates? */
  predicate IsChild(s: State, ancestor: State) {
    s == ancestor || (s.Sub? && IsChild(s.super, ancestor))
  }

  predicate ProperChild(s: State, ancestor: State) {
    IsChild(s, ancestor) && s != ancestor
  }

  /** The states from the top state down to `s`. */
  function Path(s: State): seq<State> {
    match s
    case Root => []
    case Sub(super, _) => Path(super) + [s]
  }

  /** The exit actions of a transition from `s` to `next`. */
  function Exits(s: State, next: State): seq<Action> {
    if s.Sub? && (s == next || !IsChild(next, s)) then [Leave(s)] + Exits(s.super, next) else []
  }

  /** The entry actions of a transition from `previous` to `s`. */
  function Entries(s: State, previous: State, first: bool): seq<Action> {
    if s.Sub? && (first || !IsChild(previous, s)) then Entries(s.super, previous, false) + [Enter(s)] else []
  }

  /** The substate of `ancestor` that leads to `s`. */
  function Toward(s: State, ancestor: State): (t: State)
    requires ProperChild(s, ancestor)
    ensures t.Sub? && t.super == ancestor && IsChild(s, t)
  {
    if s.super == ancestor then s else Toward(s.super, ancestor)
  }

  lemma {:induction false} ChildOfChild(s: State, t: State, u: State)
    requires IsChild(s, t) && IsChild(t, u)
    ensures IsChild(s, u)
    decreases s
  {
    if s != t {
      ChildOfChild(s.super, t, u);
    }
  }

  lemma {:induction false} NoCycle(s: State, t: State)
    requires IsChild(s, t) && IsChild(t, s)
    ensures s == t
    decreases s
  {
    if s != t {
      assert IsChild(s.super, t);
      ChildOfChild(t, s, s.super);
      NoCycle(s.super, t);
      assert IsChild(s.super, s);
      NotBelowItself(s);
    }
  }

  lemma {:induction false} NotBelowItself(s: State)
    requires s.Sub?
    ensures !IsChild(s.super, s)
  {
    DepthGrows(s.super, s);
  }

  function Depth(s: State): nat {
    if s.Sub? then 1 + Depth(s.super) else 0
  }

  lemma {:induction false} DepthGrows(s: State, t: State)
    ensures IsChild(s, t) ==> s == t || Depth(s) > Depth(t)
    decreases s
  {
    if s != t && s.Sub? {
      DepthGrows(s.super, t);
    }
  }

  /** A path is a chain: every state stands above its superstate, at the place its depth says. */
  lemma {:induction false} PathIsChain(s: State)
    ensures |Path(s)| == Depth(s)
    ensures forall i | 0 <= i < |Path(s)| ::
              Path(s)[i].Sub? && Depth(Path(s)[i]) == i + 1
              && Path(s)[i].super == (if i == 0 then Root else Path(s)[i - 1])
    ensures s.Sub? ==> Path(s)[|Path(s)| - 1] == s
  {
    if s.Sub? {
      PathIsChain(s.super);
    }
  }

  /** The states on the path are the superstates of a state and the state itself. */
  lemma {:induction false} OnPath(s: State, t: State)
    ensures t in Path(s) <==> t.Sub? && IsChild(s, t)
  {
    if s.Sub? {
      OnPath(s.super, t);
    }
  }

  /** The path of a superstate is a prefix. */
  lemma {:induction false} PathPrefix(s: State, t: State)
    requires IsChild(s, t)
    ensures Path(t) <= Path(s) && |Path(t)| == Depth(t)
  {
    PathIsChain(t);
    if s != t {
      PathPrefix(s.super, t);
    }
  }

  /** How many states of its path a transition from `s` to `next` keeps: all that contain both, but the
      target itself is left and entered again when it contains `s`. */
  function Kept(s: State, next: State): nat {
    if s == Root then 0
    else if s != next && IsChild(next, s) then Depth(s)
    else Kept(s.super, next)
  }

  ghost function Leaves(path: seq<State>): seq<Action> {
    if path == [] then [] else [Leave(path[|path| - 1])] + Leaves(path[..|path| - 1])
  }

  ghost function Enters(path: seq<State>): seq<Action> {
    seq(|path|, i requires 0 <= i < |path| => Enter(path[i]))
  }

  /** Exactly the states behind the kept ones are left, children first. */
  lemma {:induction false} ExitsAreExact(s: State, next: State)
    ensures Kept(s, next) <= |Path(s)|
    ensures Exits(s, next) == Leaves(Path(s)[Kept(s, next)..])
  {
    PathIsChain(s);
    if s.Sub? {
      if s != next && IsChild(next, s) {
      } else {
        ExitsAreExact(s.super, next);
        var rest := Path(s)[Kept(s, next)..];
        assert rest[..|rest| - 1] == Path(s.super)[Kept(s, next)..];
      }
    }
  }

  /** The kept states are the common superstates, without the target. */
  lemma {:induction false} KeptIsCommon(s: State, next: State, t: State)
    ensures Depth(t) <= Kept(s, next) && t in Path(s) ==> t in Path(next) && (t != next || !IsChild(s, next))
    ensures Depth(t) > Kept(s, next) && t in Path(s) ==> t !in Path(next) || t == next
  {
    PathIsChain(s);
    OnPath(s, t);
    OnPath(next, t);
    if s.Sub? {
      if s != next && IsChild(next, s) {
        DepthGrows(s, t);
        DepthGrows(s, next);
        DepthGrows(next, s);
        if IsChild(s, t) {
          ChildOfChild(next, s, t);
        }
      } else {
        KeptIsCommon(s.super, next, t);
        KeptBound(s, next);
        KeptBound(s.super, next);
        OnPath(s.super, t);
        if t != s {
          if IsChild(s, next) && s != next {
            assert IsChild(s.super, next);
          }
        }
      }
    }
  }

  lemma {:induction false} KeptBound(s: State, next: State)
    ensures Kept(s, next) <= Depth(s) && (s.Sub? && !(s != next && IsChild(next, s)) ==> Kept(s, next) < Depth(s))
  {
    if s.Sub? {
      KeptBound(s.super, next);
    }
  }

  /** How many states of the path of `t` contain `previous`. */
  function Common(t: State, previous: State): nat {
    if t == Root then 0 else if IsChild(previous, t) then Depth(t) else Common(t.super, previous)
  }

  lemma {:induction false} CommonIsLargest(t: State, previous: State)
    ensures Common(t, previous) <= Depth(t)
    ensures |Path(t)| == Depth(t)
    ensures Common(t, previous) > 0 ==>
      var u := Path(t)[Common(t, previous) - 1]; IsChild(t, u) && IsChild(previous, u)
    ensures forall u: State | u.Sub? && IsChild(t, u) && IsChild(previous, u) :: Depth(u) <= Common(t, previous)
  {
    PathIsChain(t);
    if t.Sub? {
      CommonIsLargest(t.super, previous);
      forall u: State | u.Sub? && IsChild(t, u) && IsChild(previous, u)
        ensures Depth(u) <= Common(t, previous)
      {
        DepthGrows(t, u);
      }
    }
  }

  lemma EntersAppend(path: seq<State>, t: State)
    ensures Enters(path + [t]) == Enters(path) + [Enter(t)]
  {
  }

  lemma {:induction false} EntriesBelow(t: State, previous: State)
    ensures Common(t, previous) <= |Path(t)|
    ensures Entries(t, previous, false) == Enters(Path(t)[Common(t, previous)..])
  {
    PathIsChain(t);
    CommonIsLargest(t, previous);
    if t.Sub? && !IsChild(previous, t) {
      EntriesBelow(t.super, previous);
      CommonIsLargest(t.super, previous);
      hide Enters;
      assert Path(t)[Common(t, previous)..] == Path(t.super)[Common(t, previous)..] + [t];
      EntersAppend(Path(t.super)[Common(t, previous)..], t);
    }
  }

  /** What is kept on leaving is what is not entered again. */
  lemma KeptIsCommonPart(s: State, next: State)
    requires next.Sub?
    ensures Kept(s, next) == Common(next.super, s)
  {
    var k, c := Kept(s, next), Common(next.super, s);
    PathIsChain(s);
    PathIsChain(next.super);
    KeptBound(s, next);
    DepthGrows(next.super, next);
    CommonIsLargest(next.super, s);
    if c > k {
      var t := Path(next.super)[c - 1];
      KeptIsCommon(s, next, t);
      OnPath(s, t);
      OnPath(next, t);
    } else if k > c {
      var t := Path(s)[k - 1];
      KeptIsCommon(s, next, t);
      OnPath(s, t);
      OnPath(next, t);
    }
  }

  /** Exactly the states of the target's path behind the kept ones are entered, parents first. */
  lemma EntriesAreExact(s: State, next: State)
    ensures Kept(s, next) <= |Path(next)|
    ensures Entries(next, s, true) == Enters(Path(next)[Kept(s, next)..])
  {
    PathIsChain(next);
    if next.Sub? {
      KeptIsCommonPart(s, next);
      EntriesBelow(next.super, s);
      var k := Kept(s, next);
      hide Enters;
      assert Path(next)[k..] == Path(next.super)[k..] + [next];
      EntersAppend(Path(next.super)[k..], next);
    } else {
      RootKeepsNothing(s);
    }
  }

  lemma {:induction false} RootKeepsNothing(s: State)
    ensures Kept(s, Root) == 0
  {
    if s.Sub? {
      RootKeepsNothing(s.super);
    }
  }
}
