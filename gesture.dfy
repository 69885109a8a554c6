/** The events the diagram delivers to the edit-page chart, and the state they
    change: the selection pair plus the long-touch timers. Real time is
    abstracted away: `TouchStart` on a coarse pointer schedules a timer, and
    `Fire(h)` is the host running timer `h` once its 500 ms are up. */
module Gesture {
  import opened Nodes
  import opened Selection

  datatype Event =
    | Click(node: Node, ctrlKey: bool)
    | TouchStart(node: Node, coarse: bool)
    | TouchEnd
    | Fire(handle: nat)

  /** `timers` are the scheduled, not yet run or cleared, long-touch callbacks
      by handle, each with the node it was armed for; `timer` is the
      component's variable holding the last handle; `nextHandle` is the handle
      the host gives the next timer. */
  datatype State = State(view: View, timers: map<nat, Node>, timer: Option<nat>, nextHandle: nat)

  /** Nothing selected, no timer; host handles are positive, so the first is 1. */
  const Init: State := State(Empty, map[], None, 1)

  /** The selection invariant, and every handle issued before `nextHandle`. */
  predicate Inv(s: State) {
    && Selection.Inv(s.view)
    && (forall h :: h in s.timers ==> h < s.nextHandle)
    && (s.timer.Some? ==> s.timer.value < s.nextHandle)
  }

  /** One event. */
  function Step(s: State, e: Event): State {
    match e
    case Click(node, ctrlKey) =>
      s.(view := NodeClick(s.view, node, ctrlKey))
    case TouchStart(node, coarse) =>
      if coarse then
        s.(timers := s.timers[s.nextHandle := node], timer := Some(s.nextHandle),
           nextHandle := s.nextHandle + 1)
      else s
    case TouchEnd =>
      if s.timer.Some? then s.(timers := s.timers - {s.timer.value}) else s
    case Fire(h) =>
      if h in s.timers then s.(view := LongPress(s.view, s.timers[h]), timers := s.timers - {h})
      else s
  }

  /** A sequence of events, in order. */
  function Run(s: State, es: seq<Event>): State
    decreases |es|
  {
    if es == [] then s else Run(Step(s, es[0]), es[1..])
  }

  lemma StepKeepsInv(s: State, e: Event)
    requires Inv(s)
    ensures Inv(Step(s, e))
  {
    match e
    case Click(node, ctrlKey) => NodeClickKeepsInv(s.view, node, ctrlKey);
    case Fire(h) => if h in s.timers { LongPressKeepsInv(s.view, s.timers[h]); }
    case TouchStart(_, _) =>
    case TouchEnd =>
  }

  lemma {:induction false} RunKeepsInv(s: State, es: seq<Event>)
    requires Inv(s)
    ensures Inv(Run(s, es))
    decreases |es|
  {
    if es != [] {
      StepKeepsInv(s, es[0]);
      RunKeepsInv(Step(s, es[0]), es[1..]);
    }
  }

  /** From the mounted state, under any sequence of clicks, touches and fired
      timers: ids are unique, all selected nodes have one kind, at most one is
      a module, and the panel is empty while nothing is selected. */
  lemma ReachableSelection(es: seq<Event>)
    ensures var v := Run(Init, es).view;
      NoDupIds(v.selected) && SameKind(v.selected) && AtMostOneModule(v.selected)
      && (v.selected == [] ==> v.current == None)
  {
    RunKeepsInv(Init, es);
    WellFormedProperties(Run(Init, es).view.selected);
  }

  // ---------------------------------------------------------------------------
  // Touch

  /** On a fine pointer a touch start arms nothing and changes nothing. */
  lemma FinePointerArmsNothing(s: State, n: Node)
    ensures Step(s, TouchStart(n, false)) == s
  {
  }

  /** A touch that ends before its timer fires leaves the selection as it was;
      on a coarse pointer the timer it armed is gone again and every other
      scheduled timer stays. */
  lemma ShortTouchChangesNothing(s: State, n: Node, coarse: bool)
    requires Inv(s)
    ensures var r := Step(Step(s, TouchStart(n, coarse)), TouchEnd);
      r.view == s.view && (coarse ==> r.timers == s.timers)
  {
  }

  /** The host running a timer that was cleared or has already run does nothing. */
  lemma FireOfClearedTimer(s: State, h: nat)
    requires h !in s.timers
    ensures Step(s, Fire(h)) == s
  {
  }

  /** A handle that is issued and not scheduled stays unscheduled whatever
      events follow: a cleared timer is never scheduled again. */
  lemma {:induction false} ClearedStaysCleared(s: State, es: seq<Event>, h: nat)
    requires h < s.nextHandle && h !in s.timers
    ensures h < Run(s, es).nextHandle && h !in Run(s, es).timers
    decreases |es|
  {
    if es != [] {
      ClearedStaysCleared(Step(s, es[0]), es[1..], h);
    }
  }

  /** Once a touch has ended before its timer fired, that timer's callback
      never runs, whatever events come afterwards. */
  lemma ShortTouchNeverFires(s: State, n: Node, es: seq<Event>)
    ensures var r := Run(Step(Step(s, TouchStart(n, true)), TouchEnd), es);
      Step(r, Fire(s.nextHandle)) == r
  {
    ClearedStaysCleared(Step(Step(s, TouchStart(n, true)), TouchEnd), es, s.nextHandle);
  }

  /** A long press on a skill, once its timer fires, applies the multi-select
      toggle, never the one-at-a-time rule. */
  lemma LongPressOnSkill(s: State, n: Node)
    requires n.kind == Skill
    ensures Step(Step(s, TouchStart(n, true)), Fire(s.nextHandle)).view == ToggleSkill(s.view, n)
  {
  }

  /** A long press on a module, once its timer fires, applies the module toggle. */
  lemma LongPressOnModule(s: State, n: Node)
    requires n.kind == Module
    ensures Step(Step(s, TouchStart(n, true)), Fire(s.nextHandle)).view == ToggleModule(s.view, n)
  {
  }

  /** A second touch start replaces the handle in `timer` without clearing the
      first timer, so a touch end cancels only the second one and the first
      still fires. */
  lemma SecondTouchLeavesFirstArmed(s: State, a: Node, b: Node)
    requires Inv(s)
    ensures var r := Step(Step(Step(s, TouchStart(a, true)), TouchStart(b, true)), TouchEnd);
      s.nextHandle in r.timers && r.timers[s.nextHandle] == a
      && Step(r, Fire(s.nextHandle)).view == LongPress(s.view, a)
  {
  }

  // ---------------------------------------------------------------------------
  // A session

  /** Plain click s1, plain click s1, click m1, ctrl-click s2, ctrl-click s3,
      plain click s4. The selection ends as [s4]; the panel still shows s3,
      because the collapse at line 58 does not set the current node. */
  lemma ClickSession()
    ensures var s1, s2, s3, s4 := Node("s1", Skill), Node("s2", Skill), Node("s3", Skill), Node("s4", Skill);
      var m1 := Node("m1", Module);
      var es := [Click(s1, false), Click(s1, false), Click(m1, false),
                 Click(s2, true), Click(s3, true), Click(s4, false)];
      Run(Init, es[..1]).view == View([s1], Some(s1))
      && Run(Init, es[..2]).view == Empty
      && Run(Init, es[..3]).view == View([m1], Some(m1))
      && Run(Init, es[..4]).view == View([s2], Some(s2))
      && Run(Init, es[..5]).view == View([s2, s3], Some(s3))
      && Run(Init, es).view == View([s4], Some(s3))
  {
    var s1, s2, s3, s4 := Node("s1", Skill), Node("s2", Skill), Node("s3", Skill), Node("s4", Skill);
    var m1 := Node("m1", Module);
    var es := [Click(s1, false), Click(s1, false), Click(m1, false),
               Click(s2, true), Click(s3, true), Click(s4, false)];
    RunPrefixIsRun(es, 1);
    RunPrefixIsRun(es, 2);
    RunPrefixIsRun(es, 3);
    RunPrefixIsRun(es, 4);
    RunPrefixIsRun(es, 5);
    RunPrefixIsRun(es, 6);
    assert es[..6] == es;
    var r1 := Step(Init, es[0]);
    assert r1.view == View([s1], Some(s1));
    var r2 := Step(r1, es[1]);
    assert [s1][1..] == [];
    assert r2.view == Empty;
    var r3 := Step(r2, es[2]);
    assert r3.view == View([m1], Some(m1));
    var r4 := Step(r3, es[3]);
    assert r4.view == View([s2], Some(s2));
    var r5 := Step(r4, es[4]);
    assert r5.view == View([s2, s3], Some(s3));
    var r6 := Step(r5, es[5]);
    assert r6.view == View([s4], Some(s3));
    assert RunPrefix(es, 6) == r6;
  }

  /** `Run` over the first `k` events, built up from the front. */
  function RunPrefix(es: seq<Event>, k: nat): State
    requires k <= |es|
  {
    if k == 0 then Init else Step(RunPrefix(es, k - 1), es[k - 1])
  }

  lemma {:induction false} RunSnoc(s: State, es: seq<Event>, e: Event)
    ensures Run(s, es + [e]) == Step(Run(s, es), e)
    decreases |es|
  {
    if es == [] {
      assert [e][1..] == [];
    } else {
      assert (es + [e])[1..] == es[1..] + [e];
      RunSnoc(Step(s, es[0]), es[1..], e);
    }
  }

  lemma {:induction false} RunPrefixIsRun(es: seq<Event>, k: nat)
    requires k <= |es|
    ensures Run(Init, es[..k]) == RunPrefix(es, k)
  {
    if k > 0 {
      RunPrefixIsRun(es, k - 1);
      assert es[..k] == es[..k - 1] + [es[k - 1]];
      RunSnoc(Init, es[..k - 1], es[k - 1]);
    }
  }
}
