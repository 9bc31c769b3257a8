/**
 What one event does at one state, said without the functions of the dispatch: which row of the
 table decides, whose condition is asked, and what is left and entered.
 */
module Transitions {
  import opened Wire
  import opened StateMachine

  /** The first row for the event. */
  ghost predicate FirstRow(ts: seq<Transition>, event: nat, k: nat)
  {
    k < |ts| && ts[k].event == event && forall j :: 0 <= j < k ==> ts[j].event != event
  }

  lemma {:induction false} FirstRowFound(ts: seq<Transition>, event: nat, i: nat, k: nat)
    requires FirstRow(ts, event, k) && i <= k
    ensures FirstMatch(ts, event, i) == Some(k)
    decreases k - i
  {
    if i == k {
    } else {
      FirstRowFound(ts, event, i + 1, k);
    }
  }

  /** There is no such state, or it is the current one: pdtsw_sm_set_state does not return. */
  ghost predicate Hangs(ch: Chart, c: Config, t: nat)
  {
    t >= |ch.states| || t == c.curr
  }

  /** pdtsw_sm_set_state changes the state and notes what is left and entered, or does not return. */
  lemma SetStateIs(ch: Chart, c: Config, t: nat)
    requires Fits(ch, c)
    ensures var o := Moved(ch, c, t);
            if Hangs(ch, c, t) then o.Hung?
            else o.Done? && o.c.curr == t && o.c.flags == c.flags && o.c.log == c.log + Moves(ch, c.curr, t)
  {
  }

  /** With the skip variable clear the first row for the event decides, by its own condition. */
  lemma RowDecides(ch: Chart, c: Config, s: nat, event: nat, env: Env, k: nat)
    requires Fits(ch, c) && s < |ch.states| && !c.flags[ch.states[s].flag]
    requires FirstRow(ch.states[s].transitions, event, k)
    ensures var o, next := Transitioned(ch, c, s, event, env), ch.states[s].transitions[k].next;
            if !env.cond(s, k) then o == Done(c)
            else if Hangs(ch, c, next) then o.Hung?
            else o.Done? && o.c.curr == next && o.c.flags == c.flags && o.c.log == c.log + Moves(ch, c.curr, next)
  {
    hide Moves;
    FirstRowFound(ch.states[s].transitions, event, 0, k);
    assert c.flags[ch.states[s].flag := false] == c.flags;
  }

  /** Without a row for the event nothing happens. */
  lemma NoRowStays(ch: Chart, c: Config, s: nat, event: nat, env: Env)
    requires Fits(ch, c) && s < |ch.states| && !c.flags[ch.states[s].flag]
    requires forall j :: 0 <= j < |ch.states[s].transitions| ==> ch.states[s].transitions[j].event != event
    ensures Transitioned(ch, c, s, event, env) == Done(c)
  {
    hide Moves;
    assert c.flags[ch.states[s].flag := false] == c.flags;
  }

  /** With the skip variable set nothing happens either, but that it is cleared. */
  lemma SkipStays(ch: Chart, c: Config, s: nat, event: nat, env: Env)
    requires Fits(ch, c) && s < |ch.states| && c.flags[ch.states[s].flag]
    ensures var o := Transitioned(ch, c, s, event, env);
            && o.Done? && o.c.curr == c.curr && o.c.log == c.log && |o.c.flags| == |c.flags|
            && forall x :: 0 <= x < |c.flags| ==> (o.c.flags[x] <==> c.flags[x] && x != ch.states[s].flag)
  {
    hide Moves;
  }

  /** A skip request sets the variable of the current state, and no more. */
  lemma AskingMarks(ch: Chart, c: Config, acts: seq<Act>)
    requires Fits(ch, c) && acts == [AskSkip]
    ensures var o := Performed(ch, c, acts);
            && o.Done? && o.c.curr == c.curr && o.c.log == c.log && |o.c.flags| == |c.flags|
            && forall x :: 0 <= x < |c.flags| ==> (o.c.flags[x] <==> c.flags[x] || x == ch.states[c.curr].flag)
  {
    assert Performed(ch, Skipped(ch, c), acts[1..]) == Done(Skipped(ch, c));
  }

  /**
   The handler is called first, and the transition of its state is taken whether or not it says
   that the event is handled; that only decides whether the parent is asked.
   */
  lemma HandlerThenMove(ch: Chart, c: Config, s: nat, event: nat, env: Env, k: nat)
    requires Fits(ch, c) && 0 < s < |ch.states| && ch.states[s].hasHandler && !c.flags[ch.states[s].flag]
    requires FirstRow(ch.states[s].transitions, event, k) && env.cond(s, k) && env.reply(s).acts == []
    requires !Hangs(ch, c, ch.states[s].transitions[k].next)
    ensures var next := ch.states[s].transitions[k].next;
            var c1 := Config(next, c.flags, c.log + [Handle(s)] + Moves(ch, c.curr, next));
            && Fits(ch, c1)
            && HandleFrom(ch, c, s, event, env) ==
                 if env.reply(s).handled then Done(c1) else HandleFrom(ch, c1, ch.states[s].parent, event, env)
  {
    hide Moves, Transitioned, Chart.Path;
    RowDecides(ch, c.(log := c.log + [Handle(s)]), s, event, env, k);
    assert Performed(ch, c.(log := c.log + [Handle(s)]), []) == Done(c.(log := c.log + [Handle(s)]));
  }

  /** A state without a handler is passed over, its table too. */
  lemma PassedOver(ch: Chart, c: Config, s: nat, event: nat, env: Env)
    requires Fits(ch, c) && 0 < s < |ch.states| && !ch.states[s].hasHandler
    ensures HandleFrom(ch, c, s, event, env) == HandleFrom(ch, c, ch.states[s].parent, event, env)
  {
    hide HandleAt;
  }
}
