/**
 For which charts a skip request always does what it is meant to: suppress the transition of
 the state whose handler makes it, and nothing else.
 */
module SkipRequests {
  import opened Wire
  import opened StateMachine

  /** On every event from a clear configuration, under the handlers allowed, requests work and none stays behind. */
  ghost predicate RequestsWork(ch: Chart, allowed: Env -> bool)
    requires ch.Valid()
  {
    forall c, event, env :: Fits(ch, c) && Clear(ch, c) && allowed(env) ==>
      var o := HandleFrom(ch, c, c.curr, event, env);
      o == PlainFrom(ch, c, c.curr, event, env) && (o.Done? ==> Clear(ch, o.c))
  }

  /** Fits with all variables clear. */
  ghost function Fresh(ch: Chart, curr: nat): (c: Config)
    requires ch.Valid() && curr < |ch.states|
    ensures Fits(ch, c) && Clear(ch, c) && c.curr == curr
  {
    Config(curr, seq(Flags(ch, |ch.states|), _ => false), [])
  }

  /** One more than the largest variable of the first n states. */
  ghost function Flags(ch: Chart, n: nat): (k: nat)
    requires n <= |ch.states|
    ensures forall s :: 0 <= s < n ==> ch.states[s].flag < k
  {
    if n == 0 then 0
    else
      var k := Flags(ch, n - 1);
      if ch.states[n - 1].flag < k then k else ch.states[n - 1].flag + 1
  }

  /** A state other than the root, whose handler is never called, has a handler. */
  ghost predicate HasHandlers(ch: Chart)
  {
    exists s :: 0 < s < |ch.states| && ch.states[s].hasHandler
  }

  lemma {:induction false} NobodyHandles(ch: Chart, c: Config, s: nat, event: nat, env: Env)
    requires Fits(ch, c) && s < |ch.states| && !HasHandlers(ch)
    ensures HandleFrom(ch, c, s, event, env) == Done(c) == PlainFrom(ch, c, s, event, env)
    decreases ch.depth[s]
  {
    if s == ROOT {
    } else {
      NobodyHandles(ch, c, ch.states[s].parent, event, env);
    }
  }

  /** Goes to t and asks to skip there. */
  function Wanderer(t: nat): Env
  {
    Env(_ => Reply(true, [GoTo(t), AskSkip]), (_, _) => false)
  }

  lemma WandererLeavesRequest(ch: Chart, s: nat, t: nat, event: nat)
    requires ch.Valid() && 0 < s < |ch.states| && ch.states[s].hasHandler
    requires t < |ch.states| && ch.states[t].flag != ch.states[s].flag
    ensures var o := HandleFrom(ch, Fresh(ch, s), s, event, Wanderer(t)); o.Done? && !Clear(ch, o.c)
  {
    hide Moves, Chart.Path;
    var c, env := Fresh(ch, s), Wanderer(t);
    var c1 := c.(log := c.log + [Handle(s)]);
    var acts := env.reply(s).acts;
    var c2 := Moved(ch, c1, t).c;
    assert acts[1..] == [AskSkip] && acts[1..][1..] == [];
    assert Performed(ch, Skipped(ch, c2), []) == Done(Skipped(ch, c2));
    assert Performed(ch, c2, [AskSkip]) == Done(Skipped(ch, c2));
    assert Performed(ch, c1, acts) == Done(Skipped(ch, c2));
    assert HandleAt(ch, c, s, event, env).c.flags[ch.states[t].flag];
  }

  /**
   Handlers that may also set the state: requests work exactly when all states have the same
   variable, or nobody handles anything.
   */
  lemma RequestsWorkIff(ch: Chart)
    requires ch.Valid()
    ensures RequestsWork(ch, _ => true) <==> OneFlag(ch) || !HasHandlers(ch)
  {
    hide HandleFrom, PlainFrom;
    if OneFlag(ch) || !HasHandlers(ch) {
      forall c, event, env | Fits(ch, c) && Clear(ch, c)
        ensures var o := HandleFrom(ch, c, c.curr, event, env);
                o == PlainFrom(ch, c, c.curr, event, env) && (o.Done? ==> Clear(ch, o.c))
      {
        if OneFlag(ch) { EventIsPlain(ch, c, c.curr, event, env); } else { NobodyHandles(ch, c, c.curr, event, env); }
      }
    } else {
      var s :| 0 < s < |ch.states| && ch.states[s].hasHandler;
      var a, b :| 0 <= a < |ch.states| && 0 <= b < |ch.states| && ch.states[a].flag != ch.states[b].flag;
      var t := if ch.states[a].flag != ch.states[s].flag then a else b;
      WandererLeavesRequest(ch, s, t, 0);
    }
  }

  /* -------------------------------------- handlers that only ask to be skipped */

  ghost predicate OnlyAsks(env: Env)
  {
    forall s :: GoToFree(env.reply(s).acts)
  }

  ghost predicate GoToFree(acts: seq<Act>)
  {
    forall i :: 0 <= i < |acts| ==> acts[i] == AskSkip
  }

  /** Where the table of u can lead: the row is the first for its event. */
  ghost predicate LeadsTo(ch: Chart, u: nat, x: nat)
    requires u < |ch.states|
  {
    exists r :: 0 <= r < |ch.states[u].transitions| && ch.states[u].transitions[r].next == x
                && FirstMatch(ch.states[u].transitions, ch.states[u].transitions[r].event, 0) == Some(r)
  }

  /**
   The states that can be current in the handler of s: those below it and itself, and those
   that a state below it has just been left for.
   */
  ghost predicate CanBeCurrent(ch: Chart, s: nat, x: nat)
    requires ch.Valid() && s < |ch.states| && x < |ch.states|
  {
    || s in ch.Path(x)
    || exists u :: 0 <= u < |ch.states| && u != s && s in ch.Path(u) && ch.states[u].hasHandler && LeadsTo(ch, u, x)
  }

  /** Every state with a handler has the variable of all that can be current in it. */
  ghost predicate Shared(ch: Chart)
    requires ch.Valid()
  {
    forall s, x :: 0 < s < |ch.states| && 0 <= x < |ch.states| && ch.states[s].hasHandler && CanBeCurrent(ch, s, x) ==>
      ch.states[x].flag == ch.states[s].flag
  }

  /** The state current while s and those above it are visited. */
  ghost predicate CurrentFor(ch: Chart, s: nat, x: nat)
    requires ch.Valid() && s < |ch.states| && x < |ch.states|
  {
    forall a :: 0 < a < |ch.states| && a in ch.Path(s) ==> CanBeCurrent(ch, a, x)
  }

  lemma {:induction false} AskedOnly(ch: Chart, c: Config, acts: seq<Act>)
    requires Fits(ch, c) && GoToFree(acts)
    ensures Performed(ch, c, acts) == Done(if acts == [] then c else Skipped(ch, c))
    ensures MovesOf(ch, c, acts) == Done(c)
    decreases |acts|
  {
    if acts == [] {
    } else {
      AskedOnly(ch, Skipped(ch, c), acts[1..]);
      AskedOnly(ch, c, acts[1..]);
    }
  }

  lemma AskedAt(ch: Chart, c: Config, s: nat, event: nat, env: Env)
    requires Fits(ch, c) && s < |ch.states| && Clear(ch, c) && OnlyAsks(env)
    requires ch.states[c.curr].flag == ch.states[s].flag
    ensures var o := HandleAt(ch, c, s, event, env);
            && o == PlainAt(ch, c, s, event, env)
            && (o.Done? ==> o.c.flags == c.flags && (o.c.curr == c.curr || LeadsTo(ch, s, o.c.curr)))
  {
    hide Performed, MovesOf, Moves, Chart.Path;
    var c1, acts := c.(log := c.log + [Handle(s)]), env.reply(s).acts;
    var flag := ch.states[s].flag;
    assert !c.flags[flag];
    assert c.flags[flag := true][flag := false] == c.flags == c.flags[flag := false];
    assert GoToFree(acts);
    AskedOnly(ch, c1, acts);
    if acts != [] { assert acts[0] in acts; }
    if Target(ch, s, event, env).Some? { LeadsWhere(ch, s, event, env); }
  }

  lemma LeadsWhere(ch: Chart, s: nat, event: nat, env: Env)
    requires s < |ch.states| && Target(ch, s, event, env).Some?
    ensures LeadsTo(ch, s, Target(ch, s, event, env).value)
  {
    var ts := ch.states[s].transitions;
    var r := FirstMatch(ts, event, 0).value;
    assert ts[r].event == event;
  }

  lemma PathUp(ch: Chart, s: nat)
    requires ch.Valid() && 0 < s < |ch.states|
    ensures s in ch.Path(s) && ch.Path(s) == ch.Path(ch.states[s].parent) + [s]
    ensures s !in ch.Path(ch.states[s].parent)
  {
    var up := ch.states[s].parent;
    if s in ch.Path(up) {
      var i :| 0 <= i < |ch.Path(up)| && ch.Path(up)[i] == s;
      PathPrefix(ch, up, i);
    }
  }

  /** Going up, and following a transition on the way, keeps to the states that can be current. */
  lemma CurrentAbove(ch: Chart, s: nat, x: nat, y: nat)
    requires ch.Valid() && 0 < s < |ch.states| && x < |ch.states| && y < |ch.states| && CurrentFor(ch, s, x)
    requires y == x || (ch.states[s].hasHandler && LeadsTo(ch, s, y))
    ensures CurrentFor(ch, ch.states[s].parent, y)
  {
    hide LeadsTo;
    PathUp(ch, s);
    var up := ch.states[s].parent;
    forall a | 0 < a < |ch.states| && a in ch.Path(up) ensures CanBeCurrent(ch, a, y) {
      assert a in ch.Path(s);
      assert CanBeCurrent(ch, a, x);
    }
  }

  lemma {:induction false} SharedIsPlain(ch: Chart, c: Config, s: nat, event: nat, env: Env)
    requires Fits(ch, c) && s < |ch.states| && Clear(ch, c) && OnlyAsks(env) && Shared(ch) && CurrentFor(ch, s, c.curr)
    ensures var o := HandleFrom(ch, c, s, event, env);
            o == PlainFrom(ch, c, s, event, env) && (o.Done? ==> Clear(ch, o.c))
    decreases ch.depth[s]
  {
    hide HandleAt, PlainAt, CanBeCurrent, LeadsTo, Chart.Path, OnlyAsks;
    if s == ROOT {
    } else {
      var up := ch.states[s].parent;
      PathUp(ch, s);
      if !ch.states[s].hasHandler {
        CurrentAbove(ch, s, c.curr, c.curr);
        SharedIsPlain(ch, c, up, event, env);
      } else {
        assert CanBeCurrent(ch, s, c.curr);
        AskedAt(ch, c, s, event, env);
        var o := HandleAt(ch, c, s, event, env);
        if o.Done? && !env.reply(s).handled {
          CurrentAbove(ch, s, c.curr, o.c.curr);
          SharedIsPlain(ch, o.c, up, event, env);
        }
      }
    }
  }

  /* ------------------------------------------------- a request that is not shared */

  /** Only s asks to be skipped, and only the conditions of u hold. */
  function Lone(s: nat, u: nat): Env
  {
    Env(x => if x == s then Reply(true, [AskSkip]) else Reply(false, []), (x, _) => x == u)
  }

  lemma LoneAsks(s: nat, u: nat)
    ensures OnlyAsks(Lone(s, u))
  {
  }

  lemma QuietAt(ch: Chart, c: Config, y: nat, s: nat, event: nat, u: nat)
    requires Fits(ch, c) && Clear(ch, c) && y < |ch.states| && y !in {s, u}
    ensures HandleAt(ch, c, y, event, Lone(s, u)) == Done(c.(log := c.log + [Handle(y)]))
  {
    var c1, flag := c.(log := c.log + [Handle(y)]), ch.states[y].flag;
    assert Performed(ch, c1, []) == Done(c1);
    assert c.flags[flag := false] == c.flags;
  }

  /** States that neither ask nor have a transition to take are passed on the way up to s. */
  lemma {:induction false} Climb(ch: Chart, c: Config, y: nat, s: nat, event: nat, u: nat) returns (c1: Config)
    requires Fits(ch, c) && Clear(ch, c) && y < |ch.states| && 0 < s < |ch.states| && s in ch.Path(y)
    requires u == ROOT || (u < |ch.states| && ch.depth[y] < ch.depth[u])
    ensures Fits(ch, c1) && c1.curr == c.curr && c1.flags == c.flags
    ensures HandleFrom(ch, c, y, event, Lone(s, u)) == HandleFrom(ch, c1, s, event, Lone(s, u))
    decreases ch.depth[y]
  {
    hide HandleAt, Clear;
    if y == s {
      c1 := c;
    } else {
      assert y != ROOT;
      PathUp(ch, y);
      var up := ch.states[y].parent;
      if ch.states[y].hasHandler {
        QuietAt(ch, c, y, s, event, u);
        var c2 := c.(log := c.log + [Handle(y)]);
        assert Clear(ch, c2) by { ClearLog(ch, c, c2); }
        c1 := Climb(ch, c2, up, s, event, u);
      } else {
        c1 := Climb(ch, c, up, s, event, u);
      }
    }
  }

  lemma ClearLog(ch: Chart, a: Config, b: Config)
    requires Fits(ch, a) && Fits(ch, b) && Clear(ch, a) && a.flags == b.flags
    ensures Clear(ch, b)
  {
  }

  /** The handler of s asks while x is current. */
  lemma AsksElsewhere(ch: Chart, c: Config, s: nat, event: nat, u: nat)
    requires Fits(ch, c) && Clear(ch, c) && 0 < s < |ch.states| && ch.states[s].hasHandler && u != s
    requires ch.states[c.curr].flag != ch.states[s].flag
    ensures var o := HandleFrom(ch, c, s, event, Lone(s, u)); o.Done? && !Clear(ch, o.c)
  {
    var c1, acts := c.(log := c.log + [Handle(s)]), [AskSkip];
    assert acts[1..] == [];
    assert Performed(ch, Skipped(ch, c1), []) == Done(Skipped(ch, c1));
    assert Performed(ch, c1, acts) == Done(Skipped(ch, c1));
    assert HandleAt(ch, c, s, event, Lone(s, u)).c.flags[ch.states[c.curr].flag];
  }

  /** From u its row leads to x, on the event of the row. */
  lemma Leaves(ch: Chart, c: Config, s: nat, u: nat, x: nat) returns (event: nat)
    requires Fits(ch, c) && Clear(ch, c) && u < |ch.states| && u != s && c.curr == u && x < |ch.states| && x != u
    requires LeadsTo(ch, u, x)
    ensures var o := HandleAt(ch, c, u, event, Lone(s, u)); o.Done? && o.c.curr == x && o.c.flags == c.flags
  {
    hide Moves, Chart.Path;
    var ts := ch.states[u].transitions;
    var r :| 0 <= r < |ts| && ts[r].next == x && FirstMatch(ts, ts[r].event, 0) == Some(r);
    event := ts[r].event;
    var c1, flag := c.(log := c.log + [Handle(u)]), ch.states[u].flag;
    assert Performed(ch, c1, []) == Done(c1);
    assert Target(ch, u, event, Lone(s, u)) == Some(x);
    assert c.flags[flag := false] == c.flags;
  }

  /** If x can be current in the handler of s, but has another variable, a request of s stays behind. */
  lemma RequestStaysBehind(ch: Chart, s: nat, x: nat) returns (c: Config, event: nat, env: Env)
    requires ch.Valid() && 0 < s < |ch.states| && x < |ch.states| && ch.states[s].hasHandler
    requires CanBeCurrent(ch, s, x) && ch.states[x].flag != ch.states[s].flag
    ensures Fits(ch, c) && Clear(ch, c) && OnlyAsks(env)
    ensures var o := HandleFrom(ch, c, c.curr, event, env); o.Done? && !Clear(ch, o.c)
  {
    hide LeadsTo, HandleAt, OnlyAsks;
    if s in ch.Path(x) {
      c, event, env := Fresh(ch, x), 0, Lone(s, ROOT);
      LoneAsks(s, ROOT);
      var c1 := Climb(ch, c, x, s, event, ROOT);
      ClearLog(ch, c, c1);
      AsksElsewhere(ch, c1, s, event, ROOT);
    } else {
      var u :| 0 <= u < |ch.states| && u != s && s in ch.Path(u) && ch.states[u].hasHandler && LeadsTo(ch, u, x);
      BelowIsNotRoot(ch, s, u);
      c, env := Fresh(ch, u), Lone(s, u);
      LoneAsks(s, u);
      event := Leaves(ch, c, s, u, x);
      var o := HandleAt(ch, c, u, event, env);
      ClearLog(ch, c, o.c);
      PathUp(ch, u);
      var c1 := Climb(ch, o.c, ch.states[u].parent, s, event, u);
      ClearLog(ch, o.c, c1);
      AsksElsewhere(ch, c1, s, event, u);
    }
  }

  lemma BelowIsNotRoot(ch: Chart, s: nat, u: nat)
    requires ch.Valid() && 0 < s < |ch.states| && u < |ch.states| && s in ch.Path(u)
    ensures u != ROOT
  {
    assert ch.Path(ROOT) == [ROOT];
  }

  lemma CurrentAtFirst(ch: Chart, s: nat)
    requires ch.Valid() && s < |ch.states|
    ensures CurrentFor(ch, s, s)
  {
  }

  /**
   Handlers that only ask to be skipped: requests work exactly when every state that has a
   handler has the variable of all states that can be current in it.
   */
  lemma AskingWorksIff(ch: Chart)
    requires ch.Valid()
    ensures RequestsWork(ch, OnlyAsks) <==> Shared(ch)
  {
    hide HandleFrom, PlainFrom, CanBeCurrent, OnlyAsks;
    if Shared(ch) {
      forall c, event, env | Fits(ch, c) && Clear(ch, c) && OnlyAsks(env)
        ensures var o := HandleFrom(ch, c, c.curr, event, env);
                o == PlainFrom(ch, c, c.curr, event, env) && (o.Done? ==> Clear(ch, o.c))
      {
        CurrentAtFirst(ch, c.curr);
        SharedIsPlain(ch, c, c.curr, event, env);
      }
    } else {
      var s, x :| 0 < s < |ch.states| && 0 <= x < |ch.states| && ch.states[s].hasHandler && CanBeCurrent(ch, s, x)
                  && ch.states[x].flag != ch.states[s].flag;
      var c, event, env := RequestStaysBehind(ch, s, x);
    }
  }
}
