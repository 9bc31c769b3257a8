/**
 The hierarchical state machine of pdtsw_sm.c. Handlers, conditions, entry and exit
 functions are the user's: what a handler or condition answers comes from an `Env`, and
 every state left, entered or asked to handle an event is noted in a log.
 */
module StateMachine {
  import opened Wire

  const ROOT: nat := 0

  datatype Transition = Transition(event: nat, next: nat)

  /** pdtsw_sm_state_routines_t; `flag` tells which variable p_skip_transition points to. */
  datatype Routine = Routine(parent: nat, hasEntry: bool, hasExit: bool, hasHandler: bool, flag: nat,
      transitions: seq<Transition>)

  /** A handler's calls of pdtsw_sm_set_state and pdtsw_sm_skip_state_transition. */
  datatype Act = GoTo(t: nat) | AskSkip

  /** What a handler returns, and what it does to the machine before. */
  datatype Reply = Reply(handled: bool, acts: seq<Act>)

  /** Answers of the handler of each state and of the condition of each transition. */
  datatype Env = Env(reply: nat -> Reply, cond: (nat, nat) -> bool)

  datatype Effect = Exit(s: nat) | Enter(s: nat) | Handle(s: nat)

  /** A state table whose parents form a tree rooted at 0, with the depth of every state in it. */
  datatype Chart = Chart(states: seq<Routine>, depth: seq<nat>)
  {
    ghost predicate Valid()
    {
      && |states| > 0 && |depth| == |states|
      && depth[ROOT] == 0 && states[ROOT].parent == ROOT
      && forall s :: 0 < s < |states| ==> states[s].parent < |states| && depth[s] == depth[states[s].parent] + 1
    }

    /** The states from the root down to s. */
    ghost function Path(s: nat): (p: seq<nat>)
      requires Valid() && s < |states|
      ensures |p| == depth[s] + 1 && p[0] == ROOT && p[|p| - 1] == s
      decreases depth[s]
    {
      if s == ROOT then [ROOT] else Path(states[s].parent) + [s]
    }

    /** The proper ancestors of s; the root counts as its own. */
    ghost function Above(s: nat): (p: seq<nat>)
      requires Valid() && s < |states|
      ensures p != [] && p[0] == ROOT
    {
      Path(states[s].parent)
    }
  }

  /* ---------------------------------------------------------------- paths */

  /** The path of a state on a path is a prefix of it. */
  lemma {:induction false} PathPrefix(ch: Chart, s: nat, i: nat)
    requires ch.Valid() && s < |ch.states| && i <= ch.depth[s]
    ensures var x := ch.Path(s)[i]; x < |ch.states| && ch.depth[x] == i && ch.Path(x) == ch.Path(s)[..i + 1]
    decreases ch.depth[s]
  {
    if i < ch.depth[s] {
      PathPrefix(ch, ch.states[s].parent, i);
    } else {
      assert ch.Path(s)[..i + 1] == ch.Path(s);
    }
  }

  /** Two paths through the same state agree up to it. */
  lemma PathsAgree(ch: Chart, s: nat, t: nat, x: nat)
    requires ch.Valid() && s < |ch.states| && t < |ch.states| && x in ch.Path(s) && x in ch.Path(t)
    ensures x < |ch.states| && ch.Path(x) <= ch.Path(s) && ch.Path(x) <= ch.Path(t)
  {
    var i :| 0 <= i < |ch.Path(s)| && ch.Path(s)[i] == x;
    PathPrefix(ch, s, i);
    var j :| 0 <= j < |ch.Path(t)| && ch.Path(t)[j] == x;
    PathPrefix(ch, t, j);
  }

  ghost function CommonPrefix(a: seq<nat>, b: seq<nat>): (c: seq<nat>)
    ensures c <= a && c <= b
    ensures |c| < |a| && |c| < |b| ==> a[|c|] != b[|c|]
  {
    if a != [] && b != [] && a[0] == b[0] then [a[0]] + CommonPrefix(a[1..], b[1..]) else []
  }

  lemma {:induction false} LongestCommonPrefix(a: seq<nat>, b: seq<nat>, c: seq<nat>)
    requires c <= a && c <= b
    ensures c <= CommonPrefix(a, b)
  {
    if c == [] {
    } else {
      assert c[1..] <= a[1..] && c[1..] <= b[1..];
      LongestCommonPrefix(a[1..], b[1..], c[1..]);
      assert c == [c[0]] + c[1..];
    }
  }

  /** The states that stay active: the common proper ancestors. */
  ghost function Kept(ch: Chart, s: nat, t: nat): (k: seq<nat>)
    requires ch.Valid() && s < |ch.states| && t < |ch.states|
    ensures k != [] && k <= ch.Above(s) && k <= ch.Above(t)
  {
    LongestCommonPrefix(ch.Above(s), ch.Above(t), [ROOT]);
    CommonPrefix(ch.Above(s), ch.Above(t))
  }

  lemma KeptIff(ch: Chart, s: nat, t: nat, x: nat)
    requires ch.Valid() && s < |ch.states| && t < |ch.states|
    ensures x in Kept(ch, s, t) <==> x in ch.Above(s) && x in ch.Above(t)
  {
    if x in ch.Above(s) && x in ch.Above(t) {
      PathsAgree(ch, ch.states[s].parent, ch.states[t].parent, x);
      LongestCommonPrefix(ch.Above(s), ch.Above(t), ch.Path(x));
      assert ch.Path(x)[|ch.Path(x)| - 1] == x;
      assert Kept(ch, s, t)[|ch.Path(x)| - 1] == x;
    }
  }

  /* -------------------------------------------------------------- effects */

  /** Leaving the states of a stack above height n, top first. */
  ghost function Popped(stack: seq<nat>, n: nat): seq<Effect>
  {
    if |stack| <= n then [] else [Exit(stack[|stack| - 1])] + Popped(stack[..|stack| - 1], n)
  }

  /** Entering the states of a stack above height n, lowest first. */
  ghost function Pushed(stack: seq<nat>, n: nat): seq<Effect>
  {
    if |stack| <= n then [] else Pushed(stack[..|stack| - 1], n) + [Enter(stack[|stack| - 1])]
  }

  ghost function Moves(ch: Chart, s: nat, t: nat): seq<Effect>
    requires ch.Valid() && s < |ch.states| && t < |ch.states|
  {
    var n := |Kept(ch, s, t)|;
    Popped(ch.Path(s), n) + Pushed(ch.Path(t), n)
  }

  /**
   The stack of active states after the effects: only the top may be left, and only a
   child of the top entered.
   */
  ghost function Replay(ch: Chart, stack: seq<nat>, effects: seq<Effect>): Option<seq<nat>>
    decreases |effects|
  {
    if effects == [] then Some(stack)
    else
      match effects[0]
      case Exit(s) =>
        if stack == [] || stack[|stack| - 1] != s then None else Replay(ch, stack[..|stack| - 1], effects[1..])
      case Enter(s) =>
        if stack == [] || s >= |ch.states| || stack[|stack| - 1] != ch.states[s].parent then None
        else Replay(ch, stack + [s], effects[1..])
      case Handle(_) => Replay(ch, stack, effects[1..])
  }

  lemma {:induction false} ReplayConcat(ch: Chart, stack: seq<nat>, a: seq<Effect>, b: seq<Effect>)
    requires Replay(ch, stack, a).Some?
    ensures Replay(ch, stack, a + b) == Replay(ch, Replay(ch, stack, a).value, b)
    decreases |a|
  {
    if a == [] {
      assert a + b == b;
    } else {
      assert (a + b)[1..] == a[1..] + b;
      match a[0]
      case Exit(s) => ReplayConcat(ch, stack[..|stack| - 1], a[1..], b);
      case Enter(s) => ReplayConcat(ch, stack + [s], a[1..], b);
      case Handle(_) => ReplayConcat(ch, stack, a[1..], b);
    }
  }

  lemma {:induction false} ReplayPopped(ch: Chart, stack: seq<nat>, n: nat)
    requires n <= |stack|
    ensures Replay(ch, stack, Popped(stack, n)) == Some(stack[..n])
  {
    if |stack| > n {
      var rest := stack[..|stack| - 1];
      ReplayPopped(ch, rest, n);
      assert Popped(stack, n)[1..] == Popped(rest, n);
      assert rest[..n] == stack[..n];
    } else {
      assert stack[..n] == stack;
    }
  }

  lemma {:induction false} ReplayPushed(ch: Chart, t: nat, n: nat)
    requires ch.Valid() && t < |ch.states| && 1 <= n <= |ch.Path(t)|
    ensures Replay(ch, ch.Path(t)[..n], Pushed(ch.Path(t), n)) == Some(ch.Path(t))
    decreases ch.depth[t]
  {
    var p := ch.Path(t);
    if |p| > n {
      var up := ch.states[t].parent;
      assert p[..|p| - 1] == ch.Path(up) && p[..n] == ch.Path(up)[..n];
      ReplayPushed(ch, up, n);
      ReplayConcat(ch, p[..n], Pushed(ch.Path(up), n), [Enter(t)]);
      assert Replay(ch, ch.Path(up), [Enter(t)]) == Some(ch.Path(up) + [t]);
    } else {
      assert p[..n] == p;
    }
  }

  /** Leaving and entering states as a transition does turns one root path into the other. */
  lemma MovesReplay(ch: Chart, s: nat, t: nat)
    requires ch.Valid() && s < |ch.states| && t < |ch.states|
    ensures Replay(ch, ch.Path(s), Moves(ch, s, t)) == Some(ch.Path(t))
  {
    var k := Kept(ch, s, t);
    var n := |k|;
    assert ch.Path(s)[..n] == k == ch.Path(t)[..n];
    ReplayPopped(ch, ch.Path(s), n);
    ReplayConcat(ch, ch.Path(s), Popped(ch.Path(s), n), Pushed(ch.Path(t), n));
    ReplayPushed(ch, t, n);
  }

  lemma {:induction false} PoppedIff(stack: seq<nat>, n: nat, x: nat)
    requires n <= |stack|
    ensures Exit(x) in Popped(stack, n) <==> x in stack[n..]
    ensures Enter(x) !in Popped(stack, n) && Handle(x) !in Popped(stack, n)
  {
    if |stack| == n {
    } else {
      PoppedIff(stack[..|stack| - 1], n, x);
      assert stack[n..] == stack[..|stack| - 1][n..] + [stack[|stack| - 1]];
    }
  }

  lemma {:induction false} PushedIff(stack: seq<nat>, n: nat, x: nat)
    requires n <= |stack|
    ensures Enter(x) in Pushed(stack, n) <==> x in stack[n..]
    ensures Exit(x) !in Pushed(stack, n) && Handle(x) !in Pushed(stack, n)
  {
    if |stack| == n {
    } else {
      PushedIff(stack[..|stack| - 1], n, x);
      assert stack[n..] == stack[..|stack| - 1][n..] + [stack[|stack| - 1]];
    }
  }

  /** Beyond the common proper ancestors a path meets none of them again. */
  lemma BeyondKept(ch: Chart, s: nat, t: nat, r: nat, x: nat)
    requires ch.Valid() && s < |ch.states| && t < |ch.states| && r in {s, t}
    ensures Kept(ch, s, t) <= ch.Path(r)
    ensures x in ch.Path(r)[|Kept(ch, s, t)|..] <==> x in ch.Path(r) && x !in Kept(ch, s, t)
  {
    var k, p := Kept(ch, s, t), ch.Path(r);
    assert k <= p;
    assert p == k + p[|k|..];
    if x in k && x in p[|k|..] {
      var i :| 0 <= i < |k| && k[i] == x;
      var j :| |k| <= j < |p| && p[j] == x;
      PathPrefix(ch, r, i);
      PathPrefix(ch, r, j);
    }
  }

  /** Exactly the active states that are not common proper ancestors are left, and those of the new path entered. */
  lemma MovesIff(ch: Chart, s: nat, t: nat, x: nat)
    requires ch.Valid() && s < |ch.states| && t < |ch.states|
    ensures Exit(x) in Moves(ch, s, t) <==> x in ch.Path(s) && !(x in ch.Above(s) && x in ch.Above(t))
    ensures Enter(x) in Moves(ch, s, t) <==> x in ch.Path(t) && !(x in ch.Above(s) && x in ch.Above(t))
  {
    var n := |Kept(ch, s, t)|;
    BeyondKept(ch, s, t, s, x);
    BeyondKept(ch, s, t, t, x);
    PoppedIff(ch.Path(s), n, x);
    PushedIff(ch.Path(t), n, x);
    KeptIff(ch, s, t, x);
  }

  /* ------------------------------------------------------------- dispatch */

  /** curr_state, the skip variables, and what has been done so far. */
  datatype Config = Config(curr: nat, flags: seq<bool>, log: seq<Effect>)

  /** Hung: the code entered one of its `while(1)` loops. */
  datatype Outcome = Hung | Done(c: Config)

  ghost predicate Fits(ch: Chart, c: Config)
  {
    && ch.Valid() && c.curr < |ch.states|
    && forall s :: 0 <= s < |ch.states| ==> ch.states[s].flag < |c.flags|
  }

  /** pdtsw_sm_set_state */
  ghost function Moved(ch: Chart, c: Config, t: nat): (o: Outcome)
    requires Fits(ch, c)
    ensures o.Done? ==> Fits(ch, o.c) && o.c.flags == c.flags
  {
    if t >= |ch.states| || t == c.curr then Hung else Done(Config(t, c.flags, c.log + Moves(ch, c.curr, t)))
  }

  /** The first row for the event. */
  function FirstMatch(ts: seq<Transition>, event: nat, i: nat): (r: Option<nat>)
    requires i <= |ts|
    ensures r.Some? ==> i <= r.value < |ts| && ts[r.value].event == event
    ensures r.Some? ==> forall j :: i <= j < r.value ==> ts[j].event != event
    ensures r.None? ==> forall j :: i <= j < |ts| ==> ts[j].event != event
    decreases |ts| - i
  {
    if i == |ts| then None else if ts[i].event == event then Some(i) else FirstMatch(ts, event, i + 1)
  }

  /** The state the table of s leads to on the event, its condition holding. */
  ghost function Target(ch: Chart, s: nat, event: nat, env: Env): Option<nat>
    requires s < |ch.states|
  {
    var r := FirstMatch(ch.states[s].transitions, event, 0);
    if r.Some? && env.cond(s, r.value) then Some(ch.states[s].transitions[r.value].next) else None
  }

  ghost function Follow(ch: Chart, c: Config, target: Option<nat>): (o: Outcome)
    requires Fits(ch, c)
    ensures o.Done? ==> Fits(ch, o.c) && o.c.flags == c.flags
  {
    if target.None? then Done(c) else Moved(ch, c, target.value)
  }

  /** pdtsw_sm_do_transition */
  ghost function Transitioned(ch: Chart, c: Config, s: nat, event: nat, env: Env): (o: Outcome)
    requires Fits(ch, c) && s < |ch.states|
    ensures o.Done? ==> Fits(ch, o.c)
  {
    var flag := ch.states[s].flag;
    var o := if c.flags[flag] then Done(c) else Follow(ch, c, Target(ch, s, event, env));
    if o.Hung? then Hung else Done(o.c.(flags := o.c.flags[flag := false]))
  }

  /** pdtsw_sm_skip_state_transition, which marks the variable of the current state. */
  ghost function Skipped(ch: Chart, c: Config): (r: Config)
    requires Fits(ch, c)
    ensures Fits(ch, r)
  {
    c.(flags := c.flags[ch.states[c.curr].flag := true])
  }

  /** What a handler does to the machine. */
  ghost function Performed(ch: Chart, c: Config, acts: seq<Act>): (o: Outcome)
    requires Fits(ch, c)
    ensures o.Done? ==> Fits(ch, o.c) && |o.c.flags| == |c.flags|
    decreases |acts|
  {
    if acts == [] then Done(c)
    else
      match acts[0]
      case AskSkip => Performed(ch, Skipped(ch, c), acts[1..])
      case GoTo(t) =>
        var o := Moved(ch, c, t);
        if o.Hung? then Hung else Performed(ch, o.c, acts[1..])
  }

  /** The handler of s runs, then the transition of s is considered. */
  ghost function HandleAt(ch: Chart, c: Config, s: nat, event: nat, env: Env): (o: Outcome)
    requires Fits(ch, c) && s < |ch.states|
    ensures o.Done? ==> Fits(ch, o.c)
  {
    var c1 := c.(log := c.log + [Handle(s)]);
    var o := Performed(ch, c1, env.reply(s).acts);
    if o.Hung? then Hung else Transitioned(ch, o.c, s, event, env)
  }

  /** The loop of pdtsw_sm_handle_event from state s up. */
  ghost function HandleFrom(ch: Chart, c: Config, s: nat, event: nat, env: Env): (o: Outcome)
    requires Fits(ch, c) && s < |ch.states|
    ensures o.Done? ==> Fits(ch, o.c)
    decreases ch.depth[s]
  {
    if s == ROOT then Done(c)
    else if !ch.states[s].hasHandler then HandleFrom(ch, c, ch.states[s].parent, event, env)
    else
      var o := HandleAt(ch, c, s, event, env);
      if o.Hung? || env.reply(s).handled then o else HandleFrom(ch, o.c, ch.states[s].parent, event, env)
  }

  /** An event, or a call of pdtsw_sm_set_state from outside the handlers. */
  datatype Occurrence = Event(event: nat, env: Env) | Set(t: nat)

  ghost function Happens(ch: Chart, c: Config, x: Occurrence): (o: Outcome)
    requires Fits(ch, c)
    ensures o.Done? ==> Fits(ch, o.c)
  {
    match x
    case Event(event, env) => HandleFrom(ch, c, c.curr, event, env)
    case Set(t) => Moved(ch, c, t)
  }

  /** A run: one occurrence after another until one hangs. */
  ghost function Run(ch: Chart, c: Config, events: seq<Occurrence>): (o: Outcome)
    requires Fits(ch, c)
    ensures o.Done? ==> Fits(ch, o.c)
    decreases |events|
  {
    if events == [] then Done(c)
    else
      var o := Happens(ch, c, events[0]);
      if o.Hung? then Hung else Run(ch, o.c, events[1..])
  }

  /* ------------------------------------------------ the stack over a run */

  /** What was done between c0 and c turns the root path of the one into that of the other. */
  ghost predicate StackKept(ch: Chart, c0: Config, c: Config)
    requires Fits(ch, c0) && Fits(ch, c)
  {
    c0.log <= c.log && Replay(ch, ch.Path(c0.curr), c.log[|c0.log|..]) == Some(ch.Path(c.curr))
  }

  lemma StackKeptTrans(ch: Chart, a: Config, b: Config, c: Config)
    requires Fits(ch, a) && Fits(ch, b) && Fits(ch, c) && StackKept(ch, a, b) && StackKept(ch, b, c)
    ensures StackKept(ch, a, c)
  {
    var x, y := b.log[|a.log|..], c.log[|b.log|..];
    ReplayConcat(ch, ch.Path(a.curr), x, y);
    assert c.log[|a.log|..] == x + y;
  }

  lemma StackKeptRefl(ch: Chart, c: Config)
    requires Fits(ch, c)
    ensures StackKept(ch, c, c)
  {
    assert c.log[|c.log|..] == [];
  }

  lemma MovedKeepsStack(ch: Chart, c: Config, t: nat)
    requires Fits(ch, c) && Moved(ch, c, t).Done?
    ensures StackKept(ch, c, Moved(ch, c, t).c)
  {
    hide Replay, Moves;
    MovesReplay(ch, c.curr, t);
    assert Moved(ch, c, t).c.log[|c.log|..] == Moves(ch, c.curr, t);
  }

  lemma {:induction false} PerformedKeepsStack(ch: Chart, c: Config, acts: seq<Act>)
    requires Fits(ch, c) && Performed(ch, c, acts).Done?
    ensures StackKept(ch, c, Performed(ch, c, acts).c)
    decreases |acts|
  {
    if acts == [] {
      StackKeptRefl(ch, c);
    } else {
      match acts[0]
      case AskSkip =>
        PerformedKeepsStack(ch, Skipped(ch, c), acts[1..]);
      case GoTo(t) =>
        MovedKeepsStack(ch, c, t);
        PerformedKeepsStack(ch, Moved(ch, c, t).c, acts[1..]);
        StackKeptTrans(ch, c, Moved(ch, c, t).c, Performed(ch, c, acts).c);
    }
  }

  lemma TransitionedKeepsStack(ch: Chart, c: Config, s: nat, event: nat, env: Env)
    requires Fits(ch, c) && s < |ch.states| && Transitioned(ch, c, s, event, env).Done?
    ensures StackKept(ch, c, Transitioned(ch, c, s, event, env).c)
  {
    hide Replay, Moved;
    StackKeptRefl(ch, c);
    var target := Target(ch, s, event, env);
    if !c.flags[ch.states[s].flag] && target.Some? { MovedKeepsStack(ch, c, target.value); }
  }

  lemma AtKeepsStack(ch: Chart, c: Config, s: nat, event: nat, env: Env)
    requires Fits(ch, c) && s < |ch.states| && HandleAt(ch, c, s, event, env).Done?
    ensures StackKept(ch, c, HandleAt(ch, c, s, event, env).c)
  {
    var c1 := c.(log := c.log + [Handle(s)]);
    var c2 := Performed(ch, c1, env.reply(s).acts).c;
    assert StackKept(ch, c, c1) by {
      assert c1.log[|c.log|..] == [Handle(s)];
      assert Replay(ch, ch.Path(c.curr), [Handle(s)]) == Some(ch.Path(c.curr));
    }
    PerformedKeepsStack(ch, c1, env.reply(s).acts);
    TransitionedKeepsStack(ch, c2, s, event, env);
    hide StackKept, Performed, Transitioned;
    StackKeptTrans(ch, c, c1, c2);
    StackKeptTrans(ch, c, c2, HandleAt(ch, c, s, event, env).c);
  }

  lemma {:induction false} HandleKeepsStack(ch: Chart, c: Config, s: nat, event: nat, env: Env)
    requires Fits(ch, c) && s < |ch.states| && HandleFrom(ch, c, s, event, env).Done?
    ensures StackKept(ch, c, HandleFrom(ch, c, s, event, env).c)
    decreases ch.depth[s]
  {
    if s == ROOT {
    } else if !ch.states[s].hasHandler {
      HandleKeepsStack(ch, c, ch.states[s].parent, event, env);
    } else {
      AtKeepsStack(ch, c, s, event, env);
      var o := HandleAt(ch, c, s, event, env);
      if !env.reply(s).handled {
        HandleKeepsStack(ch, o.c, ch.states[s].parent, event, env);
        StackKeptTrans(ch, c, o.c, HandleFrom(ch, c, s, event, env).c);
      }
    }
  }

  /** After any run that does not hang, the active stack is the root path of the current state. */
  lemma {:induction false} RunKeepsStack(ch: Chart, c: Config, events: seq<Occurrence>)
    requires Fits(ch, c) && Run(ch, c, events).Done?
    ensures StackKept(ch, c, Run(ch, c, events).c)
    decreases |events|
  {
    if events == [] {
    } else {
      var o := Happens(ch, c, events[0]);
      match events[0] {
        case Event(event, env) => HandleKeepsStack(ch, c, c.curr, event, env);
        case Set(t) => MovedKeepsStack(ch, c, t);
      }
      RunKeepsStack(ch, o.c, events[1..]);
      StackKeptTrans(ch, c, o.c, Run(ch, c, events).c);
    }
  }

  /* ------------------------------------------------------ which states see an event */

  /** Of the states given, those with a handler, up to the first that answers HANDLED. */
  ghost function Visited(ch: Chart, chain: seq<nat>, env: Env): seq<nat>
    requires forall k :: 0 <= k < |chain| ==> chain[k] < |ch.states|
  {
    if chain == [] then []
    else if !ch.states[chain[0]].hasHandler then Visited(ch, chain[1..], env)
    else if env.reply(chain[0]).handled then [chain[0]]
    else [chain[0]] + Visited(ch, chain[1..], env)
  }

  /** s and its ancestors below the root, innermost first. */
  ghost function Chain(ch: Chart, s: nat): (r: seq<nat>)
    requires ch.Valid() && s < |ch.states|
    ensures forall k :: 0 <= k < |r| ==> r[k] < |ch.states|
    decreases ch.depth[s]
  {
    if s == ROOT then [] else [s] + Chain(ch, ch.states[s].parent)
  }

  lemma {:induction false} ChainIsPath(ch: Chart, s: nat)
    requires ch.Valid() && s < |ch.states|
    ensures |Chain(ch, s)| == ch.depth[s]
    ensures forall k :: 0 <= k < ch.depth[s] ==> Chain(ch, s)[k] == ch.Path(s)[ch.depth[s] - k]
    decreases ch.depth[s]
  {
    if s == ROOT {
    } else {
      ChainIsPath(ch, ch.states[s].parent);
    }
  }

  ghost function Handlers(log: seq<Effect>): seq<nat>
  {
    if log == [] then []
    else if log[0].Handle? then [log[0].s] + Handlers(log[1..])
    else Handlers(log[1..])
  }

  lemma {:induction false} HandlersConcat(a: seq<Effect>, b: seq<Effect>)
    ensures Handlers(a + b) == Handlers(a) + Handlers(b)
  {
    if a == [] {
      assert a + b == b;
    } else {
      assert (a + b)[1..] == a[1..] + b;
      HandlersConcat(a[1..], b);
    }
  }

  lemma {:induction false} PoppedSilent(stack: seq<nat>, n: nat)
    ensures Handlers(Popped(stack, n)) == []
  {
    if |stack| <= n {
    } else {
      PoppedSilent(stack[..|stack| - 1], n);
    }
  }

  lemma {:induction false} PushedSilent(stack: seq<nat>, n: nat)
    ensures Handlers(Pushed(stack, n)) == []
  {
    if |stack| <= n {
    } else {
      PushedSilent(stack[..|stack| - 1], n);
      HandlersConcat(Pushed(stack[..|stack| - 1], n), [Enter(stack[|stack| - 1])]);
    }
  }

  lemma MovesSilent(ch: Chart, s: nat, t: nat)
    requires ch.Valid() && s < |ch.states| && t < |ch.states|
    ensures Handlers(Moves(ch, s, t)) == []
  {
    var n := |Kept(ch, s, t)|;
    PoppedSilent(ch.Path(s), n);
    PushedSilent(ch.Path(t), n);
    HandlersConcat(Popped(ch.Path(s), n), Pushed(ch.Path(t), n));
  }

  lemma MovedSilent(ch: Chart, c: Config, t: nat)
    requires Fits(ch, c) && Moved(ch, c, t).Done?
    ensures Handlers(Moved(ch, c, t).c.log) == Handlers(c.log)
  {
    MovesSilent(ch, c.curr, t);
    HandlersConcat(c.log, Moves(ch, c.curr, t));
  }

  lemma {:induction false} PerformedSilent(ch: Chart, c: Config, acts: seq<Act>)
    requires Fits(ch, c) && Performed(ch, c, acts).Done?
    ensures Handlers(Performed(ch, c, acts).c.log) == Handlers(c.log)
    decreases |acts|
  {
    if acts == [] {
    } else {
      match acts[0]
      case AskSkip =>
        PerformedSilent(ch, Skipped(ch, c), acts[1..]);
      case GoTo(t) =>
        MovedSilent(ch, c, t);
        PerformedSilent(ch, Moved(ch, c, t).c, acts[1..]);
    }
  }

  lemma AtHandles(ch: Chart, c: Config, s: nat, event: nat, env: Env)
    requires Fits(ch, c) && s < |ch.states| && HandleAt(ch, c, s, event, env).Done?
    ensures Handlers(HandleAt(ch, c, s, event, env).c.log) == Handlers(c.log) + [s]
  {
    hide Moved;
    var c1 := c.(log := c.log + [Handle(s)]);
    var c2 := Performed(ch, c1, env.reply(s).acts).c;
    HandlersConcat(c.log, [Handle(s)]);
    assert Handlers([Handle(s)]) == [s];
    PerformedSilent(ch, c1, env.reply(s).acts);
    var target := Target(ch, s, event, env);
    if !c2.flags[ch.states[s].flag] && target.Some? { MovedSilent(ch, c2, target.value); }
  }

  /**
   An event that does not hang is shown to the ancestors of the state current at entry,
   innermost first, up to the first HANDLED, even when transitions change the current state.
   */
  lemma {:induction false} EventVisits(ch: Chart, c: Config, s: nat, event: nat, env: Env)
    requires Fits(ch, c) && s < |ch.states| && HandleFrom(ch, c, s, event, env).Done?
    ensures Handlers(HandleFrom(ch, c, s, event, env).c.log) == Handlers(c.log) + Visited(ch, Chain(ch, s), env)
    decreases ch.depth[s]
  {
    if s == ROOT {
    } else {
      var up := ch.states[s].parent;
      assert Chain(ch, s)[1..] == Chain(ch, up);
      if !ch.states[s].hasHandler {
        EventVisits(ch, c, up, event, env);
      } else {
        AtHandles(ch, c, s, event, env);
        if !env.reply(s).handled { EventVisits(ch, HandleAt(ch, c, s, event, env).c, up, event, env); }
      }
    }
  }

  /* -------------------------------------------------------- skip requests */

  /** All states share one skip variable. */
  ghost predicate OneFlag(ch: Chart)
  {
    forall s, t :: 0 <= s < |ch.states| && 0 <= t < |ch.states| ==> ch.states[s].flag == ch.states[t].flag
  }

  ghost predicate Clear(ch: Chart, c: Config)
    requires Fits(ch, c)
  {
    forall s :: 0 <= s < |ch.states| ==> !c.flags[ch.states[s].flag]
  }

  /** A handler's moves, its skip requests aside. */
  ghost function MovesOf(ch: Chart, c: Config, acts: seq<Act>): (o: Outcome)
    requires Fits(ch, c)
    ensures o.Done? ==> Fits(ch, o.c) && o.c.flags == c.flags
    decreases |acts|
  {
    if acts == [] then Done(c)
    else
      match acts[0]
      case AskSkip => MovesOf(ch, c, acts[1..])
      case GoTo(t) =>
        var o := Moved(ch, c, t);
        if o.Hung? then Hung else MovesOf(ch, o.c, acts[1..])
  }

  ghost function PlainAt(ch: Chart, c: Config, s: nat, event: nat, env: Env): (o: Outcome)
    requires Fits(ch, c) && s < |ch.states|
    ensures o.Done? ==> Fits(ch, o.c)
  {
    var o := MovesOf(ch, c.(log := c.log + [Handle(s)]), env.reply(s).acts);
    if o.Hung? then Hung
    else Follow(ch, o.c, if AskSkip in env.reply(s).acts then None else Target(ch, s, event, env))
  }

  /** The event loop with no skip variable: a state that asked to skip has its own transition left out. */
  ghost function PlainFrom(ch: Chart, c: Config, s: nat, event: nat, env: Env): (o: Outcome)
    requires Fits(ch, c) && s < |ch.states|
    ensures o.Done? ==> Fits(ch, o.c)
    decreases ch.depth[s]
  {
    if s == ROOT then Done(c)
    else if !ch.states[s].hasHandler then PlainFrom(ch, c, ch.states[s].parent, event, env)
    else
      var o := PlainAt(ch, c, s, event, env);
      if o.Hung? || env.reply(s).handled then o else PlainFrom(ch, o.c, ch.states[s].parent, event, env)
  }

  ghost function PlainRun(ch: Chart, c: Config, events: seq<Occurrence>): (o: Outcome)
    requires Fits(ch, c)
    ensures o.Done? ==> Fits(ch, o.c)
    decreases |events|
  {
    if events == [] then Done(c)
    else
      var o := match events[0]
        case Event(event, env) => PlainFrom(ch, c, c.curr, event, env)
        case Set(t) => Moved(ch, c, t);
      if o.Hung? then Hung else PlainRun(ch, o.c, events[1..])
  }

  /** With one variable a handler's requests amount to setting it, and its moves do not depend on it. */
  lemma {:induction false} PerformedIsPlain(ch: Chart, c: Config, acts: seq<Act>, flag: nat)
    requires Fits(ch, c) && OneFlag(ch) && flag == ch.states[c.curr].flag
    ensures var x, y := Performed(ch, c, acts), MovesOf(ch, c, acts);
            if y.Hung? then x.Hung?
            else x == Done(y.c.(flags := if AskSkip in acts then c.flags[flag := true] else c.flags))
    ensures forall f: seq<bool> :: |f| == |c.flags| ==>
              var y, z := MovesOf(ch, c, acts), MovesOf(ch, c.(flags := f), acts);
              if y.Hung? then z.Hung? else z == Done(y.c.(flags := f))
    decreases |acts|
  {
    if acts == [] {
    } else {
      match acts[0]
      case AskSkip =>
        PerformedIsPlain(ch, c, acts[1..], flag);
        PerformedIsPlain(ch, Skipped(ch, c), acts[1..], flag);
      case GoTo(t) =>
        var o := Moved(ch, c, t);
        if o.Done? { PerformedIsPlain(ch, o.c, acts[1..], flag); }
    }
  }

  lemma AtIsPlain(ch: Chart, c: Config, s: nat, event: nat, env: Env)
    requires Fits(ch, c) && s < |ch.states| && OneFlag(ch) && Clear(ch, c)
    ensures HandleAt(ch, c, s, event, env) == PlainAt(ch, c, s, event, env)
  {
    hide Performed, MovesOf, Moved;
    var flag := ch.states[s].flag;
    var c1, acts := c.(log := c.log + [Handle(s)]), env.reply(s).acts;
    assert flag == ch.states[c.curr].flag && !c.flags[flag];
    PerformedIsPlain(ch, c1, acts, flag);
    assert c.flags[flag := true][flag := false] == c.flags == c.flags[flag := false];
  }

  lemma {:induction false} EventIsPlain(ch: Chart, c: Config, s: nat, event: nat, env: Env)
    requires Fits(ch, c) && s < |ch.states| && OneFlag(ch) && Clear(ch, c)
    ensures HandleFrom(ch, c, s, event, env) == PlainFrom(ch, c, s, event, env)
    ensures var o := HandleFrom(ch, c, s, event, env); o.Done? ==> Clear(ch, o.c)
    decreases ch.depth[s]
  {
    if s == ROOT {
    } else {
      if !ch.states[s].hasHandler {
        EventIsPlain(ch, c, ch.states[s].parent, event, env);
      } else {
        AtIsPlain(ch, c, s, event, env);
        var o := HandleAt(ch, c, s, event, env);
        if o.Done? && !env.reply(s).handled { EventIsPlain(ch, o.c, ch.states[s].parent, event, env); }
      }
    }
  }

  /** With one shared variable a skip request suppresses its own state's transition and nothing later. */
  lemma {:induction false} RunIsPlain(ch: Chart, c: Config, events: seq<Occurrence>)
    requires Fits(ch, c) && OneFlag(ch) && Clear(ch, c)
    ensures Run(ch, c, events) == PlainRun(ch, c, events)
    ensures Run(ch, c, events).Done? ==> Clear(ch, Run(ch, c, events).c)
    decreases |events|
  {
    if events == [] {
    } else {
      var o := Happens(ch, c, events[0]);
      if events[0].Event? { EventIsPlain(ch, c, c.curr, events[0].event, events[0].env); }
      if o.Done? { RunIsPlain(ch, o.c, events[1..]); }
    }
  }

  /** The variables a handler's requests mark: that of whatever state is current at the time. */
  ghost function Marked(ch: Chart, c: Config, acts: seq<Act>): set<nat>
    requires Fits(ch, c)
    decreases |acts|
  {
    if acts == [] then {}
    else
      match acts[0]
      case AskSkip => {ch.states[c.curr].flag} + Marked(ch, Skipped(ch, c), acts[1..])
      case GoTo(t) =>
        var o := Moved(ch, c, t);
        if o.Hung? then {} else Marked(ch, o.c, acts[1..])
  }

  lemma {:induction false} MarkedAreSet(ch: Chart, c: Config, acts: seq<Act>)
    requires Fits(ch, c) && Performed(ch, c, acts).Done?
    ensures forall x :: 0 <= x < |c.flags| ==>
              (Performed(ch, c, acts).c.flags[x] <==> c.flags[x] || x in Marked(ch, c, acts))
    decreases |acts|
  {
    if acts == [] {
    } else {
      match acts[0]
      case AskSkip => MarkedAreSet(ch, Skipped(ch, c), acts[1..]);
      case GoTo(t) => MarkedAreSet(ch, Moved(ch, c, t).c, acts[1..]);
    }
  }

  /**
   Without sharing, requests made in the handler of s suppress its transition exactly when one of
   them was made while the current state had the variable of s, and the event leaves no request
   behind exactly when none was made while it had another.
   */
  lemma SkipWorksIff(ch: Chart, c: Config, s: nat, event: nat, env: Env)
    requires Fits(ch, c) && s < |ch.states| && Clear(ch, c)
    requires var o := Performed(ch, c.(log := c.log + [Handle(s)]), env.reply(s).acts);
             var t := Target(ch, s, event, env);
             o.Done? && t.Some? && t.value < |ch.states| && t.value != o.c.curr
    ensures var c1 := c.(log := c.log + [Handle(s)]);
            var before, after := Performed(ch, c1, env.reply(s).acts).c, HandleAt(ch, c, s, event, env);
            var marked := Marked(ch, c1, env.reply(s).acts);
            && after.Done?
            && (after.c.curr == before.curr <==> ch.states[s].flag in marked)
            && (Clear(ch, after.c) <==>
                  forall r :: 0 <= r < |ch.states| && ch.states[r].flag in marked ==>
                    ch.states[r].flag == ch.states[s].flag)
  {
    hide Performed, Marked, Chart.Path;
    MarkedAreSet(ch, c.(log := c.log + [Handle(s)]), env.reply(s).acts);
  }

  /** States 0, 1 and its child 2, each with a variable; on event 0 state 1 has a transition from 2 to itself. */
  function TwoFlags(): Chart
  {
    Chart([Routine(0, false, false, false, 0, []),
           Routine(0, false, false, true, 0, [Transition(0, 1)]),
           Routine(1, false, false, false, 1, [])], [0, 1, 2])
  }

  /** The handler of 1 asks to skip while 2 is current: the transition is taken and the request stays behind. */
  lemma SkipMissesItsTransition(cond: (nat, nat) -> bool)
    requires cond(1, 0)
    ensures var ch, c := TwoFlags(), Config(2, [false, false], []);
            var env := Env(_ => Reply(true, [AskSkip]), cond);
            && Fits(ch, c) && Clear(ch, c)
            && Happens(ch, c, Event(0, env)).Done?
            && Happens(ch, c, Event(0, env)).c.curr == 1
            && Happens(ch, c, Event(0, env)).c.flags == [false, true]
            && PlainFrom(ch, c, 2, 0, env).Done? && PlainFrom(ch, c, 2, 0, env).c.curr == 2
  {
    var ch, c := TwoFlags(), Config(2, [false, false], []);
    var env := Env(_ => Reply(true, [AskSkip]), cond);
    var c1 := c.(log := c.log + [Handle(1)]);
    assert Performed(ch, Skipped(ch, c1), [AskSkip][1..]) == Done(Skipped(ch, c1));
    assert Performed(ch, c1, [AskSkip]) == Done(Skipped(ch, c1));
    assert MovesOf(ch, c1, [AskSkip][1..]) == Done(c1);
    assert MovesOf(ch, c1, [AskSkip]) == Done(c1);
    assert [false, false][1 := true][0 := false] == [false, true];
    assert HandleFrom(ch, c, 2, 0, env) == HandleFrom(ch, c, 1, 0, env);
  }

  /* ----------------------------------------------------------- the machine */

  /** The user functions behind the effects; a state may lack an entry or exit function. */
  ghost function Calls(ch: Chart, log: seq<Effect>): seq<Effect>
  {
    if log == [] then []
    else
      var last := log[|log| - 1];
      var called := match last
        case Exit(s) => s < |ch.states| && ch.states[s].hasExit
        case Enter(s) => s < |ch.states| && ch.states[s].hasEntry
        case Handle(_) => true;
      Calls(ch, log[..|log| - 1]) + (if called then [last] else [])
  }

  lemma CallsPlus(ch: Chart, log: seq<Effect>, e: Effect)
    ensures var called := match e
              case Exit(s) => s < |ch.states| && ch.states[s].hasExit
              case Enter(s) => s < |ch.states| && ch.states[s].hasEntry
              case Handle(_) => true;
            Calls(ch, log + [e]) == Calls(ch, log) + (if called then [e] else [])
  {
    assert (log + [e])[..|log|] == log;
  }

  lemma PathStep(ch: Chart, s: nat)
    requires ch.Valid() && s < |ch.states| && s != ROOT
    ensures var up := ch.states[s].parent;
            up < |ch.states| && ch.depth[s] == ch.depth[up] + 1
            && ch.Path(s) == ch.Path(up) + [s] && ch.Path(s)[..|ch.Path(s)| - 1] == ch.Path(up)
  {
    assert (ch.Path(ch.states[s].parent) + [s])[..ch.depth[s]] == ch.Path(ch.states[s].parent);
  }

  lemma PoppedStep(stack: seq<nat>, n: nat, log: seq<Effect>)
    ensures |stack| <= n ==> log + Popped(stack, n) == log
    ensures |stack| > n ==>
              log + Popped(stack, n) == log + [Exit(stack[|stack| - 1])] + Popped(stack[..|stack| - 1], n)
  {
  }

  lemma PushedStep(stack: seq<nat>, n: nat, log: seq<Effect>)
    ensures |stack| <= n ==> log + Pushed(stack, n) == log
    ensures |stack| > n ==>
              log + Pushed(stack, n) == log + Pushed(stack[..|stack| - 1], n) + [Enter(stack[|stack| - 1])]
  {
  }

  lemma SamePath(ch: Chart, s: nat, t: nat)
    requires ch.Valid() && s < |ch.states| && t < |ch.states| && ch.Path(t) <= ch.Path(s) && s != t
    ensures |ch.Path(t)| < |ch.Path(s)| && ch.Path(t) <= ch.Path(ch.states[s].parent) && s != ROOT
  {
    assert ch.Path(s)[|ch.Path(t)| - 1] == ch.Path(t)[|ch.Path(t)| - 1] == t;
  }

  lemma KeptOnPaths(ch: Chart, s: nat, t: nat)
    requires ch.Valid() && s < |ch.states| && t < |ch.states|
    ensures Kept(ch, s, t) <= ch.Path(s) && Kept(ch, s, t) <= ch.Path(t)
  {
  }

  lemma PrefixExact(p: seq<nat>, k: seq<nat>, a: seq<nat>, b: seq<nat>)
    requires p <= k <= a && k <= b && forall i :: |p| <= i < |a| ==> a[i] !in b
    ensures p == k
  {
    assert forall i :: 0 <= i < |k| ==> k[i] == b[i] && k[i] == a[i];
    assert k != [] ==> k[|k| - 1] in b && k[|k| - 1] == a[|k| - 1];
  }

  /** A proper ancestor of both with no later one on the way down is the last common one. */
  lemma CommonParentFound(ch: Chart, s: nat, t: nat, x: nat)
    requires ch.Valid() && s < |ch.states| && t < |ch.states| && x < |ch.states|
    requires ch.Path(x) <= ch.Above(s) && (x == ROOT || x in ch.Above(t))
    requires forall i :: |ch.Path(x)| <= i < |ch.Above(s)| ==> ch.Above(s)[i] !in ch.Above(t)
    ensures ch.Path(x) == Kept(ch, s, t)
  {
    var p := ch.Path(x);
    assert p[|p| - 1] == x == ch.Above(s)[|p| - 1];
    if x == ROOT { assert ch.Above(t)[0] == ROOT; }
    PathsAgree(ch, ch.states[s].parent, ch.states[t].parent, x);
    LongestCommonPrefix(ch.Above(s), ch.Above(t), p);
    PrefixExact(p, Kept(ch, s, t), ch.Above(s), ch.Above(t));
  }

  /** pdtsw_sm_state_map_t, with the skip variables its states point to and the calls made to user functions. */
  class StateMap {
    const stateMap: seq<Routine>
    var currState: nat
    var skipTransition: seq<bool>
    var calls: seq<Effect>
    ghost const chart: Chart
    ghost var log: seq<Effect>

    ghost predicate Valid()
      reads this
    {
      chart.states == stateMap && Fits(chart, State()) && calls == Calls(chart, log)
    }

    ghost function State(): Config
      reads this
    {
      Config(currState, skipTransition, log)
    }

    constructor (states: seq<Routine>, ghost depth: seq<nat>, start: nat, flags: nat)
      requires Chart(states, depth).Valid() && start < |states|
      requires forall s :: 0 <= s < |states| ==> states[s].flag < flags
      ensures Valid() && State() == Config(start, seq(flags, _ => false), []) && chart == Chart(states, depth)
    {
      stateMap, currState, skipTransition, calls := states, start, seq(flags, _ => false), [];
      chart, log := Chart(states, depth), [];
    }

    /** find_common_parent: the last of the common proper ancestors. */
    method FindCommonParent(newState: nat) returns (commonParent: nat)
      requires Valid() && newState < |stateMap|
      ensures commonParent < |stateMap| && chart.Path(commonParent) == Kept(chart, currState, newState)
    {
      ghost var mine, theirs := chart.Above(currState), chart.Above(newState);
      commonParent := stateMap[currState].parent;
      assert chart.Path(commonParent) == mine;
      while commonParent != ROOT
        invariant commonParent < |stateMap| && chart.Path(commonParent) <= mine
        invariant forall i :: |chart.Path(commonParent)| <= i < |mine| ==> mine[i] !in theirs
        decreases chart.depth[commonParent]
      {
        var tempState: nat := stateMap[newState].parent;
        assert chart.Path(tempState) == theirs;
        var found := false;
        while tempState != ROOT
          invariant tempState < |stateMap| && chart.Path(tempState) <= theirs
          invariant !found && forall i :: |chart.Path(tempState)| <= i < |theirs| ==> theirs[i] != commonParent
          decreases chart.depth[tempState]
        {
          if commonParent == tempState {
            found := true;
            break;
          }
          ghost var p := chart.Path(tempState);
          tempState := stateMap[tempState].parent;
          assert chart.Path(tempState) == p[..|p| - 1];
          assert p[|p| - 1] == theirs[|p| - 1] != commonParent;
        }
        if found {
          break;
        }
        assert commonParent !in theirs;
        ghost var p := chart.Path(commonParent);
        commonParent := stateMap[commonParent].parent;
        assert chart.Path(commonParent) == p[..|p| - 1];
        assert mine[|p| - 1] == p[|p| - 1];
      }
      CommonParentFound(chart, currState, newState, commonParent);
    }

    /** execute_state_exit_sequence */
    method ExecuteStateExitSequence(parentState: nat)
      requires Valid() && parentState < |stateMap| && chart.Path(parentState) <= chart.Path(currState)
      modifies this`calls, this`log
      ensures Valid() && log == old(log) + Popped(chart.Path(currState), |chart.Path(parentState)|)
    {
      var curr: nat := currState;
      hide Chart.Valid, Chart.Path, Popped, Calls;
      PoppedStep(chart.Path(parentState), |chart.Path(parentState)|, []);
      ghost var n := |chart.Path(parentState)|;
      ghost var all := Popped(chart.Path(currState), n);
      while curr != parentState
        invariant curr < |stateMap| && chart.Path(parentState) <= chart.Path(curr) && Valid()
        invariant old(log) + all == log + Popped(chart.Path(curr), n)
        decreases |chart.Path(curr)|
      {
        SamePath(chart, curr, parentState);
        PathStep(chart, curr);
        PoppedStep(chart.Path(curr), n, log);
        CallsPlus(chart, log, Exit(curr));
        if stateMap[curr].hasExit {
          calls := calls + [Exit(curr)];
        }
        log := log + [Exit(curr)];
        curr := stateMap[curr].parent;
      }
    }

    /** execute_state_entry_sequence */
    method ExecuteStateEntrySequence(targetState: nat, parentState: nat)
      requires Valid() && parentState < |stateMap| && targetState < |stateMap|
      requires chart.Path(parentState) <= chart.Path(targetState)
      modifies this`calls, this`log
      ensures Valid() && log == old(log) + Pushed(chart.Path(targetState), |chart.Path(parentState)|)
      decreases chart.depth[targetState]
    {
      hide Chart.Valid, Chart.Path, Pushed, Calls;
      PushedStep(chart.Path(targetState), |chart.Path(parentState)|, log);
      if targetState != parentState {
        SamePath(chart, targetState, parentState);
        PathStep(chart, targetState);
        ExecuteStateEntrySequence(stateMap[targetState].parent, parentState);
        CallsPlus(chart, log, Enter(targetState));
        if stateMap[targetState].hasEntry {
          calls := calls + [Enter(targetState)];
        }
        log := log + [Enter(targetState)];
      }
    }

    /** pdtsw_sm_set_state; ok is false where the code loops forever. */
    method SetState(newState: nat) returns (ok: bool)
      requires Valid()
      modifies this
      ensures Valid() && skipTransition == old(skipTransition)
      ensures (if ok then Done(State()) else Hung) == Moved(chart, old(State()), newState)
    {
      hide Chart.Valid, Chart.Path, Chart.Above, Calls, Popped, Pushed;
      if currState >= |stateMap| || newState >= |stateMap| || newState == currState {
        return false;
      }
      var commonParent := FindCommonParent(newState);
      KeptOnPaths(chart, currState, newState);
      ExecuteStateExitSequence(commonParent);
      ExecuteStateEntrySequence(newState, commonParent);
      currState := newState;
      return true;
    }

    /** pdtsw_sm_do_transition */
    method DoTransition(state: nat, evt: nat, env: Env) returns (ok: bool)
      requires Valid() && state < |stateMap|
      modifies this
      ensures Valid()
      ensures (if ok then Done(State()) else Hung) == Transitioned(chart, old(State()), state, evt, env)
    {
      ok := true;
      if !skipTransition[stateMap[state].flag] {
        var list := stateMap[state].transitions;
        var k := 0;
        while k < |list|
          invariant 0 <= k <= |list| && Valid() && State() == old(State()) && ok
          invariant FirstMatch(list, evt, 0) == FirstMatch(list, evt, k)
        {
          if list[k].event == evt {
            if env.cond(state, k) {
              ok := SetState(list[k].next);
              if !ok {
                return false;
              }
            }
            break;
          }
          k := k + 1;
        }
      }
      skipTransition := skipTransition[stateMap[state].flag := false];
    }

    /** pdtsw_sm_skip_state_transition */
    method SkipStateTransition()
      requires Valid()
      modifies this`skipTransition
      ensures Valid() && State() == Skipped(chart, old(State()))
    {
      skipTransition := skipTransition[stateMap[currState].flag := true];
    }

    /** A state handler, as far as it touches the machine. */
    method RunHandler(acts: seq<Act>) returns (ok: bool)
      requires Valid()
      modifies this
      ensures Valid()
      ensures (if ok then Done(State()) else Hung) == Performed(chart, old(State()), acts)
    {
      hide Calls, Moved, Chart.Path;
      var k := 0;
      assert acts[0..] == acts;
      while k < |acts|
        invariant 0 <= k <= |acts| && Valid()
        invariant Performed(chart, old(State()), acts) == Performed(chart, State(), acts[k..])
      {
        assert acts[k..][1..] == acts[k + 1..];
        match acts[k] {
          case AskSkip =>
            SkipStateTransition();
          case GoTo(t) =>
            ok := SetState(t);
            if !ok {
              return false;
            }
        }
        k := k + 1;
      }
      return true;
    }

    /** The loop body of pdtsw_sm_handle_event for a state with a handler. */
    method HandleState(state: nat, evt: nat, env: Env) returns (ok: bool, handled: bool)
      requires Valid() && state < |stateMap|
      modifies this
      ensures Valid() && handled == env.reply(state).handled
      ensures (if ok then Done(State()) else Hung) == HandleAt(chart, old(State()), state, evt, env)
    {
      hide Calls, Transitioned, Performed, Chart.Path;
      CallsPlus(chart, log, Handle(state));
      calls := calls + [Handle(state)];
      log := log + [Handle(state)];
      handled := env.reply(state).handled;
      ok := RunHandler(env.reply(state).acts);
      if !ok {
        return false, handled;
      }
      ok := DoTransition(state, evt, env);
    }

    /** pdtsw_sm_handle_event */
    method HandleEvent(evt: nat, env: Env) returns (ok: bool)
      requires Valid()
      modifies this
      ensures Valid()
      ensures (if ok then Done(State()) else Hung) == HandleFrom(chart, old(State()), old(currState), evt, env)
    {
      hide Calls, HandleAt, Chart.Path;
      var state: nat := currState;
      var handled := false;
      ghost var whole := HandleFrom(chart, State(), state, evt, env);
      while state != ROOT && !handled
        invariant Valid() && state < |stateMap|
        invariant whole == if handled then Done(State()) else HandleFrom(chart, State(), state, evt, env)
        decreases chart.depth[state]
      {
        if stateMap[state].hasHandler {
          ok, handled := HandleState(state, evt, env);
          if !ok {
            return false;
          }
        }
        state := stateMap[state].parent;
      }
      return true;
    }
  }
}
