/**
 Message types and the types their structs embed, as nanopb_generator.py breaks cycles
 among them (ProtoFile.parse, check_recursive_dependencies) and orders them for the C
 header (sort_dependencies).
 */
module TypeGraph {
  import opened Wire

  /** A message and what get_dependencies returns for it. */
  datatype Message = Message(name: string, deps: seq<string>)

  /** A message of the input file: its dependencies as written, and once it is generated as a callback. */
  datatype Source = Source(name: string, deps: seq<string>, asCallback: seq<string>)

  function Names(ms: seq<Message>): (r: set<string>)
    ensures forall i :: 0 <= i < |ms| ==> ms[i].name in r
    ensures forall n :: n in r ==> exists i :: 0 <= i < |ms| && ms[i].name == n
  {
    set i | 0 <= i < |ms| :: ms[i].name
  }

  predicate Distinct(ms: seq<Message>)
  {
    forall i, j :: 0 <= i < j < |ms| ==> ms[i].name != ms[j].name
  }

  /** The message called a embeds the type called b. */
  ghost predicate Embeds(ms: seq<Message>, a: string, b: string)
  {
    exists i :: 0 <= i < |ms| && ms[i].name == a && b in ms[i].deps
  }

  ghost predicate Walk(ms: seq<Message>, p: seq<string>)
  {
    p != [] && forall i :: 0 <= i < |p| - 1 ==> Embeds(ms, p[i], p[i + 1])
  }

  ghost predicate Acyclic(ms: seq<Message>)
  {
    forall p :: Walk(ms, p) && |p| >= 2 ==> p[0] != p[|p| - 1]
  }

  /** The target is one of the types given, or embedded in one of them at any depth. */
  ghost predicate Reaches(ms: seq<Message>, deps: seq<string>, target: string)
  {
    exists p :: Walk(ms, p) && p[0] in deps && p[|p| - 1] == target
  }

  /* ---------------------------------------------------------------- walks */

  lemma WalkPart(ms: seq<Message>, p: seq<string>, i: nat, j: nat)
    requires Walk(ms, p) && i < j <= |p|
    ensures Walk(ms, p[i..j])
  {
    forall k | 0 <= k < j - i - 1 ensures Embeds(ms, p[i..j][k], p[i..j][k + 1]) {
      assert Embeds(ms, p[i + k], p[i + k + 1]);
    }
  }

  lemma WalkJoin(ms: seq<Message>, p: seq<string>, q: seq<string>)
    requires Walk(ms, p) && Walk(ms, q) && Embeds(ms, p[|p| - 1], q[0])
    ensures Walk(ms, p + q)
  {
  }

  lemma WalkMore(ms: seq<Message>, more: seq<Message>, p: seq<string>)
    requires Walk(ms, p) && forall m :: m in ms ==> m in more
    ensures Walk(more, p)
  {
    forall i | 0 <= i < |p| - 1 ensures Embeds(more, p[i], p[i + 1]) {
      assert Embeds(ms, p[i], p[i + 1]);
      var k :| 0 <= k < |ms| && ms[k].name == p[i] && p[i + 1] in ms[k].deps;
      assert ms[k] in more;
    }
  }

  ghost predicate NoRepeat(p: seq<string>)
  {
    forall i, j :: 0 <= i < j < |p| ==> p[i] != p[j]
  }

  lemma {:induction false} Pigeonhole(p: seq<string>, names: set<string>)
    requires NoRepeat(p) && forall i :: 0 <= i < |p| ==> p[i] in names
    ensures |p| <= |names|
  {
    if p == [] {
    } else {
      var last := p[|p| - 1];
      Pigeonhole(p[..|p| - 1], names - {last});
    }
  }

  /** In an acyclic graph a walk meets no type twice. */
  lemma AcyclicNoRepeat(ms: seq<Message>, p: seq<string>)
    requires Acyclic(ms) && Walk(ms, p)
    ensures NoRepeat(p)
  {
    hide Walk;
    forall i, j | 0 <= i < j < |p| ensures p[i] != p[j] {
      WalkPart(ms, p, i, j + 1);
      var q := p[i..j + 1];
      assert q[0] == p[i] && q[|q| - 1] == p[j];
    }
  }

  lemma {:induction false} NamesSize(ms: seq<Message>)
    ensures |Names(ms)| <= |ms|
  {
    if ms == [] {
      assert Names(ms) == {};
    } else {
      var rest := ms[..|ms| - 1];
      NamesSize(rest);
      assert Names(ms) == Names(rest) + {ms[|ms| - 1].name};
    }
  }

  lemma WalkShort(ms: seq<Message>, p: seq<string>)
    requires Acyclic(ms) && Walk(ms, p) && forall i :: 0 <= i < |p| ==> p[i] in Names(ms)
    ensures |p| <= |ms|
  {
    AcyclicNoRepeat(ms, p);
    Pigeonhole(p, Names(ms));
    NamesSize(ms);
  }

  /* ------------------------------------------------- adding one message */

  /** A closed walk through a new message comes back to it over the old ones. */
  lemma FirstReturn(ms: seq<Message>, m: Message, q: seq<string>)
    requires m.name !in Names(ms)
    requires Walk(ms + [m], q) && |q| >= 2 && q[0] == m.name && q[|q| - 1] == m.name
    ensures Reaches(ms, m.deps, m.name)
  {
    var j := 1;
    while q[j] != m.name
      invariant 1 <= j < |q| && forall i :: 1 <= i < j ==> q[i] != m.name
      decreases |q| - j
    {
      j := j + 1;
    }
    var p := q[1..j + 1];
    forall i | 0 <= i < |q| - 1
      ensures q[i] == m.name ==> q[i + 1] in m.deps
      ensures q[i] != m.name ==> Embeds(ms, q[i], q[i + 1])
    {
      assert Embeds(ms + [m], q[i], q[i + 1]);
      var k :| 0 <= k < |ms + [m]| && (ms + [m])[k].name == q[i] && q[i + 1] in (ms + [m])[k].deps;
      if k < |ms| { assert ms[k].name in Names(ms); }
    }
    assert Walk(ms, p) && p[0] in m.deps && p[|p| - 1] == m.name;
  }

  /** Turns a closed walk so that it begins at its k-th type. */
  lemma Rotate(ms: seq<Message>, q: seq<string>, k: nat) returns (r: seq<string>)
    requires Walk(ms, q) && |q| >= 2 && q[0] == q[|q| - 1] && k < |q| - 1
    ensures Walk(ms, r) && |r| >= 2 && r[0] == q[k] == r[|r| - 1]
  {
    WalkPart(ms, q, k, |q|);
    WalkPart(ms, q, 1, |q|);
    if k == 0 {
      r := q;
    } else {
      WalkPart(ms, q, 1, k + 1);
      assert Embeds(ms, q[0], q[1]);
      WalkJoin(ms, q[k..], q[1..k + 1]);
      r := q[k..] + q[1..k + 1];
    }
  }

  /** Appending a message to an acyclic graph keeps it acyclic exactly when the message does not reach itself. */
  lemma AppendAcyclicIff(ms: seq<Message>, m: Message)
    requires Acyclic(ms) && m.name !in Names(ms)
    ensures Acyclic(ms + [m]) <==> !Reaches(ms, m.deps, m.name)
  {
    var all := ms + [m];
    if Reaches(ms, m.deps, m.name) {
      var p :| Walk(ms, p) && p[0] in m.deps && p[|p| - 1] == m.name;
      WalkMore(ms, all, p);
      assert all[|ms|] == m;
      assert Embeds(all, m.name, p[0]);
      WalkJoin(all, [m.name], p);
      var q := [m.name] + p;
      assert q[0] == q[|q| - 1];
    }
    if !Acyclic(all) {
      var q :| Walk(all, q) && |q| >= 2 && q[0] == q[|q| - 1];
      if k :| 0 <= k < |q| - 1 && q[k] == m.name {
        var r := Rotate(all, q, k);
        FirstReturn(ms, m, r);
      } else {
        forall i | 0 <= i < |q| - 1 ensures Embeds(ms, q[i], q[i + 1]) {
          assert Embeds(all, q[i], q[i + 1]);
          var k :| 0 <= k < |all| && all[k].name == q[i] && q[i + 1] in all[k].deps;
          assert k < |ms| && ms[k] == all[k];
        }
        assert Walk(ms, q);
      }
    }
  }

  /* ------------------------------------------- check_recursive_dependencies */

  /** all_messages[name] */
  function Lookup(ms: seq<Message>, name: string): (r: Option<Message>)
    ensures r.Some? <==> name in Names(ms)
    ensures r.Some? ==> r.value in ms && r.value.name == name
  {
    if ms == [] then None
    else
      var last := ms[|ms| - 1];
      assert ms == ms[..|ms| - 1] + [last];
      if last.name == name then Some(last) else Lookup(ms[..|ms| - 1], name)
  }

  lemma OnlyOne(ms: seq<Message>, m: Message, b: string)
    requires Distinct(ms) && m in ms && Embeds(ms, m.name, b)
    ensures b in m.deps
  {
  }

  lemma ReachesDown(ms: seq<Message>, m: Message, target: string)
    requires m in ms && Reaches(ms, m.deps, target)
    ensures Reaches(ms, [m.name], target)
  {
    var p :| Walk(ms, p) && p[0] in m.deps && p[|p| - 1] == target;
    assert Embeds(ms, m.name, p[0]);
    hide Embeds;
    WalkJoin(ms, [m.name], p);
    assert ([m.name] + p)[|p|] == target;
  }

  lemma ReachesUp(ms: seq<Message>, dep: string, target: string)
    requires Distinct(ms) && Reaches(ms, [dep], target) && dep != target
    ensures Lookup(ms, dep).Some? && Reaches(ms, Lookup(ms, dep).value.deps, target)
  {
    hide Lookup;
    var p :| Walk(ms, p) && p[0] in [dep] && p[|p| - 1] == target;
    WalkPart(ms, p, 1, |p|);
    assert Embeds(ms, p[0], p[1]);
    OnlyOne(ms, Lookup(ms, dep).value, p[1]);
    assert p[1..][0] in Lookup(ms, dep).value.deps;
  }

  /** One level of the search. */
  lemma ReachesStep(ms: seq<Message>, dep: string, target: string)
    requires Distinct(ms)
    ensures Reaches(ms, [dep], target) <==>
            dep == target || (Lookup(ms, dep).Some? && Reaches(ms, Lookup(ms, dep).value.deps, target))
  {
    hide Lookup, Distinct;
    if dep == target {
      assert Walk(ms, [dep]);
    } else {
      hide Reaches;
      if Reaches(ms, [dep], target) { ReachesUp(ms, dep, target); }
      if Lookup(ms, dep).Some? && Reaches(ms, Lookup(ms, dep).value.deps, target) {
        ReachesDown(ms, Lookup(ms, dep).value, target);
      }
    }
  }

  lemma ReachesHead(ms: seq<Message>, deps: seq<string>, target: string)
    requires deps != []
    ensures Reaches(ms, deps, target) <==> Reaches(ms, [deps[0]], target) || Reaches(ms, deps[1..], target)
  {
    hide Walk;
    assert forall n :: n in deps <==> n == deps[0] || n in deps[1..];
  }

  /**
   The search without its loop: a message's dependencies from the first one on, with `limit`
   nested calls left. None is Python's RecursionError.
   */
  function Search(all: seq<Message>, deps: seq<string>, root: string, limit: nat): Option<bool>
    decreases limit, |deps|
  {
    if deps == [] then Some(false)
    else if deps[0] == root then Some(true)
    else
      match Lookup(all, deps[0])
      case None => Search(all, deps[1..], root, limit)
      case Some(m) =>
        if limit == 0 then None
        else
          match Search(all, m.deps, root, limit - 1)
          case None => None
          case Some(found) => if found then Some(true) else Search(all, deps[1..], root, limit)
  }

  /** check_recursive_dependencies; it keeps no record of what it has visited. */
  method CheckRecursiveDependencies(message: Message, all: seq<Message>, root: string, limit: nat)
    returns (found: Option<bool>)
    ensures found == Search(all, message.deps, root, limit)
    decreases limit
  {
    hide Search;
    assert message.deps[0..] == message.deps;
    for i := 0 to |message.deps|
      invariant Search(all, message.deps, root, limit) == Search(all, message.deps[i..], root, limit)
    {
      var dep := message.deps[i];
      SearchStep(all, message.deps, i, root, limit);
      if dep == root {
        return Some(true);
      }
      var next := Lookup(all, dep);
      if next.Some? {
        if limit == 0 {
          return None;
        }
        var deeper := CheckRecursiveDependencies(next.value, all, root, limit - 1);
        if deeper != Some(false) {
          return deeper;
        }
      }
    }
    SearchOver(all, message.deps, root, limit);
    return Some(false);
  }

  lemma SearchStep(all: seq<Message>, deps: seq<string>, i: nat, root: string, limit: nat)
    requires i < |deps|
    ensures var m := Lookup(all, deps[i]);
            Search(all, deps[i..], root, limit) ==
              if deps[i] == root then Some(true)
              else if m.Some? && limit == 0 then None
              else if m.Some? && Search(all, m.value.deps, root, limit - 1) != Some(false) then
                Search(all, m.value.deps, root, limit - 1)
              else Search(all, deps[i + 1..], root, limit)
  {
    hide Lookup;
    assert deps[i..][1..] == deps[i + 1..];
  }

  lemma SearchOver(all: seq<Message>, deps: seq<string>, root: string, limit: nat)
    ensures Search(all, deps[|deps|..], root, limit) == Some(false)
  {
  }

  /** Whenever the search answers, it answers whether the root is reached. */
  lemma {:induction false} SearchExact(all: seq<Message>, deps: seq<string>, root: string, limit: nat)
    requires Distinct(all) && Search(all, deps, root, limit).Some?
    ensures Search(all, deps, root, limit).value <==> Reaches(all, deps, root)
    decreases limit, |deps|
  {
    hide Lookup, Distinct, Reaches;
    if deps == [] {
      NothingReached(all, root);
    } else {
      ReachesHead(all, deps, root);
      ReachesStep(all, deps[0], root);
      if deps[0] != root {
        var next := Lookup(all, deps[0]);
        if next.Some? { SearchExact(all, next.value.deps, root, limit - 1); }
        if next.None? || Search(all, next.value.deps, root, limit - 1) == Some(false) {
          SearchExact(all, deps[1..], root, limit);
        }
      }
    }
  }

  /** A walk over messages that begins with one of the types given. */
  ghost predicate WalkFrom(all: seq<Message>, deps: seq<string>, p: seq<string>)
  {
    Walk(all, p) && p[0] in deps && forall i :: 0 <= i < |p| ==> p[i] in Names(all)
  }

  lemma {:induction false} GivenUp(all: seq<Message>, deps: seq<string>, root: string, limit: nat)
      returns (p: seq<string>)
    requires Search(all, deps, root, limit).None?
    ensures WalkFrom(all, deps, p) && |p| == limit + 1
    decreases limit, |deps|
  {
    var next := Lookup(all, deps[0]);
    if next.Some? && limit == 0 {
      p := [deps[0]];
    } else if next.Some? && Search(all, next.value.deps, root, limit - 1).None? {
      var q := GivenUp(all, next.value.deps, root, limit - 1);
      assert Embeds(all, deps[0], q[0]);
      hide Lookup, Embeds;
      WalkJoin(all, [deps[0]], q);
      p := [deps[0]] + q;
    } else {
      p := GivenUp(all, deps[1..], root, limit);
    }
  }

  lemma {:induction false} TooDeep(all: seq<Message>, deps: seq<string>, root: string, limit: nat, p: seq<string>)
    requires Distinct(all) && WalkFrom(all, deps, p) && |p| == limit + 1 && !Reaches(all, deps, root)
    ensures Search(all, deps, root, limit).None?
    decreases limit, |deps|
  {
    hide Lookup, Distinct, Reaches, Walk;
    ReachesHead(all, deps, root);
    ReachesStep(all, deps[0], root);
    var next := Lookup(all, deps[0]);
    if p[0] != deps[0] {
      if next.Some? && limit > 0 && Search(all, next.value.deps, root, limit - 1).Some? {
        SearchExact(all, next.value.deps, root, limit - 1);
      }
      TooDeep(all, deps[1..], root, limit, p);
    } else if limit > 0 {
      WalkPart(all, p, 1, |p|);
      FirstEmbeds(all, p);
      OnlyOne(all, next.value, p[1]);
      assert p[1..|p|] == p[1..];
      TooDeep(all, next.value.deps, root, limit - 1, p[1..]);
    }
  }

  lemma FirstEmbeds(ms: seq<Message>, p: seq<string>)
    requires Walk(ms, p) && |p| >= 2
    ensures Embeds(ms, p[0], p[1])
  {
  }

  /**
   A search for a root that is not there is cut off by the recursion limit exactly when there is
   a walk over more messages than the limit allows nested calls.
   */
  lemma CutOffIff(all: seq<Message>, deps: seq<string>, root: string, limit: nat)
    requires Distinct(all) && !Reaches(all, deps, root)
    ensures Search(all, deps, root, limit).None? <==> exists p :: WalkFrom(all, deps, p) && |p| == limit + 1
  {
    hide Search, Reaches, Distinct, WalkFrom;
    if Search(all, deps, root, limit).None? {
      var p := GivenUp(all, deps, root, limit);
    }
    if p :| WalkFrom(all, deps, p) && |p| == limit + 1 {
      TooDeep(all, deps, root, limit, p);
    }
  }

  /** Over an acyclic graph as many nested calls as there are messages are enough. */
  lemma AcyclicSearchEnds(all: seq<Message>, deps: seq<string>, root: string, limit: nat)
    requires Acyclic(all) && limit >= |all|
    ensures Search(all, deps, root, limit).Some?
  {
    hide Search, Acyclic;
    if Search(all, deps, root, limit).None? {
      var p := GivenUp(all, deps, root, limit);
      WalkShort(all, p);
    }
  }

  /** Walks once more round the cycle between the i-th and the j-th type, n times. */
  lemma {:induction false} RoundAgain(all: seq<Message>, p: seq<string>, i: nat, j: nat, n: nat)
      returns (q: seq<string>)
    requires Walk(all, p) && i < j < |p| && p[i] == p[j]
    requires forall k :: 0 <= k < |p| ==> p[k] in Names(all)
    ensures Walk(all, q) && q[0] == p[0] && q[|q| - 1] == p[j] && |q| > n
    ensures forall k :: 0 <= k < |q| ==> q[k] in Names(all)
  {
    hide Walk, Names;
    if n == 0 {
      WalkPart(all, p, 0, j + 1);
      q := p[0..j + 1];
    } else {
      var r := RoundAgain(all, p, i, j, n - 1);
      WalkPart(all, p, i, j + 1);
      FirstEmbeds(all, p[i..j + 1]);
      WalkPart(all, p, i + 1, j + 1);
      WalkJoin(all, r, p[i + 1..j + 1]);
      q := r + p[i + 1..j + 1];
    }
  }

  /**
   A search that leads into a cycle and not to its root is cut off at every recursion limit: without
   the limit it would not end.
   */
  lemma SearchNeverEnds(all: seq<Message>, deps: seq<string>, root: string, p: seq<string>, i: nat, j: nat)
    requires Distinct(all) && !Reaches(all, deps, root)
    requires Walk(all, p) && p[0] in deps && i < j < |p| && p[i] == p[j]
    requires forall k :: 0 <= k < |p| ==> p[k] in Names(all)
    ensures forall limit :: Search(all, deps, root, limit).None?
  {
    hide Search, Reaches, Distinct, Walk, Names;
    forall limit: nat ensures Search(all, deps, root, limit).None? {
      var q := RoundAgain(all, p, i, j, limit);
      WalkPart(all, q, 0, limit + 1);
      assert WalkFrom(all, deps, q[0..limit + 1]);
      CutOffIff(all, deps, root, limit);
    }
  }

  lemma NothingReached(ms: seq<Message>, target: string)
    ensures !Reaches(ms, [], target)
  {
  }

  /* ------------------------------------------------------------- the parse */

  /** The messages accepted after i sources: one that reaches itself over those before it is made a callback. */
  ghost function Accepted(ss: seq<Source>, i: nat): (ms: seq<Message>)
    requires i <= |ss|
    ensures |ms| == i && forall k :: 0 <= k < i ==> ms[k].name == ss[k].name
  {
    if i == 0 then []
    else
      var before, s := Accepted(ss, i - 1), ss[i - 1];
      before + [Message(s.name, if Reaches(before, s.deps, s.name) then s.asCallback else s.deps)]
  }

  predicate DistinctSources(ss: seq<Source>)
  {
    forall i, j :: 0 <= i < j < |ss| ==> ss[i].name != ss[j].name
  }

  /** Source k, if it has to be converted, no longer reaches itself once it is. */
  ghost predicate Breaks(ss: seq<Source>, k: nat)
    requires k < |ss|
  {
    var before, s := Accepted(ss, k), ss[k];
    Reaches(before, s.deps, s.name) ==> !Reaches(before, s.asCallback, s.name)
  }

  /** The next message keeps the graph acyclic exactly when its conversion, if any, breaks the cycle. */
  lemma AcceptKeepsAcyclicIff(ss: seq<Source>, k: nat)
    requires k < |ss| && DistinctSources(ss) && Acyclic(Accepted(ss, k))
    ensures Acyclic(Accepted(ss, k + 1)) <==> Breaks(ss, k)
  {
    hide Acyclic, Reaches;
    var ms := Accepted(ss, k);
    assert ss[k].name !in Names(ms);
    AppendAcyclicIff(ms, Accepted(ss, k + 1)[k]);
  }

  ghost predicate AcyclicThroughout(ss: seq<Source>, n: nat)
    requires n <= |ss|
  {
    forall i :: 0 <= i <= n ==> Acyclic(Accepted(ss, i))
  }

  ghost predicate AllBreak(ss: seq<Source>, n: nat)
    requires n <= |ss|
  {
    forall k :: 0 <= k < n ==> Breaks(ss, k)
  }

  /** The graph is acyclic at every step of the parse exactly when every conversion breaks its cycle. */
  lemma {:induction false} ParseAcyclicIff(ss: seq<Source>, n: nat)
    requires n <= |ss| && DistinctSources(ss)
    ensures AcyclicThroughout(ss, n) <==> AllBreak(ss, n)
  {
    hide Acyclic, Breaks, Accepted;
    if n == 0 {
      EmptyAcyclic();
      NoneAccepted(ss);
    } else {
      ParseAcyclicIff(ss, n - 1);
      assert AcyclicThroughout(ss, n) <==> AcyclicThroughout(ss, n - 1) && Acyclic(Accepted(ss, n));
      assert AllBreak(ss, n) <==> AllBreak(ss, n - 1) && Breaks(ss, n - 1);
      if AcyclicThroughout(ss, n - 1) { AcceptKeepsAcyclicIff(ss, n - 1); }
    }
  }

  lemma NoneAccepted(ss: seq<Source>)
    ensures Accepted(ss, 0) == []
  {
  }

  /** A conversion that removes all dependencies breaks the cycle. */
  lemma EmptyBreaks(ss: seq<Source>, k: nat)
    requires k < |ss| && ss[k].asCallback == []
    ensures Breaks(ss, k)
  {
    NothingReached(Accepted(ss, k), ss[k].name);
  }

  class ProtoFile {
    var messages: seq<Message>

    constructor ()
      ensures messages == []
    {
      messages := [];
    }

    /**
     The message loop of ProtoFile.parse with a recursion limit. It ends with the accepted messages,
     or at the first source whose check the limit cuts off; if every conversion breaks its cycle a
     limit of one nested call per message is enough.
     */
    method Parse(sources: seq<Source>, limit: nat) returns (ok: bool)
      requires DistinctSources(sources) && messages == []
      modifies this
      ensures |messages| <= |sources| && messages == Accepted(sources, |messages|) && Distinct(messages)
      ensures ok <==> |messages| == |sources|
      ensures !ok ==> var s := sources[|messages|]; Search(messages, s.deps, s.name, limit).None?
      ensures AllBreak(sources, |sources|) && limit >= |sources| ==> ok && Acyclic(messages)
    {
      hide Reaches, Acyclic, Breaks, Search;
      for i := 0 to |sources|
        invariant messages == Accepted(sources, i) && |messages| == i
      {
        assert Distinct(messages);
        var msgobject := Message(sources[i].name, sources[i].deps);
        var recursive := CheckRecursiveDependencies(msgobject, messages, msgobject.name, limit);
        if recursive.None? {
          if limit >= |sources| { CutOffMeansCycle(sources, i, limit); }
          return false;
        }
        SearchExact(messages, msgobject.deps, msgobject.name, limit);
        if recursive.value {
          msgobject := Message(sources[i].name, sources[i].asCallback);
        }
        messages := messages + [msgobject];
      }
      ParseAcyclicIff(sources, |sources|);
      return true;
    }
  }

  lemma CutOffMeansCycle(ss: seq<Source>, k: nat, limit: nat)
    requires k < |ss| <= limit && DistinctSources(ss)
    requires Search(Accepted(ss, k), ss[k].deps, ss[k].name, limit).None?
    ensures !AllBreak(ss, |ss|)
  {
    hide Search, Accepted, Breaks, Acyclic;
    ParseAcyclicIff(ss, |ss|);
    if AllBreak(ss, |ss|) { AcyclicSearchEnds(Accepted(ss, k), ss[k].deps, ss[k].name, limit); }
  }

  lemma EmptyAcyclic()
    ensures Acyclic([])
  {
    assert forall p :: Walk([], p) && |p| >= 2 ==> Embeds([], p[0], p[1]);
  }

  /** A converted message whose options keep a member of its own type leaves a cycle behind. */
  lemma LeftoverCycle(name: string)
    ensures Reaches([], [name], name) && !Acyclic([Message(name, [name])])
  {
    assert Walk([], [name]);
    EmptyAcyclic();
    AppendAcyclicIff([], Message(name, [name]));
    assert [] + [Message(name, [name])] == [Message(name, [name])];
  }

  /** On that cycle the check of the next message that embeds the first does not end. */
  lemma LeftoverNeverEnds(name: string, next: string)
    requires name != next
    ensures var ss := [Source(name, [name], [name]), Source(next, [name], [])];
            && !Breaks(ss, 0) && Accepted(ss, 1) == [Message(name, [name])]
            && forall limit :: Search(Accepted(ss, 1), ss[1].deps, next, limit).None?
  {
    var ss := [Source(name, [name], [name]), Source(next, [name], [])];
    var all := [Message(name, [name])];
    LeftoverCycle(name);
    assert Accepted(ss, 0) == [];
    assert Accepted(ss, 1) == all;
    forall p | Walk(all, p) && p[0] in [name] ensures p[|p| - 1] == name {
      if |p| >= 2 { assert Embeds(all, p[|p| - 2], p[|p| - 1]); }
    }
    var p := [name, name];
    assert all[0].name == name;
    assert Embeds(all, name, name);
    SearchNeverEnds(all, [name], next, p, 0, 1);
  }

  /* -------------------------------------------------------- sort_dependencies */

  /** Every embedded type that is among the messages comes earlier. */
  ghost predicate InOrder(out: seq<Message>, ms: seq<Message>)
  {
    forall i, n :: 0 <= i < |out| && n in out[i].deps && n in Names(ms) ==> n in Names(out[..i])
  }

  ghost predicate EachNeedsAnother(ms: seq<Message>)
  {
    forall m :: m in ms ==> exists n :: n in m.deps && n in Names(ms)
  }

  lemma NextNeeded(ms: seq<Message>, name: string) returns (d: string)
    requires EachNeedsAnother(ms) && name in Names(ms)
    ensures Embeds(ms, name, d) && d in Names(ms)
  {
    var m := Lookup(ms, name).value;
    d :| d in m.deps && d in Names(ms);
  }

  lemma {:induction false} LongWalk(ms: seq<Message>, n: nat) returns (p: seq<string>)
    requires ms != [] && EachNeedsAnother(ms) && n >= 1
    ensures |p| == n && Walk(ms, p) && forall i :: 0 <= i < |p| ==> p[i] in Names(ms)
  {
    hide EachNeedsAnother, Embeds;
    if n == 1 {
      p := [ms[0].name];
    } else {
      var q := LongWalk(ms, n - 1);
      var d := NextNeeded(ms, q[n - 2]);
      WalkJoin(ms, q, [d]);
      p := q + [d];
    }
  }

  /** If no remaining message is free of remaining dependencies, there is a cycle. */
  lemma StuckIsCyclic(ms: seq<Message>)
    requires ms != [] && EachNeedsAnother(ms)
    ensures !Acyclic(ms)
  {
    var p := LongWalk(ms, |ms| + 1);
    if Acyclic(ms) { WalkShort(ms, p); }
  }

  lemma SubgraphAcyclic(ms: seq<Message>, more: seq<Message>)
    requires Acyclic(more) && forall m :: m in ms ==> m in more
    ensures Acyclic(ms)
  {
    forall p | Walk(ms, p) && |p| >= 2 ensures p[0] != p[|p| - 1] {
      WalkMore(ms, more, p);
    }
  }

  /** Where a message stands in a list. */
  ghost function Position(ms: seq<Message>, name: string): (i: nat)
    requires name in Names(ms)
    ensures i < |ms| && ms[i].name == name
  {
    var i :| 0 <= i < |ms| && ms[i].name == name;
    i
  }

  lemma EmbeddedEarlier(out: seq<Message>, a: string, b: string)
    requires Distinct(out) && InOrder(out, out) && Embeds(out, a, b) && a in Names(out) && b in Names(out)
    ensures Position(out, b) < Position(out, a)
  {
    var i := Position(out, a);
    var k :| 0 <= k < |out| && out[k].name == a && b in out[k].deps;
    assert k == i;
    var j :| 0 <= j < |out[..i]| && out[..i][j].name == b;
    assert out[j].name == b && j == Position(out, b);
  }

  lemma {:induction false} OrderedWalk(out: seq<Message>, p: seq<string>, i: nat)
    requires Distinct(out) && InOrder(out, out) && Walk(out, p) && 1 <= i < |p|
    requires forall k :: 0 <= k < |p| ==> p[k] in Names(out)
    ensures Position(out, p[i]) < Position(out, p[0])
    decreases i
  {
    hide Distinct, InOrder, Embeds, Position;
    EmbeddedEarlier(out, p[i - 1], p[i]);
    if i == 1 {
    } else {
      OrderedWalk(out, p, i - 1);
    }
  }

  /** An ordering with every dependency first exists only for acyclic graphs. */
  lemma OrderedIsAcyclic(out: seq<Message>)
    requires Distinct(out) && InOrder(out, out)
    ensures Acyclic(out)
  {
    hide Distinct, InOrder, Embeds, Position;
    forall p | Walk(out, p) && |p| >= 2 ensures p[0] != p[|p| - 1] {
      WalkInside(out, p);
      if p[|p| - 1] == p[0] { OrderedWalk(out, p, |p| - 1); }
    }
  }

  lemma WalkInside(ms: seq<Message>, p: seq<string>)
    requires Walk(ms, p) && |p| >= 2
    ensures forall k :: 0 <= k < |p| - 1 ==> p[k] in Names(ms)
  {
    forall k | 0 <= k < |p| - 1 ensures p[k] in Names(ms) {
      assert Embeds(ms, p[k], p[k + 1]);
    }
  }

  lemma AcyclicSame(a: seq<Message>, b: seq<Message>)
    requires multiset(a) == multiset(b)
    ensures Acyclic(a) <==> Acyclic(b)
  {
    forall m ensures m in a <==> m in b {
      assert m in multiset(a) <==> m in multiset(b);
    }
    if Acyclic(a) { SubgraphAcyclic(b, a); }
    if Acyclic(b) { SubgraphAcyclic(a, b); }
  }

  lemma RestCyclic(out: seq<Message>, remaining: seq<Message>, messages: seq<Message>)
    requires multiset(out) + multiset(remaining) == multiset(messages) && !Acyclic(remaining)
    ensures !Acyclic(messages)
  {
    forall m | m in remaining ensures m in messages {
      assert m in multiset(messages);
    }
    if Acyclic(messages) { SubgraphAcyclic(remaining, messages); }
  }

  lemma NamesSplit(out: seq<Message>, remaining: seq<Message>, messages: seq<Message>)
    requires multiset(out) + multiset(remaining) == multiset(messages)
    ensures Names(messages) == Names(out) + Names(remaining)
  {
    forall n | n in Names(messages) ensures n in Names(out) || n in Names(remaining) {
      var i :| 0 <= i < |messages| && messages[i].name == n;
      assert messages[i] in multiset(messages);
    }
    forall n | n in Names(out) || n in Names(remaining) ensures n in Names(messages) {
      var m: Message :| (m in out || m in remaining) && m.name == n;
      assert m in multiset(messages);
      assert m in messages;
    }
  }

  lemma NextInOrder(out: seq<Message>, remaining: seq<Message>, messages: seq<Message>, k: nat)
    requires multiset(out) + multiset(remaining) == multiset(messages) && k < |remaining|
    requires forall n :: n in remaining[k].deps ==> n !in Names(remaining)
    requires InOrder(out, messages)
    ensures InOrder(out + [remaining[k]], messages)
  {
    NamesSplit(out, remaining, messages);
    var r := out + [remaining[k]];
    forall i, n | 0 <= i < |r| && n in r[i].deps && n in Names(messages) ensures n in Names(r[..i]) {
      assert r[..i] == out[..i];
      assert out[..|out|] == out;
    }
  }

  function Without(ms: seq<Message>, k: nat): (r: seq<Message>)
    requires k < |ms|
    ensures |r| == |ms| - 1 && forall i :: 0 <= i < |r| ==> r[i] == ms[if i < k then i else i + 1]
  {
    ms[..k] + ms[k + 1..]
  }

  lemma WithoutNames(ms: seq<Message>, k: nat)
    requires Distinct(ms) && k < |ms|
    ensures Distinct(Without(ms, k)) && Names(Without(ms, k)) == Names(ms) - {ms[k].name}
  {
    var rest := Without(ms, k);
    forall i | 0 <= i < |ms| && i != k ensures ms[i].name in Names(rest) {
      assert rest[if i < k then i else i - 1] == ms[i];
    }
  }

  lemma NamesPlus(ms: seq<Message>, m: Message)
    ensures Names(ms + [m]) == Names(ms) + {m.name}
  {
    assert (ms + [m])[|ms|] == m;
    forall i | 0 <= i < |ms| ensures ms[i].name in Names(ms + [m]) {
      assert (ms + [m])[i] == ms[i];
    }
  }

  /** Moving one message from the remaining ones to the output. */
  lemma TakeAway(out: seq<Message>, remaining: seq<Message>, k: nat)
    requires Distinct(out) && Distinct(remaining) && Names(out) !! Names(remaining) && k < |remaining|
    ensures var r, rest := out + [remaining[k]], Without(remaining, k);
            && multiset(r) + multiset(rest) == multiset(out) + multiset(remaining)
            && Names(rest) == Names(remaining) - {remaining[k].name}
            && Distinct(r) && Distinct(rest) && Names(r) !! Names(rest)
  {
    assert remaining == remaining[..k] + [remaining[k]] + remaining[k + 1..];
    WithoutNames(remaining, k);
    forall i | 0 <= i < |out| ensures out[i].name != remaining[k].name {
      assert out[i].name in Names(out);
    }
    NamesPlus(out, remaining[k]);
  }

  lemma SortedIsAcyclic(out: seq<Message>, messages: seq<Message>)
    requires multiset(out) == multiset(messages) && Distinct(out) && InOrder(out, messages)
    ensures Acyclic(messages)
  {
    NamesSplit(out, [], messages);
    OrderedIsAcyclic(out);
    AcyclicSame(out, messages);
  }

  /** None of what message k embeds is among the messages. */
  ghost predicate Free(ms: seq<Message>, k: nat)
    requires k < |ms|
  {
    forall n :: n in ms[k].deps ==> n !in Names(ms)
  }

  /** The messages that are not yet in the output, in their order. */
  function Remaining(ms: seq<Message>, out: seq<Message>): seq<Message>
  {
    if ms == [] then []
    else if ms[0] in out then Remaining(ms[1..], out)
    else [ms[0]] + Remaining(ms[1..], out)
  }

  /** The message that comes next: the first free one, or the first of all if none is. */
  ghost predicate Next(ms: seq<Message>, m: Message)
  {
    exists k :: 0 <= k < |ms| && ms[k] == m && (forall j :: 0 <= j < k ==> !Free(ms, j))
                && (Free(ms, k) || (k == 0 && EachNeedsAnother(ms)))
  }

  lemma {:induction false} RemainingSame(ms: seq<Message>, out: seq<Message>, m: Message)
    requires m !in ms
    ensures Remaining(ms, out + [m]) == Remaining(ms, out)
  {
    if ms == [] {
    } else {
      RemainingSame(ms[1..], out, m);
    }
  }

  lemma {:induction false} RemainingLess(ms: seq<Message>, out: seq<Message>, k: nat)
    requires Distinct(ms) && k < |Remaining(ms, out)|
    ensures Remaining(ms, out + [Remaining(ms, out)[k]]) == Without(Remaining(ms, out), k)
  {
    var rest := Remaining(ms, out);
    var m := rest[k];
    if ms[0] in out {
      RemainingLess(ms[1..], out, k);
    } else if k == 0 {
      RemainingSame(ms[1..], out, m);
      assert Without(rest, 0) == Remaining(ms[1..], out);
    } else {
      RemainingLess(ms[1..], out, k - 1);
      RemainingIn(ms[1..], out, k - 1);
      assert m != ms[0];
      assert Without(rest, k) == [ms[0]] + Without(Remaining(ms[1..], out), k - 1);
    }
  }

  lemma {:induction false} RemainingIn(ms: seq<Message>, out: seq<Message>, k: nat)
    requires k < |Remaining(ms, out)|
    ensures Remaining(ms, out)[k] in ms
  {
    if ms[0] in out {
      RemainingIn(ms[1..], out, k);
    } else if k > 0 {
      RemainingIn(ms[1..], out, k - 1);
    }
  }

  lemma {:induction false} AllRemaining(ms: seq<Message>)
    ensures Remaining(ms, []) == ms
  {
    if ms == [] {
    } else {
      AllRemaining(ms[1..]);
    }
  }

  /** One pass of the for loop: the first remaining message none of whose dependencies remain. */
  method Candidate(remaining: seq<Message>, remainset: set<string>) returns (k: nat)
    requires remainset == Names(remaining)
    ensures k <= |remaining|
    ensures k < |remaining| ==> forall n :: n in remaining[k].deps ==> n !in remainset
    ensures k == |remaining| ==> EachNeedsAnother(remaining)
    ensures forall j :: 0 <= j < k ==> !Free(remaining, j)
  {
    k := 0;
    while k < |remaining|
      invariant k <= |remaining|
      invariant forall j :: 0 <= j < k ==> !Free(remaining, j)
    {
      if forall n :: n in remaining[k].deps ==> n !in remainset {
        return k;
      }
      k := k + 1;
    }
    NoneFree(remaining);
  }

  lemma NoneFree(ms: seq<Message>)
    requires forall j :: 0 <= j < |ms| ==> !Free(ms, j)
    ensures EachNeedsAnother(ms)
  {
    forall m | m in ms ensures exists n :: n in m.deps && n in Names(ms) {
      var j :| 0 <= j < |ms| && ms[j] == m;
      assert !Free(ms, j);
    }
  }

  lemma IsNext(ms: seq<Message>, k: nat)
    requires k < |ms| && forall j :: 0 <= j < k ==> !Free(ms, j)
    requires (forall n :: n in ms[k].deps ==> n !in Names(ms)) || (k == 0 && EachNeedsAnother(ms))
    ensures Next(ms, ms[k])
  {
  }

  lemma NextToo(ms: seq<Message>, out: seq<Message>, m: Message)
    requires forall i :: 0 <= i < |out| ==> Next(Remaining(ms, out[..i]), out[i])
    requires Next(Remaining(ms, out), m)
    ensures var r := out + [m]; forall i :: 0 <= i < |r| ==> Next(Remaining(ms, r[..i]), r[i])
  {
    hide Next, Remaining;
    var r := out + [m];
    assert r[..|out|] == out;
    forall i | 0 <= i < |out| ensures Next(Remaining(ms, r[..i]), r[i]) {
      assert r[..i] == out[..i];
    }
  }

  /**
   sort_dependencies: every message once, after all it embeds; the fallback, which gives
   up on the order, is taken exactly when there is a cycle.
   */
  method SortDependencies(messages: seq<Message>) returns (out: seq<Message>, circular: bool)
    requires Distinct(messages)
    ensures multiset(out) == multiset(messages)
    ensures circular <==> !Acyclic(messages)
    ensures !circular ==> InOrder(out, messages)
    ensures forall i :: 0 <= i < |out| ==> Next(Remaining(messages, out[..i]), out[i])
  {
    out, circular := [], false;
    assert Distinct(out) && InOrder(out, messages);
    AllRemaining(messages);
    hide Acyclic, EachNeedsAnother, Distinct, InOrder, Remaining, Next;
    var remaining := messages;
    var remainset := Names(messages);
    while remaining != []
      invariant remainset == Names(remaining)
      invariant Distinct(out) && Distinct(remaining) && Names(out) !! Names(remaining)
      invariant multiset(out) + multiset(remaining) == multiset(messages)
      invariant circular ==> !Acyclic(messages)
      invariant !circular ==> InOrder(out, messages)
      invariant remaining == Remaining(messages, out)
      invariant forall i :: 0 <= i < |out| ==> Next(Remaining(messages, out[..i]), out[i])
      decreases |remaining|
    {
      var k := Candidate(remaining, remainset);
      if k == |remaining| {
        StuckIsCyclic(remaining);
        RestCyclic(out, remaining, messages);
        circular := true;
        k := 0;
      } else if !circular {
        NextInOrder(out, remaining, messages, k);
      }
      IsNext(remaining, k);
      RemainingLess(messages, out, k);
      NextToo(messages, out, remaining[k]);
      TakeAway(out, remaining, k);
      out := out + [remaining[k]];
      remainset := remainset - {remaining[k].name};
      remaining := Without(remaining, k);
    }
    if !circular { SortedIsAcyclic(out, messages); }
  }
}
