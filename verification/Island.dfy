/**
 The island-exit wait protocol of pdtsw_platform.c as interleaved steps: any number of
 clients in pdtsw_island_vote_island_exit, one island-change callback, a spinlock, the
 counter of waiting clients and the counting semaphore.
 */
module Island {
  import opened Wire

  /** K_SEM_MAX_LIMIT */
  const SEM_LIMIT: nat := 0xFFFF_FFFF

  /**
   Where a client is: it has voted, holds the lock, has read the mode, has counted itself,
   has let go of the lock and needs a token, or has returned.
   */
  datatype Client = Idle | Voted | Locked | Seen(nonIsland: bool) | Counted | Parked | Returned

  /** Where the callback is; `i` is the variable of its give loop. */
  datatype Callback = Ready | WantsLock | Giving(i: nat) | Cleared

  datatype Lock = Free | ByClient(k: nat) | ByCallback

  /**
   `announced` holds the statuses of callbacks that have been posted and not begun; `due` is
   the number of callbacks posted less the number of mode changes, of either sign.
   */
  datatype State = State(
    clients: seq<Client>, callback: Callback, lock: Lock,
    waiting: nat, sem: nat, nonIsland: bool, announced: seq<bool>, due: int)

  /**
   Flip: the mode the clients read changes. Post: the next callback is posted. The k-th
   callback reports the mode after the k-th change, and may be posted before it or after it.
   */
  datatype Label = ClientStep(k: nat) | CallbackStep | Flip | Post

  /* ---------------------------------------------------------------- steps */

  function Give(sem: nat): nat
  {
    if sem < SEM_LIMIT then sem + 1 else sem
  }

  /** Client k's next step, if it is not blocked. */
  function StepClient(s: State, k: nat): Option<State>
  {
    if k >= |s.clients| then None
    else
      match s.clients[k]
      case Idle => Some(s.(clients := s.clients[k := Voted]))
      case Voted =>
        if s.lock != Free then None else Some(s.(clients := s.clients[k := Locked], lock := ByClient(k)))
      case Locked => Some(s.(clients := s.clients[k := Seen(s.nonIsland)]))
      case Seen(nonIsland) =>
        if nonIsland then Some(s.(clients := s.clients[k := Returned], lock := Free))
        else Some(s.(clients := s.clients[k := Counted], waiting := s.waiting + 1))
      case Counted => Some(s.(clients := s.clients[k := Parked], lock := Free))
      case Parked =>
        if s.sem == 0 then None else Some(s.(clients := s.clients[k := Returned], sem := s.sem - 1))
      case Returned => Some(s.(clients := s.clients[k := Idle]))
  }

  /** The next step of pdtsw_island_change_cb. */
  function StepCallback(s: State): Option<State>
  {
    match s.callback
    case Ready =>
      if s.announced == [] then None
      else Some(s.(callback := if s.announced[0] then WantsLock else Ready, announced := s.announced[1..]))
    case WantsLock =>
      if s.lock != Free then None else Some(s.(callback := Giving(0), lock := ByCallback))
    case Giving(i) =>
      if i < s.waiting then Some(s.(callback := Giving(i + 1), sem := Give(s.sem)))
      else Some(s.(callback := Cleared, waiting := 0))
    case Cleared => Some(s.(callback := Ready, lock := Free))
  }

  predicate Even(n: int) { n % 2 == 0 }

  /** The mode after as many changes as callbacks posted, and one more. */
  function NextStatus(s: State): bool
  {
    s.nonIsland != Even(s.due)
  }

  function Step(s: State, l: Label): Option<State>
  {
    match l
    case ClientStep(k) => StepClient(s, k)
    case CallbackStep => StepCallback(s)
    case Flip => Some(s.(nonIsland := !s.nonIsland, due := s.due - 1))
    case Post => Some(s.(announced := s.announced + [NextStatus(s)], due := s.due + 1))
  }

  function Run(s: State, labels: seq<Label>): Option<State>
    decreases |labels|
  {
    if labels == [] then Some(s)
    else
      match Step(s, labels[0])
      case None => None
      case Some(s1) => Run(s1, labels[1..])
  }

  /** pdtsw_platform_init: nobody waits, in either mode. */
  function Init(n: nat, nonIsland: bool): State
  {
    State(seq(n, _ => Idle), Ready, Free, 0, 0, nonIsland, [], 0)
  }

  /* ------------------------------------------------------------- counting */

  /** Clients that have counted themselves and taken no token. */
  function Owed(clients: seq<Client>): (n: nat)
    ensures n <= |clients|
  {
    if clients == [] then 0
    else Owed(clients[..|clients| - 1]) + (if clients[|clients| - 1] in {Counted, Parked} then 1 else 0)
  }

  function ParkedCount(clients: seq<Client>): (n: nat)
    ensures n <= |clients|
  {
    if clients == [] then 0
    else ParkedCount(clients[..|clients| - 1]) + (if clients[|clients| - 1] == Parked then 1 else 0)
  }

  lemma {:induction false} OwedPut(clients: seq<Client>, k: nat, c: Client)
    requires k < |clients|
    ensures Owed(clients[k := c]) == Owed(clients)
              - (if clients[k] in {Counted, Parked} then 1 else 0) + (if c in {Counted, Parked} then 1 else 0)
  {
    var n := |clients| - 1;
    if k < n {
      assert clients[k := c][..n] == clients[..n][k := c];
      OwedPut(clients[..n], k, c);
    } else {
      assert clients[k := c][..n] == clients[..n];
    }
  }

  lemma {:induction false} OwedParked(clients: seq<Client>)
    requires forall k :: 0 <= k < |clients| ==> clients[k] != Counted
    ensures Owed(clients) == ParkedCount(clients)
  {
    if clients == [] {
    } else {
      OwedParked(clients[..|clients| - 1]);
    }
  }

  lemma {:induction false} NothingOwed(n: nat)
    ensures Owed(seq(n, _ => Idle)) == 0
  {
    if n == 0 {
    } else {
      assert seq(n, _ => Idle)[..n - 1] == seq(n - 1, _ => Idle);
      NothingOwed(n - 1);
    }
  }

  /* ------------------------------------------------------------ invariants */

  predicate InSection(c: Client) { c in {Locked, Seen(false), Seen(true), Counted} }

  function Given(cb: Callback): nat
  {
    if cb.Giving? then cb.i else 0
  }

  /** Every callback reports the mode after the change of its own number; one that goes on reports non-island. */
  ghost predicate StatusesRight(s: State)
  {
    && (forall i :: 0 <= i < |s.announced| ==>
          s.announced[i] == (s.nonIsland == Even(s.due - |s.announced| + 1 + i)))
    && (s.callback in {Ready, Cleared} || s.nonIsland == Even(s.due - |s.announced|))
  }

  /** The lock excludes, and tokens are conserved. */
  ghost predicate Conserved(s: State)
  {
    && |s.clients| < SEM_LIMIT
    && (forall k :: 0 <= k < |s.clients| ==> (InSection(s.clients[k]) <==> s.lock == ByClient(k)))
    && (s.lock.ByClient? ==> s.lock.k < |s.clients|)
    && (s.callback in {Ready, WantsLock} <==> s.lock != ByCallback)
    && Given(s.callback) <= s.waiting && (s.callback == Cleared ==> s.waiting == 0)
    && Owed(s.clients) + Given(s.callback) == s.waiting + s.sem
  }

  ghost predicate Inv(s: State)
  {
    Conserved(s) && StatusesRight(s)
  }

  lemma StatusesKept(s: State, l: Label)
    requires StatusesRight(s) && Step(s, l).Some?
    ensures StatusesRight(Step(s, l).value)
  {
    hide Even, StepClient;
    var r := Step(s, l).value;
    match l
    case ClientStep(k) => ClientChangesNoStatus(s, k);
    case CallbackStep =>
    case Flip =>
      EvenNext(r.due - |r.announced|);
      forall i | 0 <= i < |r.announced|
        ensures r.announced[i] == (r.nonIsland == Even(r.due - |r.announced| + 1 + i))
      {
        EvenNext(r.due - |r.announced| + 1 + i);
      }
    case Post =>
      EvenNext(s.due);
  }

  lemma EvenNext(n: int)
    ensures Even(n + 1) == !Even(n)
  {
  }

  lemma ClientChangesNoStatus(s: State, k: nat)
    requires StepClient(s, k).Some?
    ensures var r := StepClient(s, k).value;
            && r.callback == s.callback && r.nonIsland == s.nonIsland
            && r.announced == s.announced && r.due == s.due
  {
  }

  lemma ClientKeepsConserved(s: State, k: nat)
    requires Conserved(s) && StepClient(s, k).Some?
    ensures Conserved(StepClient(s, k).value)
  {
    hide Owed;
    var r := StepClient(s, k).value;
    OwedPut(s.clients, k, r.clients[k]);
    assert InSection(s.clients[k]) <==> s.lock == ByClient(k);
    assert forall j :: 0 <= j < |s.clients| && j != k ==> r.clients[j] == s.clients[j];
  }

  lemma CallbackKeepsConserved(s: State)
    requires Conserved(s) && StepCallback(s).Some?
    ensures Conserved(StepCallback(s).value)
  {
    hide Owed;
  }

  lemma ChangeKeepsConserved(s: State, l: Label)
    requires Conserved(s) && l in {Flip, Post}
    ensures Conserved(Step(s, l).value)
  {
    hide Owed, StepClient, StepCallback;
  }

  lemma StepKeepsInv(s: State, l: Label)
    requires Inv(s) && Step(s, l).Some?
    ensures Inv(Step(s, l).value)
  {
    hide Conserved, StatusesRight, StepClient, StepCallback;
    StatusesKept(s, l);
    match l
    case ClientStep(k) => ClientKeepsConserved(s, k);
    case CallbackStep => CallbackKeepsConserved(s);
    case Flip => ChangeKeepsConserved(s, l);
    case Post => ChangeKeepsConserved(s, l);
  }

  lemma {:induction false} RunKeepsInv(s: State, labels: seq<Label>)
    requires Inv(s) && Run(s, labels).Some?
    ensures Inv(Run(s, labels).value)
    decreases |labels|
  {
    if labels == [] {
    } else {
      StepKeepsInv(s, labels[0]);
      RunKeepsInv(Step(s, labels[0]).value, labels[1..]);
    }
  }

  lemma InitInv(n: nat, nonIsland: bool)
    requires n < SEM_LIMIT
    ensures Inv(Init(n, nonIsland))
  {
    NothingOwed(n);
  }

  lemma ParkedWhenFree(s: State)
    requires Inv(s) && s.lock == Free
    ensures ParkedCount(s.clients) == s.waiting + s.sem
  {
    OwedParked(s.clients);
  }

  /**
   Over every run, whatever the order of changes and callbacks: outside the locked sections
   the parked clients are exactly those counted as waiting plus the tokens in the semaphore.
   */
  lemma ParkedConserved(n: nat, nonIsland: bool, labels: seq<Label>)
    requires n < SEM_LIMIT && Run(Init(n, nonIsland), labels).Some?
    ensures var s := Run(Init(n, nonIsland), labels).value;
            s.lock == Free ==> ParkedCount(s.clients) == s.waiting + s.sem
  {
    InitInv(n, nonIsland);
    RunKeepsInv(Init(n, nonIsland), labels);
    var s := Run(Init(n, nonIsland), labels).value;
    if s.lock == Free { ParkedWhenFree(s); }
  }

  /* ----------------------------------------------------- stranded waiters */

  /** How many callbacks are over, less the number of mode changes. */
  function Lead(s: State): int
  {
    s.due - |s.announced| - (if s.callback.WantsLock? || s.callback.Giving? then 1 else 0)
  }

  /** The mode is non-island, the callback that reports it is over, and yet a parked client has no token. */
  predicate Strands(s: State)
  {
    s.nonIsland && Lead(s) >= 0 && s.lock == Free && s.sem < ParkedCount(s.clients)
  }

  /** The callback enters its locked section before the change it reports has happened. */
  predicate Premature(s: State, l: Label)
  {
    l == CallbackStep && s.callback == WantsLock && s.lock == Free && s.due > |s.announced|
  }

  /** A run in which no callback does. */
  predicate Timely(s: State, labels: seq<Label>)
    requires Run(s, labels).Some?
    decreases |labels|
  {
    labels == [] || (!Premature(s, labels[0]) && Timely(Step(s, labels[0]).value, labels[1..]))
  }

  ghost predicate CanStrand(s: State)
  {
    exists more :: Run(s, more).Some? && Timely(s, more) && Strands(Run(s, more).value)
  }

  /** A client that waits, or is about to although the mode may have changed. */
  ghost predicate Unserved(s: State)
  {
    s.waiting > 0 || exists k :: 0 <= k < |s.clients| && s.clients[k] == Seen(false)
  }

  /**
   What keeps clients from being stranded: no callback is ahead of its change but one that
   reports island mode, and in non-island mode an unserved client has a callback to come.
   */
  ghost predicate Safe(s: State)
  {
    && Lead(s) <= (if s.nonIsland then 1 else 0)
    && (s.callback.Giving? ==> Lead(s) < 0)
    && (s.nonIsland && Unserved(s) ==> Lead(s) < 0)
  }

  lemma StepKeepsSafe(s: State, l: Label)
    requires Inv(s) && Safe(s) && Step(s, l).Some? && !Premature(s, l)
    ensures Safe(Step(s, l).value)
  {
    hide Owed;
    var r := Step(s, l).value;
    match l {
      case Flip => assert Unserved(r) ==> Unserved(s);
      case Post => assert Unserved(r) ==> Unserved(s);
      case CallbackStep =>
        assert s.callback.Giving? ==> forall k :: 0 <= k < |s.clients| ==> !InSection(s.clients[k]);
        assert Unserved(r) ==> Unserved(s);
      case ClientStep(k) =>
        assert r.nonIsland && Unserved(r) ==> Unserved(s) by {
          if r.nonIsland && Unserved(r) && r.waiting == 0 {
            var j :| 0 <= j < |r.clients| && r.clients[j] == Seen(false);
            assert s.clients[j] == Seen(false);
          } else if r.waiting > 0 && s.waiting == 0 {
            assert s.clients[k] == Seen(false);
          }
        }
    }
  }

  lemma {:induction false} RunKeepsSafe(s: State, labels: seq<Label>)
    requires Inv(s) && Safe(s) && Run(s, labels).Some? && Timely(s, labels)
    ensures Inv(Run(s, labels).value) && Safe(Run(s, labels).value)
    decreases |labels|
  {
    hide Inv, Safe, Premature, Step;
    if labels == [] {
    } else {
      StepKeepsInv(s, labels[0]);
      StepKeepsSafe(s, labels[0]);
      RunKeepsSafe(Step(s, labels[0]).value, labels[1..]);
    }
  }

  lemma SafeStrandsNobody(s: State)
    requires Inv(s) && Safe(s)
    ensures !Strands(s)
  {
    if s.lock == Free { ParkedWhenFree(s); }
  }

  lemma PrematureIsUnsafe(s: State, l: Label)
    requires Premature(s, l)
    ensures Step(s, l).Some? && !Safe(Step(s, l).value)
  {
  }

  /* --------------------------------------- from an unsafe state to a stranding */

  lemma CanStrandBefore(s: State, l: Label)
    requires Step(s, l).Some? && !Premature(s, l) && CanStrand(Step(s, l).value)
    ensures CanStrand(s)
  {
    hide Step, Premature, Strands;
    var s1 := Step(s, l).value;
    var more :| Run(s1, more).Some? && Timely(s1, more) && Strands(Run(s1, more).value);
    assert ([l] + more)[1..] == more;
    assert Timely(s, [l] + more);
  }

  lemma StrandsNow(s: State)
    requires Strands(s)
    ensures CanStrand(s)
  {
    assert Timely(s, []);
  }

  function CallbackRank(s: State): nat
    requires Given(s.callback) <= s.waiting
  {
    match s.callback
    case Giving(i) => 2 + s.waiting - i
    case Cleared => 1
    case _ => 0
  }

  function SectionRank(c: Client): nat
  {
    match c
    case Locked => 3
    case Seen(_) => 2
    case Counted => 1
    case _ => 0
  }

  /** How far client 0 is from being counted. */
  function ClientRank(c: Client): nat
  {
    match c
    case Counted => 8
    case Seen(nonIsland) => if nonIsland then 7 else 1
    case Parked => 6
    case Returned => 5
    case Idle => 4
    case Voted => 3
    case Locked => 2
  }

  function HolderRank(s: State): nat
  {
    if s.lock.ByClient? && s.lock.k < |s.clients| then SectionRank(s.clients[s.lock.k]) else 0
  }

  function StepsLeft(s: State): nat
    requires s.clients != []
  {
    if s.waiting > 0 || s.nonIsland then HolderRank(s)
    else ClientRank(s.clients[0]) + (if s.lock == ByClient(0) then 0 else HolderRank(s))
  }

  function Bit(b: bool): nat { if b then 1 else 0 }

  ghost predicate Unsafe(s: State)
  {
    Inv(s) && !Safe(s) && s.clients != []
  }

  /** The step from s to r leads nearer to a state that strands somebody. */
  ghost predicate Nearer(s: State, r: State)
    requires Unsafe(s) && Unsafe(r)
  {
    if s.nonIsland != r.nonIsland then s.nonIsland
    else if CallbackRank(s) != CallbackRank(r) then CallbackRank(r) < CallbackRank(s)
    else if (s.waiting == 0) != (r.waiting == 0) then s.waiting == 0
    else StepsLeft(r) < StepsLeft(s)
  }

  lemma HolderGoesOn(s: State) returns (r: State)
    requires Unsafe(s) && s.lock.ByClient?
    ensures Step(s, ClientStep(s.lock.k)) == Some(r) && !Premature(s, ClientStep(s.lock.k)) && Unsafe(r) && Nearer(s, r)
  {
    var k := s.lock.k;
    r := Step(s, ClientStep(k)).value;
    StepKeepsInv(s, ClientStep(k));
    if Unserved(s) && s.waiting == 0 {
      var j :| 0 <= j < |s.clients| && s.clients[j] == Seen(false);
      assert j == k;
    }
    assert Unserved(s) ==> Unserved(r);
  }

  lemma CallbackGoesOn(s: State) returns (r: State)
    requires Unsafe(s) && s.lock == ByCallback
    ensures Step(s, CallbackStep) == Some(r) && !Premature(s, CallbackStep) && Unsafe(r) && Nearer(s, r)
  {
    r := Step(s, CallbackStep).value;
    StepKeepsInv(s, CallbackStep);
    assert forall k :: 0 <= k < |s.clients| ==> !InSection(s.clients[k]);
  }

  lemma FreeGoesOn(s: State) returns (l: Label, r: State)
    requires Unsafe(s) && s.lock == Free && !Strands(s)
    ensures Step(s, l) == Some(r) && !Premature(s, l) && (Strands(r) || (Unsafe(r) && Nearer(s, r)))
  {
    ParkedWhenFree(s);
    assert !Unserved(s) || s.waiting > 0;
    if s.nonIsland || s.waiting > 0 {
      l := Flip;
      r := Step(s, l).value;
    } else {
      l := ClientStep(0);
      if s.clients[0] == Parked { SomebodyParked(s.clients, 0); }
      r := Step(s, l).value;
    }
    StepKeepsInv(s, l);
  }

  lemma {:induction false} UnsafeCanStrand(s: State)
    requires Unsafe(s)
    ensures CanStrand(s)
    decreases s.nonIsland, CallbackRank(s), s.waiting == 0, StepsLeft(s)
  {
    hide Unsafe, Strands, Step, Premature, CanStrand;
    if Strands(s) {
      StrandsNow(s);
    } else if s.lock == Free {
      var l, r := FreeGoesOn(s);
      if Strands(r) { StrandsNow(r); } else { UnsafeCanStrand(r); }
      CanStrandBefore(s, l);
    } else if s.lock == ByCallback {
      var r := CallbackGoesOn(s);
      UnsafeCanStrand(r);
      CanStrandBefore(s, CallbackStep);
    } else {
      var r := HolderGoesOn(s);
      UnsafeCanStrand(r);
      CanStrandBefore(s, ClientStep(s.lock.k));
    }
  }

  /** A state can go on to strand a client, without a further premature step, exactly when it is not safe. */
  lemma CanStrandIff(s: State)
    requires Inv(s) && s.clients != []
    ensures CanStrand(s) <==> !Safe(s)
  {
    hide Inv, Safe, Strands;
    if Safe(s) {
      forall more | Run(s, more).Some? && Timely(s, more) ensures !Strands(Run(s, more).value) {
        RunKeepsSafe(s, more);
        SafeStrandsNobody(Run(s, more).value);
      }
    } else {
      UnsafeCanStrand(s);
    }
  }

  /* ---------------------------------------------------------------- per run */

  lemma {:induction false} RunSplits(s: State, labels: seq<Label>, i: nat)
    requires i <= |labels| && Run(s, labels).Some?
    ensures Run(s, labels[..i]).Some?
    ensures Timely(s, labels) ==> Timely(s, labels[..i])
    decreases |labels|
  {
    hide Step, Premature;
    if i == 0 {
    } else {
      assert labels[..i][1..] == labels[1..][..i - 1];
      RunSplits(Step(s, labels[0]).value, labels[1..], i - 1);
    }
  }

  /** The state after i steps. */
  function After(s: State, labels: seq<Label>, i: nat): State
    requires i <= |labels| && Run(s, labels).Some?
  {
    RunSplits(s, labels, i);
    Run(s, labels[..i]).value
  }

  lemma {:induction false} PrematureSomewhere(s: State, labels: seq<Label>) returns (i: nat)
    requires Run(s, labels).Some? && !Timely(s, labels)
    ensures 1 <= i <= |labels| && !Safe(After(s, labels, i))
    decreases |labels|
  {
    hide Step, Premature, Safe;
    if Premature(s, labels[0]) {
      i := 1;
      PrematureIsUnsafe(s, labels[0]);
      assert labels[..1] == [labels[0]];
      assert labels[..1][1..] == [];
      assert Run(s, labels[..1]) == Step(s, labels[0]);
    } else {
      var j := PrematureSomewhere(Step(s, labels[0]).value, labels[1..]);
      i := j + 1;
      assert labels[..i][1..] == labels[1..][..j];
    }
  }

  /**
   A run has no premature step exactly when from no state on its way a client can be
   stranded without a further premature step.
   */
  lemma TimelyIff(n: nat, nonIsland: bool, labels: seq<Label>)
    requires 1 <= n < SEM_LIMIT && Run(Init(n, nonIsland), labels).Some?
    ensures var s := Init(n, nonIsland);
            Timely(s, labels) <==> forall i :: 0 <= i <= |labels| ==> !CanStrand(After(s, labels, i))
  {
    hide Inv, Safe, CanStrand, Timely, Run;
    var s := Init(n, nonIsland);
    InitInv(n, nonIsland);
    InitSafe(n, nonIsland);
    forall i | 0 <= i <= |labels|
      ensures Timely(s, labels) ==> !CanStrand(After(s, labels, i))
      ensures CanStrand(After(s, labels, i)) <==> !Safe(After(s, labels, i))
    {
      RunSplits(s, labels, i);
      RunKeepsInv(s, labels[..i]);
      RunKeepsClients(s, labels[..i]);
      CanStrandIff(After(s, labels, i));
      if Timely(s, labels) { RunKeepsSafe(s, labels[..i]); }
    }
    if !Timely(s, labels) {
      var i := PrematureSomewhere(s, labels);
    }
  }

  lemma InitSafe(n: nat, nonIsland: bool)
    ensures Safe(Init(n, nonIsland))
  {
  }

  lemma {:induction false} RunKeepsClients(s: State, labels: seq<Label>)
    requires Run(s, labels).Some?
    ensures |Run(s, labels).value.clients| == |s.clients|
    decreases |labels|
  {
    if labels == [] {
    } else {
      RunKeepsClients(Step(s, labels[0]).value, labels[1..]);
    }
  }

  /** A run that strands a client: the callback is over before the mode it reports is visible. */
  function StrandingRun(): seq<Label>
  {
    [Post, CallbackStep, CallbackStep, CallbackStep, CallbackStep,
     ClientStep(0), ClientStep(0), ClientStep(0), ClientStep(0), ClientStep(0), Flip]
  }

  /** The callback comes and goes without effect, as nobody waits yet. */
  lemma CallbackTooSoon(n: nat)
    ensures Run(Init(n, false), StrandingRun()) == Run(Init(n, false).(due := 1), StrandingRun()[5..])
  {
    hide Run;
    var run, s0 := StrandingRun(), Init(n, false);
    assert run[0..] == run;
    var s1 := RunAt(s0, run, 0);
    var s2 := RunAt(s1, run, 1);
    var s3 := RunAt(s2, run, 2);
    var s4 := RunAt(s3, run, 3);
    var s5 := RunAt(s4, run, 4);
    assert s5 == s0.(due := 1);
  }

  lemma Stranded(n: nat) returns (s: State)
    requires 1 <= n < SEM_LIMIT
    ensures Run(Init(n, false), StrandingRun()) == Some(s)
    ensures Strands(s) && s.due == 0 && s.announced == [] && s.callback == Ready
    ensures |s.clients| == n && s.clients[0] == Parked && s.waiting == 1 && s.sem == 0
  {
    hide Run, StepCallback, ParkedCount;
    CallbackTooSoon(n);
    var run := StrandingRun();
    s := RunAt(Init(n, false).(due := 1), run, 5);
    s := RunAt(s, run, 6);
    s := RunAt(s, run, 7);
    s := RunAt(s, run, 8);
    s := RunAt(s, run, 9);
    s := RunAt(s, run, 10);
    RunEnd(s);
    assert run[11..] == [];
    SomebodyParked(s.clients, 0);
  }

  lemma RunAt(s: State, labels: seq<Label>, k: nat) returns (r: State)
    requires k < |labels| && Step(s, labels[k]).Some?
    ensures r == Step(s, labels[k]).value
    ensures Run(s, labels[k..]) == Run(r, labels[k + 1..])
  {
    r := Step(s, labels[k]).value;
    assert labels[k..][1..] == labels[k + 1..];
  }

  lemma RunEnd(s: State)
    ensures Run(s, []) == Some(s)
  {
  }

  /** Nobody is counted as waiting and every parked client has a token. */
  predicate TokenEach(s: State)
  {
    s.waiting == 0 && s.sem == ParkedCount(s.clients)
  }

  /** After a timely run, once the callback that reports non-island mode is over, there is a token for each. */
  lemma TimelyTokens(n: nat, nonIsland: bool, labels: seq<Label>)
    requires n < SEM_LIMIT && Run(Init(n, nonIsland), labels).Some? && Timely(Init(n, nonIsland), labels)
    ensures var s := Run(Init(n, nonIsland), labels).value;
            s.nonIsland && Lead(s) >= 0 && s.lock == Free ==> TokenEach(s)
  {
    InitInv(n, nonIsland);
    InitSafe(n, nonIsland);
    RunKeepsSafe(Init(n, nonIsland), labels);
    ParkedConserved(n, nonIsland, labels);
  }

  /** Then any parked client can go on, and nobody else is put at risk. */
  lemma TokenForEach(s: State, k: nat)
    requires Inv(s) && s.lock == Free && TokenEach(s) && k < |s.clients| && s.clients[k] == Parked
    ensures var r := StepClient(s, k);
            r.Some? && Inv(r.value) && r.value.lock == Free && TokenEach(r.value)
                && ParkedCount(r.value.clients) == ParkedCount(s.clients) - 1
  {
    OwedPut(s.clients, k, Returned);
    SomebodyParked(s.clients, k);
    ParkedWhenFree(s);
    StepKeepsInv(s, ClientStep(k));
    ParkedWhenFree(StepClient(s, k).value);
  }

  lemma {:induction false} SomebodyParked(clients: seq<Client>, k: nat)
    requires k < |clients| && clients[k] == Parked
    ensures ParkedCount(clients) >= 1
  {
    if k == |clients| - 1 {
    } else {
      SomebodyParked(clients[..|clients| - 1], k);
    }
  }
}
