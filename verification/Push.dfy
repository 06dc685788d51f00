// A push to all of a user's devices: one goroutine a subscription, at most ten sending at a time.
module Push {
  import opened Wrappers

  const SLOTS := 10

  datatype Reply = SendError | Status(code: int)

  datatype Verdict = Sent | Stale | Failed

  function Judge(r: Reply): Verdict {
    if r.SendError? then Failed
    else if r.code == 410 || r.code == 404 then Stale
    else if 200 <= r.code < 300 then Sent
    else Failed
  }

  // What a call works on: the endpoints listed for the user, and what each of them answers.
  datatype Job = Job(endpoints: seq<string>, replies: seq<Reply>)

  predicate WellFormed(j: Job) {
    |j.endpoints| == |j.replies|
  }

  // Where a goroutine stands: before the semaphore, waiting for the push service, at the mutex, inside it, done with
  // the reply, past the semaphore, gone.
  datatype Phase = Waiting | Sending | AtMutex | InMutex | Settled | Released | Exited

  // A counter of 32 bits wraps around.
  function Wrap(x: int): int {
    (x + 0x8000_0000) % 0x1_0000_0000 - 0x8000_0000
  }

  datatype State = State(phases: seq<Phase>, slotsTaken: nat, waitGroup: nat, mutex: Option<nat>, sent: int,
                         stale: seq<string>, failed: nat, returned: Option<int>)

  const START := State([], 0, 0, None, 0, [], 0, None)

  datatype Action =
    | Spawn | Acquire(i: nat) | Settle(i: nat) | Lock(i: nat) | Append(i: nat) | Release(i: nat) | Exit(i: nat)
    | Return

  predicate At(s: State, i: nat, p: Phase) {
    i < |s.phases| && s.phases[i] == p
  }

  predicate Enabled(j: Job, s: State, a: Action) {
    && s.returned.None?
    && match a
       case Spawn => |s.phases| < |j.endpoints|
       case Acquire(i) => At(s, i, Waiting) && s.slotsTaken < SLOTS
       case Settle(i) => At(s, i, Sending)
       case Lock(i) => At(s, i, AtMutex) && s.mutex.None?
       case Append(i) => At(s, i, InMutex)
       case Release(i) => At(s, i, Settled) && s.slotsTaken > 0
       case Exit(i) => At(s, i, Released) && s.waitGroup > 0
       case Return => |s.phases| == |j.endpoints| && s.waitGroup == 0
  }

  function Do(j: Job, s: State, a: Action): State
    requires WellFormed(j) && |s.phases| <= |j.endpoints| && Enabled(j, s, a)
  {
    match a
    case Spawn => s.(phases := s.phases + [Waiting], waitGroup := s.waitGroup + 1)
    case Acquire(i) => s.(phases := s.phases[i := Sending], slotsTaken := s.slotsTaken + 1)
    case Settle(i) =>
      (match Judge(j.replies[i])
       case Stale => s.(phases := s.phases[i := AtMutex])
       case Sent => s.(phases := s.phases[i := Settled], sent := Wrap(s.sent + 1))
       case Failed => s.(phases := s.phases[i := Settled], failed := s.failed + 1))
    case Lock(i) => s.(phases := s.phases[i := InMutex], mutex := Some(i))
    case Append(i) => s.(phases := s.phases[i := Settled], stale := s.stale + [j.endpoints[i]], mutex := None)
    case Release(i) => s.(phases := s.phases[i := Released], slotsTaken := s.slotsTaken - 1)
    case Exit(i) => s.(phases := s.phases[i := Exited], waitGroup := s.waitGroup - 1)
    case Return => s.(returned := Some(s.sent))
  }

  // ----- Counting goroutines -----

  function Count(phases: seq<Phase>, f: (nat, Phase) -> bool): (c: nat)
    ensures c <= |phases|
  {
    if phases == [] then 0
    else
      var n := |phases| - 1;
      Count(phases[..n], f) + if f(n, phases[n]) then 1 else 0
  }

  lemma {:induction false} CountMove(phases: seq<Phase>, f: (nat, Phase) -> bool, i: nat, p: Phase)
    requires i < |phases|
    ensures Count(phases[i := p], f)
      == Count(phases, f) - (if f(i, phases[i]) then 1 else 0) + (if f(i, p) then 1 else 0)
  {
    var n := |phases| - 1;
    if i < n {
      CountMove(phases[..n], f, i, p);
      assert phases[i := p][..n] == phases[..n][i := p];
    } else {
      assert phases[i := p][..n] == phases[..n];
    }
  }

  lemma CountMore(phases: seq<Phase>, f: (nat, Phase) -> bool, p: Phase)
    ensures Count(phases + [p], f) == Count(phases, f) + if f(|phases|, p) then 1 else 0
  {
    assert (phases + [p])[..|phases|] == phases;
  }

  lemma {:induction false} SomeCounted(phases: seq<Phase>, f: (nat, Phase) -> bool) returns (i: nat)
    requires Count(phases, f) > 0
    ensures i < |phases| && f(i, phases[i])
  {
    var n := |phases| - 1;
    if f(n, phases[n]) {
      i := n;
    } else {
      i := SomeCounted(phases[..n], f);
    }
  }

  lemma {:induction false} NoneOrAll(phases: seq<Phase>, f: (nat, Phase) -> bool)
    ensures Count(phases, f) == 0 <==> forall i :: 0 <= i < |phases| ==> !f(i, phases[i])
  {
    if phases != [] {
      var n := |phases| - 1;
      NoneOrAll(phases[..n], f);
    }
  }

  function IsInFlight(): (nat, Phase) -> bool {
    (i: nat, p: Phase) => p in {Sending, AtMutex, InMutex, Settled}
  }

  function IsRunning(): (nat, Phase) -> bool {
    (i: nat, p: Phase) => p != Exited
  }

  function IsDone(j: Job, v: Verdict): (nat, Phase) -> bool {
    (i: nat, p: Phase) => i < |j.replies| && Judge(j.replies[i]) == v && p in {Settled, Released, Exited}
  }

  // ----- What holds throughout -----

  ghost predicate StaleExact(j: Job, s: State)
    requires WellFormed(j) && |s.phases| <= |j.endpoints|
  {
    && (forall e :: e in s.stale ==> exists i :: 0 <= i < |s.phases| && StaleAt(j, s, i) && j.endpoints[i] == e)
    && (forall i :: 0 <= i < |s.phases| && StaleAt(j, s, i) ==> j.endpoints[i] in s.stale)
  }

  predicate StaleAt(j: Job, s: State, i: nat)
    requires WellFormed(j) && |s.phases| <= |j.endpoints|
  {
    i < |s.phases| && IsDone(j, Stale)(i, s.phases[i])
  }

  ghost predicate Counts(j: Job, s: State) {
    && s.slotsTaken == Count(s.phases, IsInFlight())
    && s.waitGroup == Count(s.phases, IsRunning())
    && s.sent == Wrap(Count(s.phases, IsDone(j, Sent)))
    && |s.stale| == Count(s.phases, IsDone(j, Stale))
    && s.failed == Count(s.phases, IsDone(j, Failed))
  }

  ghost predicate MutexHeld(j: Job, s: State) {
    && (forall i: nat :: At(s, i, InMutex) <==> s.mutex == Some(i))
    && (forall i :: 0 <= i < |s.phases| && s.phases[i] in {AtMutex, InMutex} ==>
          i < |j.replies| && Judge(j.replies[i]) == Stale)
  }

  ghost predicate Inv(j: Job, s: State) {
    && WellFormed(j)
    && |s.phases| <= |j.endpoints|
    && s.slotsTaken <= SLOTS
    && Counts(j, s)
    && MutexHeld(j, s)
    && StaleExact(j, s)
    && (s.returned.Some? ==> |s.phases| == |j.endpoints| && s.waitGroup == 0 && s.returned.value == s.sent)
  }

  predicate Moves(a: Action) {
    a != Spawn && a != Return
  }

  lemma FlightMove(j: Job, s: State, a: Action)
    requires WellFormed(j) && |s.phases| <= |j.endpoints| && Enabled(j, s, a) && Moves(a)
    requires s.slotsTaken == Count(s.phases, IsInFlight()) && s.waitGroup == Count(s.phases, IsRunning())
    ensures var t := Do(j, s, a);
      t.slotsTaken == Count(t.phases, IsInFlight()) && t.waitGroup == Count(t.phases, IsRunning())
  {
    var p := Do(j, s, a).phases[a.i];
    CountMove(s.phases, IsInFlight(), a.i, p);
    CountMove(s.phases, IsRunning(), a.i, p);
  }

  // A move completes at most one reply, and one with the verdict that the move is made for.
  predicate Completes(j: Job, a: Action, v: Verdict) {
    match a
    case Settle(i) => i < |j.replies| && Judge(j.replies[i]) == v && v != Stale
    case Append(_) => v == Stale
    case _ => false
  }

  lemma DoneMove(j: Job, s: State, a: Action, v: Verdict)
    requires WellFormed(j) && |s.phases| <= |j.endpoints| && Enabled(j, s, a) && Moves(a) && MutexHeld(j, s)
    ensures Count(Do(j, s, a).phases, IsDone(j, v))
      == Count(s.phases, IsDone(j, v)) + if Completes(j, a, v) then 1 else 0
  {
    var p := Do(j, s, a).phases[a.i];
    CountMove(s.phases, IsDone(j, v), a.i, p);
  }

  lemma WrapNext(x: int)
    ensures Wrap(Wrap(x) + 1) == Wrap(x + 1)
  {
  }

  lemma TalliesMove(j: Job, s: State, a: Action)
    requires WellFormed(j) && |s.phases| <= |j.endpoints| && Enabled(j, s, a) && Moves(a)
    ensures var t := Do(j, s, a);
      && t.sent == (if Completes(j, a, Sent) then Wrap(s.sent + 1) else s.sent)
      && |t.stale| == |s.stale| + (if Completes(j, a, Stale) then 1 else 0)
      && t.failed == s.failed + (if Completes(j, a, Failed) then 1 else 0)
  {
  }

  lemma CountsMove(j: Job, s: State, a: Action)
    requires WellFormed(j) && |s.phases| <= |j.endpoints| && Enabled(j, s, a) && Moves(a) && Counts(j, s)
    requires MutexHeld(j, s)
    ensures Counts(j, Do(j, s, a))
  {
    FlightMove(j, s, a);
    DoneMove(j, s, a, Sent);
    DoneMove(j, s, a, Stale);
    DoneMove(j, s, a, Failed);
    TalliesMove(j, s, a);
    WrapNext(Count(s.phases, IsDone(j, Sent)));
  }

  lemma CountsSpawn(j: Job, s: State)
    requires WellFormed(j) && |s.phases| <= |j.endpoints| && Enabled(j, s, Spawn) && Counts(j, s)
    ensures Counts(j, Do(j, s, Spawn))
  {
    CountMore(s.phases, IsInFlight(), Waiting);
    CountMore(s.phases, IsRunning(), Waiting);
    CountMore(s.phases, IsDone(j, Sent), Waiting);
    CountMore(s.phases, IsDone(j, Stale), Waiting);
    CountMore(s.phases, IsDone(j, Failed), Waiting);
  }

  lemma StaleStep(j: Job, s: State, a: Action)
    requires Inv(j, s) && Enabled(j, s, a)
    ensures StaleExact(j, Do(j, s, a))
  {
    var t := Do(j, s, a);
    forall i | 0 <= i < |s.phases| && !(a.Append? && i == a.i) ensures StaleAt(j, t, i) <==> StaleAt(j, s, i) {
    }
    forall e | e in t.stale
      ensures exists i :: 0 <= i < |t.phases| && StaleAt(j, t, i) && j.endpoints[i] == e
    {
      if e in s.stale {
        var i :| 0 <= i < |s.phases| && StaleAt(j, s, i) && j.endpoints[i] == e;
        assert StaleAt(j, t, i);
      } else {
        assert StaleAt(j, t, a.i);
      }
    }
  }

  lemma MutexStep(j: Job, s: State, a: Action)
    requires Inv(j, s) && Enabled(j, s, a)
    ensures MutexHeld(j, Do(j, s, a))
  {
  }

  lemma StepKeepsCounts(j: Job, s: State, a: Action)
    requires Inv(j, s) && Enabled(j, s, a)
    ensures Counts(j, Do(j, s, a))
  {
    if a == Spawn {
      CountsSpawn(j, s);
    } else if a != Return {
      CountsMove(j, s, a);
    }
  }

  lemma StepKeepsInv(j: Job, s: State, a: Action)
    requires Inv(j, s) && Enabled(j, s, a)
    ensures Inv(j, Do(j, s, a))
  {
    StaleStep(j, s, a);
    MutexStep(j, s, a);
    StepKeepsCounts(j, s, a);
  }

  // ----- Runs -----

  ghost predicate IsRun(j: Job, acts: seq<Action>)
    decreases |acts|, 0
  {
    WellFormed(j) && (acts == [] ||
      var n := |acts| - 1;
      IsRun(j, acts[..n]) && |End(j, acts[..n]).phases| <= |j.endpoints| && Enabled(j, End(j, acts[..n]), acts[n]))
  }

  ghost function End(j: Job, acts: seq<Action>): State
    requires IsRun(j, acts)
    decreases |acts|, 1
  {
    if acts == [] then START
    else
      var n := |acts| - 1;
      Do(j, End(j, acts[..n]), acts[n])
  }

  lemma {:induction false} RunKeepsInv(j: Job, acts: seq<Action>)
    requires IsRun(j, acts)
    ensures Inv(j, End(j, acts))
  {
    if acts != [] {
      var n := |acts| - 1;
      RunKeepsInv(j, acts[..n]);
      StepKeepsInv(j, End(j, acts[..n]), acts[n]);
    }
  }

  lemma CanDo(j: Job, s: State, a: Action)
    requires s.slotsTaken <= SLOTS
    ensures Enabled(j, s, a) <==>
      && s.returned.None?
      && match a
         case Spawn => |s.phases| < |j.endpoints|
         case Acquire(i) => i < |s.phases| && s.phases[i].Waiting? && s.slotsTaken < 10
         case Settle(i) => i < |s.phases| && s.phases[i].Sending?
         case Lock(i) => i < |s.phases| && s.phases[i].AtMutex? && s.mutex.None?
         case Append(i) => i < |s.phases| && s.phases[i].InMutex?
         case Release(i) => i < |s.phases| && s.phases[i].Settled? && s.slotsTaken > 0
         case Exit(i) => i < |s.phases| && s.phases[i].Released? && s.waitGroup > 0
         case Return => |s.phases| == |j.endpoints| && s.waitGroup == 0
  {
  }

  // When a run can go on: the call starts a goroutine for each subscription; a goroutine sends when fewer than ten hold
  // a slot, settles a reply, locks a free mutex, appends inside it, and gives back slot and wait group; the call
  // returns when all are started and the wait group is empty.
  lemma RunsGoOn(j: Job, acts: seq<Action>, a: Action)
    requires IsRun(j, acts)
    ensures IsRun(j, acts + [a]) <==>
      var s := End(j, acts);
      && s.returned.None?
      && match a
         case Spawn => |s.phases| < |j.endpoints|
         case Acquire(i) => i < |s.phases| && s.phases[i].Waiting? && s.slotsTaken < 10
         case Settle(i) => i < |s.phases| && s.phases[i].Sending?
         case Lock(i) => i < |s.phases| && s.phases[i].AtMutex? && s.mutex.None?
         case Append(i) => i < |s.phases| && s.phases[i].InMutex?
         case Release(i) => i < |s.phases| && s.phases[i].Settled? && s.slotsTaken > 0
         case Exit(i) => i < |s.phases| && s.phases[i].Released? && s.waitGroup > 0
         case Return => |s.phases| == |j.endpoints| && s.waitGroup == 0
    ensures IsRun(j, acts + [a]) ==>
      |End(j, acts).phases| <= |j.endpoints| && Enabled(j, End(j, acts), a)
      && End(j, acts + [a]) == Do(j, End(j, acts), a)
  {
    RunKeepsInv(j, acts);
    CanDo(j, End(j, acts), a);
    assert (acts + [a])[..|acts|] == acts && (acts + [a])[|acts|] == a;
  }

  // ----- Main results -----

  // What a verdict is about.
  predicate Deserves(r: Reply, v: Verdict) {
    match v
    case Sent => r.Status? && r.code / 100 == 2
    case Stale => r in {Status(404), Status(410)}
    case Failed => r.Status? ==> r.code / 100 != 2 && r.code != 404 && r.code != 410
  }

  lemma VerdictIsDeserved(r: Reply, v: Verdict)
    ensures Judge(r) == v <==> Deserves(r, v)
  {
  }

  function Total(rs: seq<Reply>, v: Verdict): nat {
    if rs == [] then 0
    else Total(rs[..|rs| - 1], v) + if Deserves(rs[|rs| - 1], v) then 1 else 0
  }

  // At every moment of every schedule at most ten goroutines are sending, and at most one is in the mutex.
  lemma AtMostTenInFlight(j: Job, acts: seq<Action>)
    requires IsRun(j, acts)
    ensures Count(End(j, acts).phases, IsInFlight()) <= 10
    ensures forall a: nat, b: nat :: At(End(j, acts), a, InMutex) && At(End(j, acts), b, InMutex) ==> a == b
  {
    RunKeepsInv(j, acts);
  }

  lemma {:induction false} EveryoneDone(j: Job, phases: seq<Phase>, v: Verdict, n: nat)
    requires n <= |phases| <= |j.replies| && forall i :: 0 <= i < |phases| ==> phases[i] == Exited
    ensures Count(phases[..n], IsDone(j, v)) == Total(j.replies[..n], v)
  {
    if n > 0 {
      EveryoneDone(j, phases, v, n - 1);
      VerdictIsDeserved(j.replies[n - 1], v);
      assert phases[..n][..n - 1] == phases[..n - 1] && j.replies[..n][..n - 1] == j.replies[..n - 1];
    }
  }

  lemma {:induction false} VerdictsAddUp(rs: seq<Reply>)
    ensures Total(rs, Sent) + Total(rs, Stale) + Total(rs, Failed) == |rs|
  {
    if rs != [] {
      VerdictsAddUp(rs[..|rs| - 1]);
      var last := rs[|rs| - 1];
      VerdictIsDeserved(last, Sent);
      VerdictIsDeserved(last, Stale);
      VerdictIsDeserved(last, Failed);
    }
  }

  lemma ReturnedMeansAllExited(j: Job, s: State)
    requires Inv(j, s) && s.returned.Some?
    ensures |s.phases| == |j.endpoints| && forall i :: 0 <= i < |s.phases| ==> s.phases[i] == Exited
  {
    NoneOrAll(s.phases, IsRunning());
    forall i | 0 <= i < |s.phases| ensures s.phases[i] == Exited {
      assert !IsRunning()(i, s.phases[i]);
    }
  }

  lemma VerdictsCounted(j: Job, s: State, v: Verdict)
    requires Inv(j, s) && s.returned.Some?
    ensures Count(s.phases, IsDone(j, v)) == Total(j.replies, v)
  {
    ReturnedMeansAllExited(j, s);
    var n := |s.phases|;
    EveryoneDone(j, s.phases, v, n);
    assert s.phases[..n] == s.phases && j.replies[..n] == j.replies;
  }

  lemma ReturnedIsExact(j: Job, s: State)
    requires Inv(j, s) && s.returned.Some? && |j.endpoints| < 0x8000_0000
    ensures s.returned.value == Total(j.replies, Sent)
    ensures |s.stale| == Total(j.replies, Stale)
    ensures s.failed == Total(j.replies, Failed)
    ensures s.returned.value + |s.stale| + s.failed == |j.endpoints|
  {
    VerdictsCounted(j, s, Sent);
    VerdictsCounted(j, s, Stale);
    VerdictsCounted(j, s, Failed);
    VerdictsAddUp(j.replies);
  }

  // Whatever the schedule, when the call returns every reply has been accounted for once: the number returned is the
  // number of replies in the 200s.
  lemma ResultIsExact(j: Job, acts: seq<Action>)
    requires IsRun(j, acts) && End(j, acts).returned.Some?
    requires |j.endpoints| < 0x8000_0000
    ensures var s := End(j, acts);
      && s.returned.value == Total(j.replies, Sent)
      && |s.stale| == Total(j.replies, Stale)
      && s.failed == Total(j.replies, Failed)
      && s.returned.value + |s.stale| + s.failed == |j.endpoints|
  {
    RunKeepsInv(j, acts);
    ReturnedIsExact(j, End(j, acts));
  }

  // The endpoints collected are exactly those that answered 404 or 410.
  lemma StaleEndpointsExact(j: Job, acts: seq<Action>, e: string)
    requires IsRun(j, acts) && End(j, acts).returned.Some?
    ensures e in End(j, acts).stale <==>
      exists i :: 0 <= i < |j.endpoints| && j.replies[i] in {Status(404), Status(410)} && j.endpoints[i] == e
  {
    RunKeepsInv(j, acts);
    var s := End(j, acts);
    ReturnedMeansAllExited(j, s);
    forall i | 0 <= i < |j.endpoints| ensures StaleAt(j, s, i) <==> Deserves(j.replies[i], Stale) {
      VerdictIsDeserved(j.replies[i], Stale);
    }
  }

  // ----- The subscription table -----

  datatype Subscription = Subscription(user: string, endpoint: string, keys: string)

  function DeleteStale(table: set<Subscription>, user: string, endpoints: seq<string>): set<Subscription> {
    set r | r in table && !(r.user == user && r.endpoint in endpoints)
  }

  ghost predicate Lists(table: set<Subscription>, user: string, j: Job) {
    && WellFormed(j)
    && (forall r :: r in table && r.user == user ==> r.endpoint in j.endpoints)
    && (forall a, b :: 0 <= a < b < |j.endpoints| ==> j.endpoints[a] != j.endpoints[b])
  }

  // Of the user's subscriptions exactly those are deleted whose endpoint answered 404 or 410; nobody else's are
  // touched, not even with the same endpoint.
  lemma DeletesExactlyTheStale(table: set<Subscription>, user: string, j: Job, acts: seq<Action>, r: Subscription)
    requires Lists(table, user, j) && IsRun(j, acts) && End(j, acts).returned.Some?
    ensures r in DeleteStale(table, user, End(j, acts).stale) <==>
      r in table && (r.user == user ==>
        exists i :: 0 <= i < |j.endpoints| && j.endpoints[i] == r.endpoint
          && j.replies[i] !in {Status(404), Status(410)})
  {
    StaleEndpointsExact(j, acts, r.endpoint);
    if r in table && r.user == user {
      var i :| 0 <= i < |j.endpoints| && j.endpoints[i] == r.endpoint;
      assert r.endpoint in End(j, acts).stale <==> j.replies[i] in {Status(404), Status(410)};
    }
  }

  // ----- Every schedule comes to an end -----

  function StepsLeft(p: Phase): nat {
    match p
    case Waiting => 6
    case Sending => 5
    case AtMutex => 4
    case InMutex => 3
    case Settled => 2
    case Released => 1
    case Exited => 0
  }

  function Sum(phases: seq<Phase>): nat {
    if phases == [] then 0 else Sum(phases[..|phases| - 1]) + StepsLeft(phases[|phases| - 1])
  }

  function Measure(j: Job, s: State): nat
    requires |s.phases| <= |j.endpoints|
  {
    7 * (|j.endpoints| - |s.phases|) + Sum(s.phases) + if s.returned.None? then 1 else 0
  }

  lemma {:induction false} SumMove(phases: seq<Phase>, i: nat, p: Phase)
    requires i < |phases|
    ensures Sum(phases[i := p]) == Sum(phases) - StepsLeft(phases[i]) + StepsLeft(p)
  {
    var n := |phases| - 1;
    if i < n {
      SumMove(phases[..n], i, p);
      assert phases[i := p][..n] == phases[..n][i := p];
    } else {
      assert phases[i := p][..n] == phases[..n];
    }
  }

  lemma StepGetsCloser(j: Job, s: State, a: Action)
    requires Inv(j, s) && Enabled(j, s, a)
    ensures |Do(j, s, a).phases| <= |j.endpoints| && Measure(j, Do(j, s, a)) < Measure(j, s)
  {
    var t := Do(j, s, a);
    if a == Spawn {
      assert t.phases[..|s.phases|] == s.phases;
    } else if a != Return {
      SumMove(s.phases, a.i, t.phases[a.i]);
    }
  }

  lemma SomeoneInFlightCanMove(j: Job, s: State, i: nat) returns (a: Action)
    requires Inv(j, s) && s.returned.None? && i < |s.phases| && IsInFlight()(i, s.phases[i])
    ensures Enabled(j, s, a)
  {
    NoneOrAll(s.phases, IsInFlight());
    match s.phases[i]
    case Sending => a := Settle(i);
    case Settled => a := Release(i);
    case InMutex => a := Append(i);
    case AtMutex => a := if s.mutex.None? then Lock(i) else Append(s.mutex.value);
  }

  // No deadlock: until the call has returned, somebody can take a step.
  lemma SomeoneCanMove(j: Job, s: State) returns (a: Action)
    requires Inv(j, s) && s.returned.None?
    ensures Enabled(j, s, a)
  {
    if |s.phases| < |j.endpoints| {
      a := Spawn;
    } else if s.waitGroup == 0 {
      a := Return;
    } else {
      var i := SomeCounted(s.phases, IsRunning());
      if s.phases[i] == Waiting {
        if s.slotsTaken < SLOTS {
          a := Acquire(i);
        } else {
          var k := SomeCounted(s.phases, IsInFlight());
          a := SomeoneInFlightCanMove(j, s, k);
        }
      } else if s.phases[i] == Released {
        a := Exit(i);
      } else {
        a := SomeoneInFlightCanMove(j, s, i);
      }
    }
  }

  lemma {:induction false} RunsAreShort(j: Job, acts: seq<Action>)
    requires IsRun(j, acts)
    ensures |End(j, acts).phases| <= |j.endpoints|
    ensures |acts| + Measure(j, End(j, acts)) <= 7 * |j.endpoints| + 1
  {
    if acts != [] {
      var n := |acts| - 1;
      RunsAreShort(j, acts[..n]);
      RunKeepsInv(j, acts[..n]);
      StepGetsCloser(j, End(j, acts[..n]), acts[n]);
    }
  }

  // The call always returns: a run takes at most seven steps a subscription and one more, and as long as it has not
  // returned it can be continued.
  lemma CallReturns(j: Job, acts: seq<Action>)
    requires IsRun(j, acts)
    ensures |acts| <= 7 * |j.endpoints| + 1
    ensures End(j, acts).returned.Some? || exists a :: IsRun(j, acts + [a])
  {
    RunsAreShort(j, acts);
    RunKeepsInv(j, acts);
    if End(j, acts).returned.None? {
      var a := SomeoneCanMove(j, End(j, acts));
      assert (acts + [a])[..|acts|] == acts;
      assert IsRun(j, acts + [a]);
    }
  }
}
