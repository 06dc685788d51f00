// Several broadcasts at once, with the filters and bounded buffers of the clients they visit, while clients register
// and their buffers are drained. The memory of the client list is that of HubSlices.
module HubFeeds {
  import opened Wrappers
  import S = HubSlices

  type Client = S.Client

  // Whether the client's filter accepts the event of a broadcast, and the size of its buffer.
  datatype Setup = Setup(accepts: (Client, nat) -> bool, capacity: Client -> nat)

  // A copy of an event is the number of its broadcast. `copied` records, visit by visit of each broadcast, whether the
  // client visited got a copy.
  datatype State = State(mem: S.State, queues: map<Client, seq<nat>>, drained: map<Client, seq<nat>>,
                         copied: seq<seq<bool>>)

  datatype Step =
    | Register(c: Client, spare: nat)
    | Begin
    | Visit(k: nat)
    | Drain(c: Client)

  const START := State(S.EMPTY, map[], map[], [])

  function Of(queues: map<Client, seq<nat>>, c: Client): seq<nat> {
    if c in queues then queues[c] else []
  }

  function InMemory(step: Step): S.Step
    requires !step.Drain?
  {
    match step
    case Register(c, spare) => S.Register(c, spare)
    case Begin => S.Begin
    case Visit(k) => S.Visit(k)
  }

  predicate Sane(s: State) {
    && S.Valid(s.mem) && S.Stable(s.mem)
    && |s.copied| == |s.mem.broadcasts|
    && forall k :: 0 <= k < |s.copied| ==> |s.copied[k]| == |s.mem.broadcasts[k].visited|
  }

  predicate Enabled(s: State, step: Step)
    requires Sane(s)
  {
    if step.Drain? then Of(s.queues, step.c) != [] else S.Enabled(s.mem, InMemory(step))
  }

  // The client that a visit reads from memory, and whether it gets a copy.
  function Reads(s: State, k: nat): Client
    requires Sane(s) && Enabled(s, Visit(k))
  {
    var b := s.mem.broadcasts[k];
    s.mem.arrays[b.slice.arr][..b.slice.len][|b.visited|].value
  }

  predicate Gets(setup: Setup, s: State, k: nat, c: Client) {
    setup.accepts(c, k) && |Of(s.queues, c)| < setup.capacity(c)
  }

  function Do(setup: Setup, s: State, step: Step): State
    requires Sane(s) && Enabled(s, step)
  {
    match step
    case Register(c, spare) => s.(mem := S.DoRegister(s.mem, c, spare))
    case Begin => s.(mem := S.DoBegin(s.mem), copied := s.copied + [[]])
    case Visit(k) =>
      var c := Reads(s, k);
      var copy := Gets(setup, s, k, c);
      State(S.DoVisit(s.mem, k), if copy then s.queues[c := Of(s.queues, c) + [k]] else s.queues, s.drained,
            s.copied[k := s.copied[k] + [copy]])
    case Drain(c) =>
      var queue := Of(s.queues, c);
      s.(queues := s.queues[c := queue[1..]], drained := s.drained[c := Of(s.drained, c) + [queue[0]]])
  }

  lemma StepKeepsSane(setup: Setup, s: State, step: Step)
    requires Sane(s) && Enabled(s, step)
    ensures Sane(Do(setup, s, step))
  {
    match step {
      case Register(c, spare) => S.RegisterKeepsStable(s.mem, c, spare);
      case Begin => S.BeginKeepsStable(s.mem);
      case Visit(k) => S.VisitKeepsStable(s.mem, k);
      case Drain(_) =>
    }
  }

  // ----- Runs -----

  ghost predicate IsRun(setup: Setup, steps: seq<Step>)
    decreases |steps|, 0
  {
    steps == [] ||
    var n := |steps| - 1;
    IsRun(setup, steps[..n]) && Enabled(End(setup, steps[..n]), steps[n])
  }

  ghost function End(setup: Setup, steps: seq<Step>): (s: State)
    requires IsRun(setup, steps)
    ensures Sane(s)
    decreases |steps|, 1
  {
    if steps == [] then START
    else
      var n := |steps| - 1;
      StepKeepsSane(setup, End(setup, steps[..n]), steps[n]);
      Do(setup, End(setup, steps[..n]), steps[n])
  }

  lemma {:induction false} RunPrefix(setup: Setup, steps: seq<Step>, n: nat)
    requires IsRun(setup, steps) && n <= |steps|
    ensures IsRun(setup, steps[..n])
    decreases |steps|
  {
    if n < |steps| {
      var init := steps[..|steps| - 1];
      RunPrefix(setup, init, n);
      assert init[..n] == steps[..n];
    } else {
      assert steps[..n] == steps;
    }
  }

  // Anybody may register or begin a broadcast at any moment, a broadcast goes on until it has visited as many clients
  // as its snapshot has, and a client with something in its buffer may take it.
  lemma RunsGoOn(setup: Setup, steps: seq<Step>, step: Step)
    requires IsRun(setup, steps)
    requires step.Visit? ==>
      var bs := End(setup, steps).mem.broadcasts;
      step.k < |bs| && |bs[step.k].visited| < |bs[step.k].snapshot|
    requires step.Drain? ==> Of(End(setup, steps).queues, step.c) != []
    ensures IsRun(setup, steps + [step])
    ensures Enabled(End(setup, steps), step) && End(setup, steps + [step]) == Do(setup, End(setup, steps), step)
  {
    assert (steps + [step])[..|steps|] == steps;
    if step.Visit? {
      var mem := End(setup, steps).mem;
      assert S.ValidBroadcast(mem, mem.broadcasts[step.k]);
    }
  }

  // ----- How many copies a client got -----

  function Count(items: seq<nat>, k: nat): nat {
    if items == [] then 0 else Count(items[..|items| - 1], k) + (if items[|items| - 1] == k then 1 else 0)
  }

  lemma CountMore(items: seq<nat>, x: nat, k: nat)
    ensures Count(items + [x], k) == Count(items, k) + if x == k then 1 else 0
  {
    assert (items + [x])[..|items|] == items;
  }

  // Everything the client was handed, in order: what it took out of its buffer, then what is in it.
  function Received(s: State, c: Client): seq<nat> {
    Of(s.drained, c) + Of(s.queues, c)
  }

  // Copies of the event of broadcast `k` handed out by its visits to `c`.
  function Handed(visited: seq<Client>, copied: seq<bool>, c: Client): nat
    requires |visited| == |copied|
  {
    if visited == [] then 0
    else
      var n := |visited| - 1;
      Handed(visited[..n], copied[..n], c) + (if visited[n] == c && copied[n] then 1 else 0)
  }

  lemma HandedMore(visited: seq<Client>, copied: seq<bool>, v: Client, copy: bool, c: Client)
    requires |visited| == |copied|
    ensures Handed(visited + [v], copied + [copy], c)
      == Handed(visited, copied, c) + if v == c && copy then 1 else 0
  {
    assert (visited + [v])[..|visited|] == visited && (copied + [copy])[..|copied|] == copied;
  }

  function HandedBy(s: State, k: nat, c: Client): nat
    requires Sane(s)
  {
    if k < |s.copied| then Handed(s.mem.broadcasts[k].visited, s.copied[k], c) else 0
  }


  lemma DrainKeepsReceived(setup: Setup, s: State, c: Client, d: Client)
    requires Sane(s) && Enabled(s, Drain(c))
    ensures Received(Do(setup, s, Drain(c)), d) == Received(s, d)
  {
  }

  lemma VisitHands(setup: Setup, s: State, k: nat, c: Client, m: nat)
    requires Sane(s) && Enabled(s, Visit(k))
    ensures Sane(Do(setup, s, Visit(k)))
    ensures var v, t := Reads(s, k), Do(setup, s, Visit(k));
      && Received(t, c) == Received(s, c) + (if v == c && Gets(setup, s, k, v) then [k] else [])
      && HandedBy(t, m, c) == HandedBy(s, m, c) + (if m == k && v == c && Gets(setup, s, k, v) then 1 else 0)
  {
    StepKeepsSane(setup, s, Visit(k));
    var v, b := Reads(s, k), s.mem.broadcasts[k];
    HandedMore(b.visited, s.copied[k], v, Gets(setup, s, k, v), c);
    assert Of(s.drained, c) + (Of(s.queues, c) + [k]) == Received(s, c) + [k];
  }

  // The copies a client has received are those its visits handed out.
  lemma {:induction false} CopiesAreHanded(setup: Setup, steps: seq<Step>, k: nat, c: Client)
    requires IsRun(setup, steps)
    ensures Count(Received(End(setup, steps), c), k) == HandedBy(End(setup, steps), k, c)
    decreases |steps|
  {
    if steps == [] {
      assert Received(START, c) == [];
    } else {
      var n := |steps| - 1;
      CopiesAreHanded(setup, steps[..n], k, c);
      var s := End(setup, steps[..n]);
      match steps[n] {
        case Register(_, _) =>
        case Begin => NothingHandedYet(s, k, c);
        case Visit(m) =>
          VisitHands(setup, s, m, c, k);
          CountMore(Received(s, c), m, k);
        case Drain(d) => DrainKeepsReceived(setup, s, d, c);
      }
    }
  }

  lemma NothingHandedYet(s: State, k: nat, c: Client)
    requires Sane(s)
    ensures Sane(s.(mem := S.DoBegin(s.mem), copied := s.copied + [[]]))
    ensures HandedBy(s.(mem := S.DoBegin(s.mem), copied := s.copied + [[]]), k, c) == HandedBy(s, k, c)
  {
    S.BeginKeepsStable(s.mem);
  }

  // ----- One copy each -----

  lemma {:induction false} HandedToNobodyElse(visited: seq<Client>, copied: seq<bool>, c: Client)
    requires |visited| == |copied| && c !in visited
    ensures Handed(visited, copied, c) == 0
    decreases |visited|
  {
    if visited != [] {
      var n := |visited| - 1;
      HandedToNobodyElse(visited[..n], copied[..n], c);
    }
  }

  lemma {:induction false} HandedOnce(visited: seq<Client>, copied: seq<bool>, j: nat)
    requires |visited| == |copied| && S.Distinct(visited) && j < |visited|
    ensures Handed(visited, copied, visited[j]) == if copied[j] then 1 else 0
    decreases |visited|
  {
    var n := |visited| - 1;
    if j < n {
      HandedOnce(visited[..n], copied[..n], j);
    } else {
      HandedToNobodyElse(visited[..n], copied[..n], visited[n]);
    }
  }

  lemma VisitedIsSnapshot(setup: Setup, steps: seq<Step>, k: nat)
    requires IsRun(setup, steps) && k < |End(setup, steps).mem.broadcasts|
    ensures var b := End(setup, steps).mem.broadcasts[k];
      |b.visited| <= |b.snapshot| && b.visited == b.snapshot[..|b.visited|]
  {
    var s := End(setup, steps);
    assert S.StableBroadcast(s.mem, s.mem.broadcasts[k]);
  }

  lemma RecordsStep(setup: Setup, s: State, step: Step, k: nat)
    requires Sane(s) && Enabled(s, step) && k < |s.copied|
    ensures var t := Do(setup, s, step);
      && k < |t.copied| && k < |t.mem.broadcasts| && s.copied[k] <= t.copied[k]
      && t.mem.broadcasts[k].snapshot == s.mem.broadcasts[k].snapshot
  {
  }

  lemma PrefixTransitive(a: seq<bool>, b: seq<bool>, c: seq<bool>)
    requires a <= b && b <= c
    ensures a <= c
  {
  }

  // What a broadcast has recorded and its snapshot stay.
  lemma {:induction false} RecordsStay(setup: Setup, steps: seq<Step>, n: nat, k: nat)
    requires IsRun(setup, steps) && n <= |steps| && IsRun(setup, steps[..n])
    requires k < |End(setup, steps[..n]).copied|
    ensures k < |End(setup, steps).copied|
    ensures End(setup, steps[..n]).copied[k] <= End(setup, steps).copied[k]
    ensures End(setup, steps).mem.broadcasts[k].snapshot == End(setup, steps[..n]).mem.broadcasts[k].snapshot
    decreases |steps|
  {
    if n < |steps| {
      var init := steps[..|steps| - 1];
      assert init[..n] == steps[..n];
      RecordsStay(setup, init, n, k);
      RecordsStep(setup, End(setup, init), steps[|steps| - 1], k);
      PrefixTransitive(End(setup, steps[..n]).copied[k], End(setup, init).copied[k], End(setup, steps).copied[k]);
    } else {
      assert steps[..n] == steps;
    }
  }

  lemma VisitRecordsOne(setup: Setup, s: State, k: nat)
    requires Sane(s) && Enabled(s, Visit(k))
    ensures var t, j := Do(setup, s, Visit(k)), |s.mem.broadcasts[k].visited|;
      && k < |t.copied| && k < |t.mem.broadcasts| && j < |t.copied[k]|
      && t.copied[k][j] == Gets(setup, s, k, Reads(s, k))
      && t.mem.broadcasts[k].snapshot == s.mem.broadcasts[k].snapshot
  {
  }

  lemma VisitRecords(setup: Setup, steps: seq<Step>, n: nat)
    requires IsRun(setup, steps) && n < |steps| && steps[n].Visit?
    ensures IsRun(setup, steps[..n]) && Enabled(End(setup, steps[..n]), steps[n])
    ensures var s, t, k := End(setup, steps[..n]), End(setup, steps), steps[n].k;
      var j := |s.mem.broadcasts[k].visited|;
      && k < |t.copied| && j < |t.copied[k]|
      && t.copied[k][j] == Gets(setup, s, k, Reads(s, k))
      && t.mem.broadcasts[k].snapshot == s.mem.broadcasts[k].snapshot
  {
    RunPrefix(setup, steps, n);
    RunPrefix(setup, steps, n + 1);
    assert steps[..n + 1][..n] == steps[..n];
    VisitRecordsOne(setup, End(setup, steps[..n]), steps[n].k);
    RecordsStay(setup, steps, n + 1, steps[n].k);
  }

  // While registrations and other broadcasts interleave, the client a visit reads is the next of the broadcast's
  // snapshot; and by the end of the run that client has received exactly one copy of the event if at that moment its
  // filter accepted it and its buffer had room, and none otherwise.
  lemma OneCopyPerVisit(setup: Setup, steps: seq<Step>, n: nat)
    requires IsRun(setup, steps) && n < |steps| && steps[n].Visit?
    requires IsRun(setup, steps[..n]) && Enabled(End(setup, steps[..n]), steps[n])
    requires S.Distinct(End(setup, steps[..n]).mem.broadcasts[steps[n].k].snapshot)
    ensures var s, k := End(setup, steps[..n]), steps[n].k;
      var b := s.mem.broadcasts[k];
      var c := b.snapshot[|b.visited|];
      && Reads(s, k) == c
      && Count(Received(End(setup, steps), c), k)
         == if setup.accepts(c, k) && |Of(s.queues, c)| < setup.capacity(c) then 1 else 0
  {
    var s, t, k := End(setup, steps[..n]), End(setup, steps), steps[n].k;
    var b := s.mem.broadcasts[k];
    var j := |b.visited|;
    assert S.StableBroadcast(s.mem, b);
    assert Reads(s, k) == S.Values(s.mem.arrays[b.slice.arr][..b.slice.len])[j];
    var c := b.snapshot[j];
    VisitRecords(setup, steps, n);
    VisitedIsSnapshot(setup, steps, k);
    CopiesAreHanded(setup, steps, k, c);
    HandedOnce(t.mem.broadcasts[k].visited, t.copied[k], j);
  }

  lemma VisitedStep(setup: Setup, s: State, step: Step, k: nat)
    requires Sane(s) && Enabled(s, step) && k < |Do(setup, s, step).mem.broadcasts|
    ensures var v := |Do(setup, s, step).mem.broadcasts[k].visited|;
      if k >= |s.mem.broadcasts| then v == 0
      else v == |s.mem.broadcasts[k].visited| + if step == Visit(k) then 1 else 0
  {
  }

  // The step that made a broadcast's `j`-th visit.
  lemma {:induction false} VisitOf(setup: Setup, steps: seq<Step>, k: nat, j: nat) returns (n: nat)
    requires IsRun(setup, steps) && k < |End(setup, steps).mem.broadcasts|
    requires j < |End(setup, steps).mem.broadcasts[k].visited|
    ensures n < |steps| && steps[n] == Visit(k)
    ensures IsRun(setup, steps[..n]) && Enabled(End(setup, steps[..n]), steps[n])
    ensures |End(setup, steps[..n]).mem.broadcasts[k].visited| == j
    decreases |steps|
  {
    var m := |steps| - 1;
    var init := steps[..m];
    var s := End(setup, init);
    VisitedStep(setup, s, steps[m], k);
    if k < |s.mem.broadcasts| && j < |s.mem.broadcasts[k].visited| {
      n := VisitOf(setup, init, k, j);
      assert init[..n] == steps[..n];
    } else {
      n := m;
    }
  }

  // So while registrations and other broadcasts interleave, a finished broadcast has visited each client of its
  // snapshot at one moment `n`, and the client has received exactly one copy if its filter accepted the event and its
  // buffer had room then, and none otherwise.
  lemma OneCopyEach(setup: Setup, steps: seq<Step>, k: nat, j: nat) returns (n: nat)
    requires IsRun(setup, steps) && k < |End(setup, steps).mem.broadcasts|
    requires var b := End(setup, steps).mem.broadcasts[k];
      S.Distinct(b.snapshot) && |b.visited| == |b.snapshot| && j < |b.snapshot|
    ensures n < |steps| && steps[n] == Visit(k) && IsRun(setup, steps[..n])
    ensures var c, s := End(setup, steps).mem.broadcasts[k].snapshot[j], End(setup, steps[..n]);
      Count(Received(End(setup, steps), c), k)
      == if setup.accepts(c, k) && |Of(s.queues, c)| < setup.capacity(c) then 1 else 0
  {
    n := VisitOf(setup, steps, k, j);
    VisitRecords(setup, steps, n);
    OneCopyPerVisit(setup, steps, n);
  }

  // Nobody outside the snapshot receives the event.
  lemma NoCopyOutsideTheSnapshot(setup: Setup, steps: seq<Step>, k: nat, c: Client)
    requires IsRun(setup, steps) && k < |End(setup, steps).mem.broadcasts|
    requires c !in End(setup, steps).mem.broadcasts[k].snapshot
    ensures k !in Received(End(setup, steps), c)
  {
    var t := End(setup, steps);
    VisitedIsSnapshot(setup, steps, k);
    CopiesAreHanded(setup, steps, k, c);
    HandedToNobodyElse(t.mem.broadcasts[k].visited, t.copied[k], c);
    NoneCounted(Received(t, c), k);
  }

  lemma {:induction false} NoneCounted(items: seq<nat>, k: nat)
    ensures Count(items, k) == 0 <==> k !in items
    decreases |items|
  {
    if items != [] {
      NoneCounted(items[..|items| - 1], k);
      assert items == items[..|items| - 1] + [items[|items| - 1]];
    }
  }

  // Over every run a client has received only events that its filter accepts.
  lemma {:induction false} OnlyAcceptedIsReceived(setup: Setup, steps: seq<Step>, c: Client, k: nat)
    requires IsRun(setup, steps) && k in Received(End(setup, steps), c)
    ensures setup.accepts(c, k)
    decreases |steps|
  {
    var n := |steps| - 1;
    var s := End(setup, steps[..n]);
    match steps[n] {
      case Register(_, _) =>
      case Begin =>
      case Visit(m) => VisitHands(setup, s, m, c, k);
      case Drain(d) => DrainKeepsReceived(setup, s, d, c);
    }
    if k in Received(s, c) {
      OnlyAcceptedIsReceived(setup, steps[..n], c, k);
    }
  }

  // No buffer ever holds more than its capacity.
  lemma {:induction false} BuffersAreBounded(setup: Setup, steps: seq<Step>, c: Client)
    requires IsRun(setup, steps)
    ensures |Of(End(setup, steps).queues, c)| <= setup.capacity(c)
    decreases |steps|
  {
    if steps != [] {
      BuffersAreBounded(setup, steps[..|steps| - 1], c);
    }
  }
}
