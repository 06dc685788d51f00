// A broadcast copies only a slice header under the lock and then walks the clients without it. This is the memory of
// one channel's client list: backing arrays that headers share, appends that write in place when there is capacity,
// and a removal that shifts the shared array under the feet of running broadcasts.
module HubSlices {
  import opened Wrappers

  type Client = nat

  // The first `len` cells of a backing array; the array is a cell per unit of capacity.
  datatype Slice = Slice(arr: nat, len: nat)

  // `snapshot` is what the header showed when it was copied, `visited` the clients read so far.
  datatype Broadcast = Broadcast(slice: Slice, snapshot: seq<Client>, visited: seq<Client>)

  // `ever` are the clients that were registered at some time.
  datatype State = State(arrays: seq<seq<Option<Client>>>, current: Slice, broadcasts: seq<Broadcast>,
                         ever: set<Client>)

  datatype Step =
    | Register(c: Client, spare: nat)
    | Unregister(c: Client)
    | Begin
    | Visit(k: nat)

  const EMPTY := State([[]], Slice(0, 0), [], {})

  // ----- Reading a slice -----

  predicate InBounds(arrays: seq<seq<Option<Client>>>, s: Slice) {
    s.arr < |arrays| && s.len <= |arrays[s.arr]|
  }

  predicate AllSet(cells: seq<Option<Client>>) {
    forall i :: 0 <= i < |cells| ==> cells[i].Some?
  }

  function Values(cells: seq<Option<Client>>): seq<Client>
    requires AllSet(cells)
  {
    seq(|cells|, i requires 0 <= i < |cells| => cells[i].value)
  }

  // Every header anybody holds shows cells that were written: no broadcast can read a nil client.
  predicate Valid(s: State) {
    && InBounds(s.arrays, s.current)
    && AllSet(s.arrays[s.current.arr][..s.current.len])
    && (forall k :: 0 <= k < |s.broadcasts| ==> ValidBroadcast(s, s.broadcasts[k]))
    && (forall a, i :: 0 <= a < |s.arrays| && 0 <= i < |s.arrays[a]| && s.arrays[a][i].Some? ==>
          s.arrays[a][i].value in s.ever)
  }

  predicate ValidBroadcast(s: State, b: Broadcast) {
    && InBounds(s.arrays, b.slice)
    && AllSet(s.arrays[b.slice.arr][..b.slice.len])
    && |b.snapshot| == b.slice.len
    && |b.visited| <= b.slice.len
    && (forall i :: 0 <= i < |b.visited| ==> b.visited[i] in s.ever)
  }

  function Registered(s: State): seq<Client>
    requires Valid(s)
  {
    Values(s.arrays[s.current.arr][..s.current.len])
  }

  // ----- The operations on memory -----

  // append(clients, c): in place when the array has room, otherwise a longer copy with `spare` empty cells.
  function DoRegister(s: State, c: Client, spare: nat): State
    requires Valid(s)
  {
    var a, n := s.current.arr, s.current.len;
    var ever := s.ever + {c};
    if n < |s.arrays[a]| then
      s.(arrays := s.arrays[a := s.arrays[a][n := Some(c)]], current := Slice(a, n + 1), ever := ever)
    else
      var grown := s.arrays[a][..n] + [Some(c)] + seq(spare, _ => None);
      s.(arrays := s.arrays + [grown], current := Slice(|s.arrays|, n + 1), ever := ever)
  }

  function IndexOf(cells: seq<Option<Client>>, c: Client): (i: nat)
    ensures i <= |cells|
    ensures i < |cells| ==> cells[i] == Some(c)
    ensures forall j :: 0 <= j < i ==> cells[j] != Some(c)
  {
    if cells == [] || cells[0] == Some(c) then 0 else 1 + IndexOf(cells[1..], c)
  }

  // append(clients[:i], clients[i+1:]...): cells i.. move one to the left inside the same array; the last cell of the
  // old slice keeps its value.
  function Shift(cells: seq<Option<Client>>, i: nat, len: nat): seq<Option<Client>>
    requires i < len <= |cells|
  {
    cells[..i] + cells[i + 1..len] + cells[len - 1..]
  }

  function DoUnregister(s: State, c: Client): State
    requires Valid(s)
  {
    var a, n := s.current.arr, s.current.len;
    var i := IndexOf(s.arrays[a][..n], c);
    if i == n then s
    else s.(arrays := s.arrays[a := Shift(s.arrays[a], i, n)], current := Slice(a, n - 1))
  }

  function DoBegin(s: State): State
    requires Valid(s)
  {
    s.(broadcasts := s.broadcasts + [Broadcast(s.current, Registered(s), [])])
  }

  predicate Enabled(s: State, step: Step) {
    step.Visit? ==> step.k < |s.broadcasts| && |s.broadcasts[step.k].visited| < s.broadcasts[step.k].slice.len
  }

  // One turn of the loop: read the next cell from the array as it is now.
  function DoVisit(s: State, k: nat): State
    requires Valid(s) && Enabled(s, Visit(k))
  {
    var b := s.broadcasts[k];
    var cell := s.arrays[b.slice.arr][..b.slice.len][|b.visited|];
    s.(broadcasts := s.broadcasts[k := b.(visited := b.visited + [cell.value])])
  }

  function Do(s: State, step: Step): State
    requires Valid(s) && Enabled(s, step)
  {
    match step
    case Register(c, spare) => DoRegister(s, c, spare)
    case Unregister(c) => DoUnregister(s, c)
    case Begin => DoBegin(s)
    case Visit(k) => DoVisit(s, k)
  }

  lemma RegisterKeepsValid(s: State, c: Client, spare: nat)
    requires Valid(s)
    ensures Valid(DoRegister(s, c, spare))
    ensures Registered(DoRegister(s, c, spare)) == Registered(s) + [c]
  {
  }

  lemma ShiftCells(cells: seq<Option<Client>>, i: nat, len: nat)
    requires i < len <= |cells|
    ensures |Shift(cells, i, len)| == |cells|
    ensures forall j :: 0 <= j < |cells| ==>
      Shift(cells, i, len)[j] == if i <= j < len - 1 then cells[j + 1] else cells[j]
  {
  }

  lemma ShiftKeepsBroadcast(s: State, t: State, b: Broadcast, a: nat, i: nat, n: nat)
    requires a < |s.arrays| && i < n <= |s.arrays[a]| && AllSet(s.arrays[a][..n]) && ValidBroadcast(s, b)
    requires t.arrays == s.arrays[a := Shift(s.arrays[a], i, n)] && t.ever == s.ever
    ensures ValidBroadcast(t, b)
  {
    var cells := s.arrays[a];
    ShiftCells(cells, i, n);
    assert forall j :: 0 <= j < n ==> cells[j] == cells[..n][j];
    if b.slice.arr == a {
      assert forall j :: 0 <= j < b.slice.len ==> cells[j] == cells[..b.slice.len][j];
    }
  }

  lemma UnregisterKeepsValid(s: State, c: Client)
    requires Valid(s)
    ensures Valid(DoUnregister(s, c))
  {
    var a, n := s.current.arr, s.current.len;
    var cells := s.arrays[a];
    var i := IndexOf(cells[..n], c);
    if i < n {
      var s' := DoUnregister(s, c);
      ShiftCells(cells, i, n);
      assert forall j :: 0 <= j < n ==> cells[j] == cells[..n][j];
      forall k | 0 <= k < |s.broadcasts| ensures ValidBroadcast(s', s'.broadcasts[k]) {
        ShiftKeepsBroadcast(s, s', s.broadcasts[k], a, i, n);
      }
    }
  }

  lemma BeginKeepsValid(s: State)
    requires Valid(s)
    ensures Valid(DoBegin(s))
  {
  }

  lemma VisitKeepsValid(s: State, k: nat)
    requires Valid(s) && Enabled(s, Visit(k))
    ensures Valid(DoVisit(s, k))
  {
  }

  lemma StepKeepsValid(s: State, step: Step)
    requires Valid(s) && Enabled(s, step)
    ensures Valid(Do(s, step))
    ensures s.ever <= Do(s, step).ever
  {
    match step {
      case Register(c, spare) => RegisterKeepsValid(s, c, spare);
      case Unregister(c) => UnregisterKeepsValid(s, c);
      case Begin => BeginKeepsValid(s);
      case Visit(k) => VisitKeepsValid(s, k);
    }
  }

  // The clients of the channel after removing one: its first occurrence goes, the others keep their order.
  lemma UnregisterRemovesFirst(s: State, c: Client)
    requires Valid(s)
    ensures Valid(DoUnregister(s, c))
    ensures var cs, cs' := Registered(s), Registered(DoUnregister(s, c));
      if c in cs then exists i :: 0 <= i < |cs| && cs[i] == c && c !in cs[..i] && cs' == cs[..i] + cs[i + 1..]
      else cs' == cs
  {
    UnregisterKeepsValid(s, c);
    var a, n := s.current.arr, s.current.len;
    var cells := s.arrays[a];
    var i := IndexOf(cells[..n], c);
    var cs := Registered(s);
    if i < n {
      ShiftCells(cells, i, n);
      assert cs[i] == c && c !in cs[..i];
      assert Registered(DoUnregister(s, c)) == cs[..i] + cs[i + 1..];
    } else {
      assert forall j :: 0 <= j < |cs| ==> cells[..n][j] == Some(cs[j]);
    }
  }

  // ----- Runs -----

  ghost predicate IsRun(s: State, steps: seq<Step>)
    requires Valid(s)
    decreases |steps|
  {
    steps == []
    || (Enabled(s, steps[0]) && (StepKeepsValid(s, steps[0]); IsRun(Do(s, steps[0]), steps[1..])))
  }

  ghost function End(s: State, steps: seq<Step>): (t: State)
    requires Valid(s) && IsRun(s, steps)
    ensures Valid(t)
    ensures s.ever <= t.ever
    decreases |steps|
  {
    if steps == [] then s
    else
      StepKeepsValid(s, steps[0]);
      End(Do(s, steps[0]), steps[1..])
  }

  // Anybody may register, unregister or begin a broadcast at any moment, and a broadcast goes on until it has visited
  // as many clients as its snapshot has.
  lemma {:induction false} RunsGoOn(s: State, steps: seq<Step>, step: Step)
    requires Valid(s) && IsRun(s, steps)
    requires step.Visit? ==>
      var bs := End(s, steps).broadcasts;
      step.k < |bs| && |bs[step.k].visited| < |bs[step.k].snapshot|
    ensures IsRun(s, steps + [step])
    ensures Enabled(End(s, steps), step) && End(s, steps + [step]) == Do(End(s, steps), step)
    decreases |steps|
  {
    var all := steps + [step];
    if steps == [] {
      assert step.Visit? ==> ValidBroadcast(s, s.broadcasts[step.k]);
      StepKeepsValid(s, step);
      assert all[1..] == [];
    } else {
      StepKeepsValid(s, steps[0]);
      RunsGoOn(Do(s, steps[0]), steps[1..], step);
      assert all[1..] == steps[1..] + [step];
    }
  }

  // With removals interleaved in any way, this much holds: a broadcast never reads a nil client, and everyone it
  // reaches was registered on the channel at some time.
  lemma RecipientsWereRegistered(steps: seq<Step>, k: nat)
    requires IsRun(EMPTY, steps)
    requires k < |End(EMPTY, steps).broadcasts|
    ensures var s := End(EMPTY, steps);
      forall i :: 0 <= i < |s.broadcasts[k].visited| ==> s.broadcasts[k].visited[i] in s.ever
  {
    var s := End(EMPTY, steps);
    assert ValidBroadcast(s, s.broadcasts[k]);
  }

  // ----- Interleaved with registrations only -----

  // The cells below a held header still show the snapshot, and no append can reach them.
  predicate Stable(s: State)
    requires Valid(s)
  {
    forall k :: 0 <= k < |s.broadcasts| ==> StableBroadcast(s, s.broadcasts[k])
  }

  predicate StableBroadcast(s: State, b: Broadcast) {
    && ValidBroadcast(s, b)
    && (b.slice.arr == s.current.arr ==> b.slice.len <= s.current.len)
    && Values(s.arrays[b.slice.arr][..b.slice.len]) == b.snapshot
    && b.visited == b.snapshot[..|b.visited|]
  }

  lemma RegisterKeepsStable(s: State, c: Client, spare: nat)
    requires Valid(s) && Stable(s)
    ensures Valid(DoRegister(s, c, spare)) && Stable(DoRegister(s, c, spare))
  {
    RegisterKeepsValid(s, c, spare);
    var s' := DoRegister(s, c, spare);
    forall k | 0 <= k < |s.broadcasts| ensures StableBroadcast(s', s.broadcasts[k]) {
      var b := s.broadcasts[k];
      assert StableBroadcast(s, b) && ValidBroadcast(s', s'.broadcasts[k]);
      assert s'.arrays[b.slice.arr][..b.slice.len] == s.arrays[b.slice.arr][..b.slice.len];
    }
  }

  lemma BeginKeepsStable(s: State)
    requires Valid(s) && Stable(s)
    ensures Valid(DoBegin(s)) && Stable(DoBegin(s))
  {
    BeginKeepsValid(s);
    var s' := DoBegin(s);
    forall k | 0 <= k < |s'.broadcasts| ensures StableBroadcast(s', s'.broadcasts[k]) {
      if k < |s.broadcasts| {
        assert StableBroadcast(s, s.broadcasts[k]);
      }
    }
  }

  lemma VisitKeepsStable(s: State, k: nat)
    requires Valid(s) && Stable(s) && Enabled(s, Visit(k))
    ensures Valid(DoVisit(s, k)) && Stable(DoVisit(s, k))
  {
    VisitKeepsValid(s, k);
    var s' := DoVisit(s, k);
    forall j | 0 <= j < |s'.broadcasts| ensures StableBroadcast(s', s'.broadcasts[j]) {
      assert StableBroadcast(s, s.broadcasts[j]);
      var b := s.broadcasts[k];
      var n := |b.visited|;
      assert b.snapshot[..n + 1] == b.snapshot[..n] + [b.snapshot[n]];
    }
  }

  lemma {:induction false} RegistrationsKeepStable(s: State, steps: seq<Step>)
    requires Valid(s) && Stable(s) && IsRun(s, steps)
    requires forall i :: 0 <= i < |steps| ==> !steps[i].Unregister?
    ensures Stable(End(s, steps))
    decreases |steps|
  {
    if steps != [] {
      match steps[0] {
        case Register(c, spare) => RegisterKeepsStable(s, c, spare);
        case Begin => BeginKeepsStable(s);
        case Visit(k) => VisitKeepsStable(s, k);
      }
      RegistrationsKeepStable(Do(s, steps[0]), steps[1..]);
    }
  }

  // While only registrations interleave, whatever the capacities, every broadcast visits exactly the clients of its
  // snapshot, in order and once each.
  lemma BroadcastVisitsItsSnapshot(s: State, steps: seq<Step>, k: nat)
    requires Valid(s) && s.broadcasts == [] && IsRun(s, steps)
    requires forall i :: 0 <= i < |steps| ==> !steps[i].Unregister?
    requires k < |End(s, steps).broadcasts|
    ensures var b := End(s, steps).broadcasts[k];
      && b.visited <= b.snapshot
      && (|b.visited| == b.slice.len ==> b.visited == b.snapshot)
  {
    RegistrationsKeepStable(s, steps);
    var t := End(s, steps);
    assert StableBroadcast(t, t.broadcasts[k]);
  }

  // ----- One removal in the middle of a broadcast -----

  function Rest(k: nat, m: nat): seq<Step> {
    seq(m, _ => Visit(k))
  }

  // Left alone, a broadcast goes on to read the remaining cells as they are now.
  lemma {:induction false} FinishingVisits(s: State, k: nat)
    requires Valid(s) && k < |s.broadcasts|
    ensures var b := s.broadcasts[k];
      var steps := Rest(k, b.slice.len - |b.visited|);
      && ValidBroadcast(s, b) && IsRun(s, steps) && |End(s, steps).broadcasts| == |s.broadcasts|
      && End(s, steps).broadcasts[k].visited == b.visited + Values(s.arrays[b.slice.arr][|b.visited|..b.slice.len])
    decreases s.broadcasts[k].slice.len - |s.broadcasts[k].visited|
  {
    var b := s.broadcasts[k];
    assert ValidBroadcast(s, b);
    var cells := s.arrays[b.slice.arr];
    assert cells[|b.visited|..b.slice.len] == cells[..b.slice.len][|b.visited|..];
    if |b.visited| < b.slice.len {
      var steps := Rest(k, b.slice.len - |b.visited|);
      assert steps[1..] == Rest(k, b.slice.len - |b.visited| - 1);
      VisitKeepsValid(s, k);
      FinishingVisits(DoVisit(s, k), k);
      assert Values(cells[|b.visited|..b.slice.len])
          == [cells[|b.visited|].value] + Values(cells[|b.visited| + 1..b.slice.len]);
    }
  }

  // The list with the clients from index `i` on moved one to the left, its end staying as it was.
  function Shifted(cs: seq<Client>, i: nat): seq<Client>
    requires i < |cs|
  {
    cs[..i] + cs[i + 1..] + [cs[|cs| - 1]]
  }

  predicate Distinct(cs: seq<Client>) {
    forall i, j :: 0 <= i < j < |cs| ==> cs[i] != cs[j]
  }

  // What a broadcast visits when the client at `i` goes after `n` visits: its snapshot exactly if that is the last
  // client or at most one visit is left; otherwise the last client twice, and if the removed client had been visited
  // already, the next one in line not at all.
  predicate Disturbed(cs: seq<Client>, n: nat, i: nat, v: seq<Client>)
    requires n <= |cs| && i < |cs|
  {
    && |v| == |cs|
    && (v == cs <==> i == |cs| - 1 || n >= |cs| - 1)
    && (i < |cs| - 1 && n < |cs| - 1 ==>
          v[|cs| - 2] == v[|cs| - 1] == cs[|cs| - 1] && (i < n ==> cs[n] !in v))
  }

  lemma SplicedIsSnapshot(cs: seq<Client>, n: nat, i: nat)
    requires n <= |cs| && i < |cs| && Distinct(cs)
    ensures Disturbed(cs, n, i, cs[..n] + Shifted(cs, i)[n..])
  {
    var v := cs[..n] + Shifted(cs, i)[n..];
    var last := |cs| - 1;
    assert forall j :: 0 <= j <= last ==> v[j] == if j >= n && i <= j < last then cs[j + 1] else cs[j];
    if i < last && n < last {
      assert v[last - 1] == cs[last] != cs[last - 1];
    }
  }

  function RemovalThenRest(b: Broadcast, k: nat, i: nat): seq<Step>
    requires i < |b.snapshot| && |b.visited| <= b.slice.len
  {
    [Unregister(b.snapshot[i])] + Rest(k, b.slice.len - |b.visited|)
  }

  lemma ValuesOfRest(cells: seq<Option<Client>>, n: nat, len: nat)
    requires n <= len <= |cells| && AllSet(cells[..len])
    ensures AllSet(cells[n..len]) && Values(cells[n..len]) == Values(cells[..len])[n..]
  {
    assert forall j :: n <= j < len ==> cells[j] == cells[..len][j];
  }

  lemma FirstThenRest(s: State, step: Step, rest: seq<Step>)
    requires Valid(s) && Enabled(s, step) && Valid(Do(s, step)) && IsRun(Do(s, step), rest)
    ensures IsRun(s, [step] + rest) && End(s, [step] + rest) == End(Do(s, step), rest)
  {
    assert ([step] + rest)[1..] == rest;
  }

  // The run leaves the broadcast with these visits.
  ghost predicate EndsVisiting(s: State, steps: seq<Step>, k: nat, visited: seq<Client>)
    requires Valid(s)
  {
    IsRun(s, steps) && k < |End(s, steps).broadcasts| && End(s, steps).broadcasts[k].visited == visited
  }

  // A step, and then the remaining visits of a broadcast, whose cells show `values` after the step.
  lemma FinishAfter(s: State, step: Step, k: nat, b: Broadcast, values: seq<Client>)
    requires Valid(s) && Enabled(s, step) && Valid(Do(s, step))
    requires k < |Do(s, step).broadcasts| && Do(s, step).broadcasts[k] == b && ValidBroadcast(Do(s, step), b)
    requires Values(Do(s, step).arrays[b.slice.arr][..b.slice.len]) == values
    ensures EndsVisiting(s, [step] + Rest(k, b.slice.len - |b.visited|), k, b.visited + values[|b.visited|..])
  {
    var s' := Do(s, step);
    FinishingVisits(s', k);
    FirstThenRest(s, step, Rest(k, b.slice.len - |b.visited|));
    ValuesOfRest(s'.arrays[b.slice.arr], |b.visited|, b.slice.len);
  }

  // The broadcast's header right after the removal.
  lemma BroadcastAfterRemoval(s: State, k: nat, i: nat)
    requires Valid(s) && k < |s.broadcasts|
    requires var b := s.broadcasts[k];
      StableBroadcast(s, b) && b.slice == s.current && Distinct(b.snapshot) && i < |b.snapshot|
    ensures var b := s.broadcasts[k];
      var s' := Do(s, Unregister(b.snapshot[i]));
      && Valid(s') && s'.broadcasts == s.broadcasts && ValidBroadcast(s', b)
      && Values(s'.arrays[b.slice.arr][..b.slice.len]) == Shifted(b.snapshot, i)
      && b.visited == b.snapshot[..|b.visited|] && |b.visited| <= b.slice.len
  {
    var b := s.broadcasts[k];
    UnregisterKeepsValid(s, b.snapshot[i]);
    RemovedCells(s, b.snapshot, i);
    var s' := DoUnregister(s, b.snapshot[i]);
    assert ValidBroadcast(s', s'.broadcasts[k]);
  }

  lemma RemovalThenFinish(s: State, k: nat, i: nat) returns (v: seq<Client>)
    requires Valid(s) && k < |s.broadcasts|
    requires var b := s.broadcasts[k];
      StableBroadcast(s, b) && b.slice == s.current && Distinct(b.snapshot) && i < |b.snapshot|
    ensures var b := s.broadcasts[k];
      && v == b.snapshot[..|b.visited|] + Shifted(b.snapshot, i)[|b.visited|..]
      && EndsVisiting(s, RemovalThenRest(b, k, i), k, v)
  {
    var b := s.broadcasts[k];
    BroadcastAfterRemoval(s, k, i);
    FinishAfter(s, Unregister(b.snapshot[i]), k, b, Shifted(b.snapshot, i));
    v := b.snapshot[..|b.visited|] + Shifted(b.snapshot, i)[|b.visited|..];
  }

  // A broadcast of the current list has visited part of it when the client at index `i` is removed; nothing else
  // happens. What it then goes on to visit is settled exactly.
  lemma RemovalDuringBroadcast(s: State, k: nat, i: nat)
    requires Valid(s) && k < |s.broadcasts|
    requires var b := s.broadcasts[k];
      StableBroadcast(s, b) && b.slice == s.current && Distinct(b.snapshot) && i < |b.snapshot|
    ensures var b := s.broadcasts[k];
      var steps := RemovalThenRest(b, k, i);
      var cs, n := b.snapshot, |b.visited|;
      && IsRun(s, steps) && k < |End(s, steps).broadcasts|
      && var v := End(s, steps).broadcasts[k].visited;
      && |v| == |cs|
      && (v == cs <==> i == |cs| - 1 || n >= |cs| - 1)
      && (i < |cs| - 1 && n < |cs| - 1 ==>
            v[|cs| - 2] == v[|cs| - 1] == cs[|cs| - 1] && (i < n ==> cs[n] !in v))
  {
    var b := s.broadcasts[k];
    var v := RemovalThenFinish(s, k, i);
    SplicedIsSnapshot(b.snapshot, |b.visited|, i);
  }

  lemma RemovedCells(s: State, cs: seq<Client>, i: nat)
    requires Valid(s) && cs == Registered(s) && Distinct(cs) && i < |cs|
    ensures var cells := DoUnregister(s, cs[i]).arrays[s.current.arr];
      && |cs| <= |cells|
      && AllSet(cells[..|cs|]) && Values(cells[..|cs|]) == Shifted(cs, i)
  {
    var cells := s.arrays[s.current.arr];
    assert forall j :: 0 <= j < |cs| ==> cells[..|cs|][j] == Some(cs[j]);
    assert IndexOf(cells[..|cs|], cs[i]) == i;
    ShiftedValues(cells, cs, i);
  }

  lemma ShiftedValues(cells: seq<Option<Client>>, cs: seq<Client>, i: nat)
    requires i < |cs| <= |cells| && forall j :: 0 <= j < |cs| ==> cells[j] == Some(cs[j])
    ensures |Shift(cells, i, |cs|)| == |cells|
    ensures AllSet(Shift(cells, i, |cs|)[..|cs|]) && Values(Shift(cells, i, |cs|)[..|cs|]) == Shifted(cs, i)
  {
    ShiftCells(cells, i, |cs|);
  }

  // ----- Any steps in the middle of a broadcast -----

  // What a step writes into a cell of an array that is already there.
  function Wrote(s: State, step: Step, a: nat, j: nat): Option<Client>
    requires Valid(s) && a < |s.arrays| && j < |s.arrays[a]|
  {
    match step
    case Register(c, _) =>
      if a == s.current.arr && j == s.current.len then Some(c) else None
    case Unregister(c) =>
      var n := s.current.len;
      if a == s.current.arr && IndexOf(s.arrays[a][..n], c) <= j < n - 1 then s.arrays[a][..n][j + 1] else None
    case _ => None
  }

  lemma CellStep(s: State, step: Step, a: nat, j: nat)
    requires Valid(s) && Enabled(s, step) && a < |s.arrays| && j < |s.arrays[a]|
    ensures a < |Do(s, step).arrays| && |Do(s, step).arrays[a]| == |s.arrays[a]|
    ensures Do(s, step).arrays[a][j] == if Wrote(s, step, a, j).Some? then Wrote(s, step, a, j) else s.arrays[a][j]
  {
    if step.Unregister? {
      var n := s.current.len;
      var cells := s.arrays[s.current.arr];
      var i := IndexOf(cells[..n], step.c);
      if i < n {
        ShiftCells(cells, i, n);
      }
    }
  }

  // The last value a run writes into the cell, if it writes there at all.
  ghost function LastWrite(s: State, steps: seq<Step>, a: nat, j: nat): Option<Client>
    requires Valid(s) && IsRun(s, steps) && a < |s.arrays| && j < |s.arrays[a]|
    decreases |steps|
  {
    if steps == [] then None
    else
      StepKeepsValid(s, steps[0]);
      CellStep(s, steps[0], a, j);
      var later := LastWrite(Do(s, steps[0]), steps[1..], a, j);
      if later.Some? then later else Wrote(s, steps[0], a, j)
  }

  lemma {:induction false} CellAfter(s: State, steps: seq<Step>, a: nat, j: nat)
    requires Valid(s) && IsRun(s, steps) && a < |s.arrays| && j < |s.arrays[a]|
    ensures a < |End(s, steps).arrays| && |End(s, steps).arrays[a]| == |s.arrays[a]|
    ensures var last := LastWrite(s, steps, a, j);
      End(s, steps).arrays[a][j] == if last.Some? then last else s.arrays[a][j]
    decreases |steps|
  {
    if steps != [] {
      StepKeepsValid(s, steps[0]);
      CellStep(s, steps[0], a, j);
      CellAfter(Do(s, steps[0]), steps[1..], a, j);
    }
  }

  lemma {:induction false} BroadcastStays(s: State, steps: seq<Step>, k: nat)
    requires Valid(s) && IsRun(s, steps) && k < |s.broadcasts|
    ensures k < |End(s, steps).broadcasts|
    ensures var b, c := s.broadcasts[k], End(s, steps).broadcasts[k];
      c.slice == b.slice && c.snapshot == b.snapshot && b.visited <= c.visited
    decreases |steps|
  {
    if steps != [] {
      StepKeepsValid(s, steps[0]);
      BroadcastStays(Do(s, steps[0]), steps[1..], k);
    }
  }

  lemma {:induction false} RunSplit(s: State, steps: seq<Step>, n: nat)
    requires Valid(s) && IsRun(s, steps) && n <= |steps|
    ensures IsRun(s, steps[..n])
    ensures IsRun(End(s, steps[..n]), steps[n..])
    ensures End(s, steps) == End(End(s, steps[..n]), steps[n..])
    decreases |steps|
  {
    if n == 0 {
      assert steps[..0] == [] && steps[0..] == steps;
    } else {
      StepKeepsValid(s, steps[0]);
      RunSplit(Do(s, steps[0]), steps[1..], n - 1);
      assert steps[..n][0] == steps[0] && steps[..n][1..] == steps[1..][..n - 1];
      assert steps[1..][n - 1..] == steps[n..];
    }
  }

  // A visit reads the snapshot's client if and only if its cell was not overwritten with another client since the
  // broadcast began.
  lemma NextVisitAgreesExactly(s: State, k: nat, steps: seq<Step>)
    requires Valid(s) && k < |s.broadcasts| && StableBroadcast(s, s.broadcasts[k]) && IsRun(s, steps)
    requires Enabled(End(s, steps), Visit(k))
    ensures var b, t := s.broadcasts[k], End(s, steps);
      && k < |t.broadcasts|
      && var j := |t.broadcasts[k].visited|;
      && j < |b.snapshot| && b.slice.arr < |s.arrays| && j < |s.arrays[b.slice.arr]|
      && var v := DoVisit(t, k).broadcasts[k].visited;
      && |v| == j + 1
      && (v[j] == b.snapshot[j] <==> LastWrite(s, steps, b.slice.arr, j) in {None, Some(b.snapshot[j])})
  {
    BroadcastStays(s, steps, k);
    var b, t := s.broadcasts[k], End(s, steps);
    assert ValidBroadcast(s, b) && ValidBroadcast(t, t.broadcasts[k]);
    var a, j := b.slice.arr, |t.broadcasts[k].visited|;
    CellAfter(s, steps, a, j);
    assert s.arrays[a][..b.slice.len][j] == s.arrays[a][j] == Some(b.snapshot[j]) by {
      assert Values(s.arrays[a][..b.slice.len])[j] == b.snapshot[j];
    }
    assert t.arrays[a][..b.slice.len][j] == t.arrays[a][j];
  }

  // Whatever steps follow the beginning of a broadcast, registrations, removals and visits of others included, each of
  // its visits reads the client of its snapshot if and only if the visit's cell was not overwritten with another client
  // in between.
  lemma EveryVisitAgreesExactly(s: State, steps: seq<Step>, n: nat)
    requires Valid(s) && IsRun(DoBegin(s), steps) && n < |steps| && steps[n] == Visit(|s.broadcasts|)
    ensures var k, t := |s.broadcasts|, DoBegin(s);
      && IsRun(t, steps[..n]) && k < |End(t, steps[..n]).broadcasts| && k < |End(t, steps).broadcasts|
      && var j, v := |End(t, steps[..n]).broadcasts[k].visited|, End(t, steps).broadcasts[k].visited;
      && j < |v| && j < |Registered(s)| && j < |t.arrays[s.current.arr]|
      && (v[j] == Registered(s)[j] <==>
            LastWrite(t, steps[..n], s.current.arr, j) in {None, Some(Registered(s)[j])})
  {
    var k, t := |s.broadcasts|, DoBegin(s);
    BeginKeepsValid(s);
    RunSplit(t, steps, n);
    BroadcastStays(t, steps[..n], k);
    var u, rest := End(t, steps[..n]), steps[n..];
    assert rest[0] == Visit(k);
    NextVisitAgreesExactly(t, k, steps[..n]);
    VisitKeepsValid(u, k);
    BroadcastStays(Do(u, rest[0]), rest[1..], k);
  }
}
