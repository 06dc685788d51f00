// One multiplexed event stream: several subscriptions, each with its own filter, bounded buffer and forwarder, fanned
// into one bounded buffer that a single writer drains. Any interleaving of the visits of broadcasts, the forwarders and
// the writer is a run.
module MultiClient {
  import opened Wrappers
  import H = Hub

  type Payload = H.Payload

  // A published event, as the broadcast parsed it.
  datatype Event = Event(channel: string, payload: Payload, data: H.Data)

  datatype Tagged = Tagged(eventType: string, data: Payload)

  const BUFFER: nat := 32

  // An event that passed the filter was buffered, or was dropped.
  datatype Arrival = Arrival(data: Payload, accepted: bool)

  datatype Entry = Entry(sub: H.MultiEntry, arrivals: seq<Arrival>, queue: seq<Payload>, held: Option<Payload>,
                         exited: bool)

  // `lost` is the event whose write failed, if one did; the writer returns then.
  datatype State = State(entries: seq<Entry>, send: seq<Tagged>, written: seq<Tagged>, lost: seq<Tagged>,
                         serving: bool, done: bool)

  datatype Step =
    | Visit(i: nat, event: Event)
    | Take(i: nat)
    | Put(i: nat)
    | Exit(i: nat)
    | Write
    | WriteFails
    | StopServing
    | Close

  function NewEntry(sub: H.MultiEntry): Entry {
    Entry(sub, [], [], None, false)
  }

  function Start(subs: seq<H.MultiEntry>): State {
    State(seq(|subs|, i requires 0 <= i < |subs| => NewEntry(subs[i])), [], [], [], true, false)
  }

  // A broadcast visits the subscriptions on its channel and never waits. A forwarder receives when its buffer has
  // something and sends when the shared buffer has room; at either of its two waits it may also see Done. Done is
  // closed only after the writer has returned.
  predicate Enabled(s: State, step: Step) {
    match step
    case Visit(i, event) => i < |s.entries| && s.entries[i].sub.channel == event.channel
    case Take(i) => i < |s.entries| && !s.entries[i].exited && s.entries[i].held == None && s.entries[i].queue != []
    case Put(i) => i < |s.entries| && !s.entries[i].exited && s.entries[i].held.Some? && |s.send| < BUFFER
    case Exit(i) => i < |s.entries| && !s.entries[i].exited && s.done
    case Write => s.serving && s.send != []
    case WriteFails => s.serving && s.send != []
    case StopServing => s.serving
    case Close => !s.serving && !s.done
  }

  // A subscription visited: an event its filter turns down leaves no trace.
  function Visited(e: Entry, event: Event): Entry {
    if !e.sub.filterFunc(event.data) then e
    else
      var room := |e.queue| < BUFFER;
      e.(arrivals := e.arrivals + [Arrival(event.payload, room)],
         queue := if room then e.queue + [event.payload] else e.queue)
  }

  function Do(s: State, step: Step): State
    requires Enabled(s, step)
  {
    match step
    case Visit(i, event) => s.(entries := s.entries[i := Visited(s.entries[i], event)])
    case Take(i) =>
      var e := s.entries[i];
      s.(entries := s.entries[i := e.(held := Some(e.queue[0]), queue := e.queue[1..])])
    case Put(i) =>
      var e := s.entries[i];
      s.(entries := s.entries[i := e.(held := None)], send := s.send + [Tagged(e.sub.eventType, e.held.value)])
    case Exit(i) => s.(entries := s.entries[i := s.entries[i].(exited := true)])
    case Write => s.(written := s.written + [s.send[0]], send := s.send[1..])
    case WriteFails => s.(lost := s.lost + [s.send[0]], send := s.send[1..], serving := false)
    case StopServing => s.(serving := false)
    case Close => s.(done := true)
  }

  // ----- Runs -----

  ghost predicate IsRun(s: State, steps: seq<Step>)
    decreases |steps|, 0
  {
    steps == [] ||
    var n := |steps| - 1;
    IsRun(s, steps[..n]) && Enabled(End(s, steps[..n]), steps[n])
  }

  ghost function End(s: State, steps: seq<Step>): State
    requires IsRun(s, steps)
    decreases |steps|, 1
  {
    if steps == [] then s
    else
      var n := |steps| - 1;
      Do(End(s, steps[..n]), steps[n])
  }

  // When a run can go on: a broadcast may visit any subscription on its channel; a forwarder that has not left receives
  // if it holds nothing and something is queued, sends if it holds something and there is room for 32 in the shared
  // buffer, and leaves after Done; the writer takes what is there until it stops, and Done comes after that.
  lemma RunsGoOn(s: State, steps: seq<Step>, step: Step)
    requires IsRun(s, steps)
    ensures IsRun(s, steps + [step]) <==>
      var t := End(s, steps);
      match step
      case Visit(i, event) => i < |t.entries| && t.entries[i].sub.channel == event.channel
      case Take(i) => i < |t.entries| && !t.entries[i].exited && t.entries[i].held.None? && |t.entries[i].queue| > 0
      case Put(i) => i < |t.entries| && !t.entries[i].exited && t.entries[i].held.Some? && |t.send| < 32
      case Exit(i) => i < |t.entries| && !t.entries[i].exited && t.done
      case Write => t.serving && |t.send| > 0
      case WriteFails => t.serving && |t.send| > 0
      case StopServing => t.serving
      case Close => !t.serving && !t.done
    ensures IsRun(s, steps + [step]) ==>
      Enabled(End(s, steps), step) && End(s, steps + [step]) == Do(End(s, steps), step)
  {
    assert (steps + [step])[..|steps|] == steps;
  }

  // ----- Nothing is lost, repeated or reordered on the way -----

  function Accepted(arrivals: seq<Arrival>): seq<Payload> {
    if arrivals == [] then []
    else
      var n := |arrivals| - 1;
      Accepted(arrivals[..n]) + (if arrivals[n].accepted then [arrivals[n].data] else [])
  }

  function WithTag(events: seq<Tagged>, eventType: string): seq<Payload> {
    if events == [] then []
    else
      var n := |events| - 1;
      WithTag(events[..n], eventType) + (if events[n].eventType == eventType then [events[n].data] else [])
  }

  function Held(e: Entry): seq<Payload> {
    match e.held case Some(p) => [p] case None => []
  }

  // Everything the writer has taken out of the shared buffer, in order: what it wrote, then what it failed to write.
  function Taken(s: State): seq<Tagged> {
    s.written + s.lost
  }

  function OnTheWay(s: State, e: Entry): seq<Payload> {
    WithTag(Taken(s), e.sub.eventType) + WithTag(s.send, e.sub.eventType) + Held(e) + e.queue
  }

  ghost predicate Conserved(s: State) {
    forall i :: 0 <= i < |s.entries| ==> Accepted(s.entries[i].arrivals) == OnTheWay(s, s.entries[i])
  }

  ghost predicate DistinctTags(s: State) {
    forall i, j :: 0 <= i < j < |s.entries| ==> s.entries[i].sub.eventType != s.entries[j].sub.eventType
  }

  predicate Bounded(s: State) {
    && |s.send| <= BUFFER
    && (forall i :: 0 <= i < |s.entries| ==> |s.entries[i].queue| <= BUFFER)
    && (s.serving ==> s.lost == [] && !s.done)
  }

  ghost predicate Good(s: State) {
    Conserved(s) && DistinctTags(s) && Bounded(s)
  }

  lemma OneMoreArrival(arrivals: seq<Arrival>, a: Arrival)
    ensures Accepted(arrivals + [a]) == Accepted(arrivals) + (if a.accepted then [a.data] else [])
  {
    assert (arrivals + [a])[..|arrivals|] == arrivals;
  }

  lemma OneMoreTagged(events: seq<Tagged>, t: Tagged, eventType: string)
    ensures WithTag(events + [t], eventType)
      == WithTag(events, eventType) + (if t.eventType == eventType then [t.data] else [])
  {
    assert (events + [t])[..|events|] == events;
  }

  lemma {:induction false} FirstTagged(events: seq<Tagged>, eventType: string)
    requires events != []
    ensures WithTag(events, eventType) == WithTag([events[0]], eventType) + WithTag(events[1..], eventType)
    decreases |events|
  {
    var n := |events| - 1;
    if n > 0 {
      FirstTagged(events[..n], eventType);
      assert events[..n][1..] == events[1..][..n - 1];
      assert events[..n][0] == events[0];
    } else {
      assert events == [events[0]];
      assert events[1..] == [];
    }
  }

  lemma VisitKeeps(s: State, i: nat, event: Event)
    requires Good(s) && Enabled(s, Visit(i, event))
    ensures Good(Do(s, Visit(i, event)))
  {
    var s' := Do(s, Visit(i, event));
    forall j | 0 <= j < |s.entries| ensures Accepted(s'.entries[j].arrivals) == OnTheWay(s', s'.entries[j]) {
      assert Accepted(s.entries[j].arrivals) == OnTheWay(s, s.entries[j]);
      if j == i {
        VisitConserves(s, s', s.entries[i], event);
      }
    }
  }

  lemma VisitConserves(s: State, s': State, e: Entry, event: Event)
    requires Accepted(e.arrivals) == OnTheWay(s, e) && Taken(s') == Taken(s) && s'.send == s.send
    ensures Accepted(Visited(e, event).arrivals) == OnTheWay(s', Visited(e, event))
  {
    OneMoreArrival(e.arrivals, Arrival(event.payload, |e.queue| < BUFFER));
  }

  lemma TakeMovesFirst(s: State, i: nat, j: nat)
    requires Good(s) && Enabled(s, Take(i)) && j < |s.entries|
    ensures OnTheWay(Do(s, Take(i)), Do(s, Take(i)).entries[j]) == OnTheWay(s, s.entries[j])
  {
    var e := s.entries[i];
    MoveFirst(WithTag(Taken(s), e.sub.eventType) + WithTag(s.send, e.sub.eventType), e.queue);
  }

  lemma TakeKeeps(s: State, i: nat)
    requires Good(s) && Enabled(s, Take(i))
    ensures Good(Do(s, Take(i)))
  {
    var s' := Do(s, Take(i));
    forall j | 0 <= j < |s.entries| ensures OnTheWay(s', s'.entries[j]) == OnTheWay(s, s.entries[j]) {
      TakeMovesFirst(s, i, j);
    }
  }

  lemma MoveFirst(before: seq<Payload>, queue: seq<Payload>)
    requires queue != []
    ensures before + [] + queue == before + [queue[0]] + queue[1..]
  {
  }

  // What a forwarder sends leaves its hand and joins the shared buffer; other tags do not see it.
  lemma SendMovesHeld(s: State, s': State, e: Entry, e': Entry, t: Tagged)
    requires Taken(s') == Taken(s) && s'.send == s.send + [t]
    requires e'.sub.eventType == e.sub.eventType && e'.queue == e.queue
    requires if t.eventType == e.sub.eventType then e.held == Some(t.data) && e'.held == None else e'.held == e.held
    ensures OnTheWay(s', e') == OnTheWay(s, e)
  {
    OneMoreTagged(s.send, t, e.sub.eventType);
  }

  lemma PutMovesHeld(s: State, i: nat, j: nat)
    requires Good(s) && Enabled(s, Put(i)) && j < |s.entries|
    ensures OnTheWay(Do(s, Put(i)), Do(s, Put(i)).entries[j]) == OnTheWay(s, s.entries[j])
  {
    var s' := Do(s, Put(i));
    var t := Tagged(s.entries[i].sub.eventType, s.entries[i].held.value);
    SendMovesHeld(s, s', s.entries[j], s'.entries[j], t);
  }

  lemma PutKeeps(s: State, i: nat)
    requires Good(s) && Enabled(s, Put(i))
    ensures Good(Do(s, Put(i)))
  {
    var s' := Do(s, Put(i));
    forall j | 0 <= j < |s.entries| ensures OnTheWay(s', s'.entries[j]) == OnTheWay(s, s.entries[j]) {
      PutMovesHeld(s, i, j);
    }
  }

  // The writer, successful or not, moves the head of the shared buffer to the end of what was taken.
  lemma WriterMovesHead(s: State, s': State, e: Entry)
    requires s.send != []
    requires Taken(s') == Taken(s) + [s.send[0]] && s'.send == s.send[1..]
    ensures OnTheWay(s', e) == OnTheWay(s, e)
  {
    var t := s.send[0];
    OneMoreTagged(Taken(s), t, e.sub.eventType);
    OneMoreTagged([], t, e.sub.eventType);
    assert [] + [t] == [t];
    FirstTagged(s.send, e.sub.eventType);
    assert WithTag(Taken(s'), e.sub.eventType) + WithTag(s'.send, e.sub.eventType)
        == WithTag(Taken(s), e.sub.eventType) + WithTag(s.send, e.sub.eventType);
  }

  lemma WriterKeeps(s: State, step: Step)
    requires Good(s) && Enabled(s, step) && (step.Write? || step.WriteFails?)
    ensures Good(Do(s, step))
  {
    var s' := Do(s, step);
    assert Taken(s') == Taken(s) + [s.send[0]];
    forall j | 0 <= j < |s.entries| ensures OnTheWay(s', s'.entries[j]) == OnTheWay(s, s.entries[j]) {
      WriterMovesHead(s, s', s.entries[j]);
    }
  }

  lemma StepKeeps(s: State, step: Step)
    requires Good(s) && Enabled(s, step)
    ensures Good(Do(s, step))
  {
    match step {
      case Visit(i, event) => VisitKeeps(s, i, event);
      case Take(i) => TakeKeeps(s, i);
      case Put(i) => PutKeeps(s, i);
      case Write => WriterKeeps(s, step);
      case WriteFails => WriterKeeps(s, step);
      case _ =>
    }
  }

  lemma {:induction false} RunKeeps(s: State, steps: seq<Step>)
    requires Good(s) && IsRun(s, steps)
    ensures Good(End(s, steps))
    decreases |steps|
  {
    if steps != [] {
      var n := |steps| - 1;
      RunKeeps(s, steps[..n]);
      StepKeeps(End(s, steps[..n]), steps[n]);
    }
  }

  predicate TagsDiffer(subs: seq<H.MultiEntry>) {
    forall i, j :: 0 <= i < j < |subs| ==> subs[i].eventType != subs[j].eventType
  }

  // Over every interleaving, for every subscription of a stream whose event types differ: written, then waiting in
  // the shared buffer, then held by the forwarder, then waiting in its own buffer, are together the accepted events
  // in order. What is accepted and not yet taken by the writer is at most two full buffers and one.
  lemma EveryInterleavingConserves(subs: seq<H.MultiEntry>, steps: seq<Step>)
    requires TagsDiffer(subs) && IsRun(Start(subs), steps)
    ensures Conserved(End(Start(subs), steps))
    ensures var s := End(Start(subs), steps);
      forall i :: 0 <= i < |s.entries| ==>
        |Accepted(s.entries[i].arrivals)| <= |WithTag(Taken(s), s.entries[i].sub.eventType)| + 2 * BUFFER + 1
  {
    RunKeeps(Start(subs), steps);
    var s := End(Start(subs), steps);
    forall i | 0 <= i < |s.entries|
      ensures |Accepted(s.entries[i].arrivals)| <= |WithTag(Taken(s), s.entries[i].sub.eventType)| + 2 * BUFFER + 1
    {
      TagSelects(s.send, s.entries[i].sub.eventType);
    }
  }

  lemma {:induction false} TagSelects(events: seq<Tagged>, eventType: string)
    ensures |WithTag(events, eventType)| <= |events|
    decreases |events|
  {
    if events != [] {
      TagSelects(events[..|events| - 1], eventType);
    }
  }

  // ----- Every matching event arrives, and is dropped only by a full buffer -----

  predicate Matches(subs: seq<H.MultiEntry>, i: nat, step: Step)
    requires i < |subs|
  {
    step.Visit? && step.i == i && subs[i].filterFunc(step.event.data)
  }

  // The payloads of a run's visits to subscription `i` that its filter accepts, in order.
  function Matching(subs: seq<H.MultiEntry>, i: nat, steps: seq<Step>): seq<Payload>
    requires i < |subs|
  {
    if steps == [] then []
    else
      var n := |steps| - 1;
      Matching(subs, i, steps[..n]) + (if Matches(subs, i, steps[n]) then [steps[n].event.payload] else [])
  }

  function Payloads(arrivals: seq<Arrival>): seq<Payload> {
    seq(|arrivals|, k requires 0 <= k < |arrivals| => arrivals[k].data)
  }

  function Dropped(arrivals: seq<Arrival>): nat {
    if arrivals == [] then 0
    else Dropped(arrivals[..|arrivals| - 1]) + (if arrivals[|arrivals| - 1].accepted then 0 else 1)
  }

  lemma {:induction false} AcceptedPlusDropped(arrivals: seq<Arrival>)
    ensures |arrivals| == |Accepted(arrivals)| + Dropped(arrivals)
    decreases |arrivals|
  {
    if arrivals != [] {
      AcceptedPlusDropped(arrivals[..|arrivals| - 1]);
    }
  }

  lemma {:induction false} EntriesStay(subs: seq<H.MultiEntry>, steps: seq<Step>, i: nat)
    requires IsRun(Start(subs), steps) && i < |subs|
    ensures |End(Start(subs), steps).entries| == |subs| && End(Start(subs), steps).entries[i].sub == subs[i]
    decreases |steps|
  {
    if steps != [] {
      EntriesStay(subs, steps[..|steps| - 1], i);
    }
  }

  ghost function ArrivalsOf(subs: seq<H.MultiEntry>, steps: seq<Step>, i: nat): seq<Arrival>
    requires IsRun(Start(subs), steps) && i < |subs|
  {
    EntriesStay(subs, steps, i);
    End(Start(subs), steps).entries[i].arrivals
  }

  ghost function QueuedAt(subs: seq<H.MultiEntry>, steps: seq<Step>, i: nat): seq<Payload>
    requires IsRun(Start(subs), steps) && i < |subs|
  {
    EntriesStay(subs, steps, i);
    End(Start(subs), steps).entries[i].queue
  }

  lemma ArrivalsStep(subs: seq<H.MultiEntry>, steps: seq<Step>, i: nat)
    requires IsRun(Start(subs), steps) && i < |subs| && steps != []
    ensures var n := |steps| - 1;
      ArrivalsOf(subs, steps, i) == ArrivalsOf(subs, steps[..n], i)
        + (if Matches(subs, i, steps[n])
           then [Arrival(steps[n].event.payload, |QueuedAt(subs, steps[..n], i)| < BUFFER)] else [])
  {
    EntriesStay(subs, steps[..|steps| - 1], i);
  }

  // Over every run, what arrives at a subscription are, in order, exactly the visited events that its filter accepts;
  // each of them is accepted or dropped.
  lemma {:induction false} ArrivalsAreTheMatchingEvents(subs: seq<H.MultiEntry>, steps: seq<Step>, i: nat)
    requires IsRun(Start(subs), steps) && i < |subs|
    ensures Payloads(ArrivalsOf(subs, steps, i)) == Matching(subs, i, steps)
    ensures |Matching(subs, i, steps)|
      == |Accepted(ArrivalsOf(subs, steps, i))| + Dropped(ArrivalsOf(subs, steps, i))
    decreases |steps|
  {
    if steps != [] {
      ArrivalsAreTheMatchingEvents(subs, steps[..|steps| - 1], i);
      ArrivalsStep(subs, steps, i);
    }
    AcceptedPlusDropped(ArrivalsOf(subs, steps, i));
  }

  lemma {:induction false} RunPrefix(s: State, steps: seq<Step>, n: nat)
    requires IsRun(s, steps) && n <= |steps|
    ensures IsRun(s, steps[..n])
    decreases |steps|
  {
    if n < |steps| {
      var init := steps[..|steps| - 1];
      RunPrefix(s, init, n);
      assert init[..n] == steps[..n];
    } else {
      assert steps[..n] == steps;
    }
  }

  lemma {:induction false} ArrivalsOnlyGrow(subs: seq<H.MultiEntry>, steps: seq<Step>, i: nat, n: nat)
    requires IsRun(Start(subs), steps) && i < |subs| && n <= |steps| && IsRun(Start(subs), steps[..n])
    ensures ArrivalsOf(subs, steps[..n], i) <= ArrivalsOf(subs, steps, i)
    decreases |steps|
  {
    if n < |steps| {
      var init := steps[..|steps| - 1];
      assert init[..n] == steps[..n];
      ArrivalsOnlyGrow(subs, init, i, n);
      ArrivalsStep(subs, steps, i);
    } else {
      assert steps[..n] == steps;
    }
  }

  // Over every run, the event a visit offers arrives in its turn, and is dropped if and only if 32 events were queued
  // at that moment.
  lemma DroppedExactlyWhenFull(subs: seq<H.MultiEntry>, steps: seq<Step>, i: nat, n: nat)
    requires TagsDiffer(subs) && IsRun(Start(subs), steps) && i < |subs| && n < |steps|
    requires Matches(subs, i, steps[n])
    ensures IsRun(Start(subs), steps[..n])
    ensures var m := |Matching(subs, i, steps[..n])|;
      && m < |ArrivalsOf(subs, steps, i)|
      && ArrivalsOf(subs, steps, i)[m].data == steps[n].event.payload
      && (!ArrivalsOf(subs, steps, i)[m].accepted <==> |QueuedAt(subs, steps[..n], i)| == 32)
  {
    RunPrefix(Start(subs), steps, n);
    RunPrefix(Start(subs), steps, n + 1);
    assert steps[..n + 1][..n] == steps[..n];
    ArrivalsAreTheMatchingEvents(subs, steps[..n], i);
    ArrivalsStep(subs, steps[..n + 1], i);
    ArrivalsOnlyGrow(subs, steps, i, n + 1);
    QueueIsBounded(subs, steps[..n], i);
    var m := |Matching(subs, i, steps[..n])|;
    assert ArrivalsOf(subs, steps, i)[m] == ArrivalsOf(subs, steps[..n + 1], i)[m];
  }

  lemma QueueIsBounded(subs: seq<H.MultiEntry>, steps: seq<Step>, i: nat)
    requires TagsDiffer(subs) && IsRun(Start(subs), steps) && i < |subs|
    ensures |QueuedAt(subs, steps, i)| <= BUFFER
  {
    RunKeeps(Start(subs), steps);
    EntriesStay(subs, steps, i);
  }

  // ----- The stream of one user -----

  // The direct messages among the events of a run's visits that are for the user: one of the members prints as the id.
  function MessagesFor(show: H.Json -> string, userID: string, steps: seq<Step>): seq<Payload> {
    if steps == [] then []
    else
      var last := steps[|steps| - 1];
      MessagesFor(show, userID, steps[..|steps| - 1])
      + (if last.Visit? && last.event.channel == "dm_changes"
            && "member_ids" in last.event.data && last.event.data["member_ids"].Arr?
            && exists k :: 0 <= k < |last.event.data["member_ids"].items|
                           && show(last.event.data["member_ids"].items[k]) == userID
         then [last.event.payload] else [])
  }

  // The notifications for the user: the field, or null if it is missing, prints as the id.
  function NotificationsFor(show: H.Json -> string, userID: string, steps: seq<Step>): seq<Payload> {
    if steps == [] then []
    else
      var last := steps[|steps| - 1];
      NotificationsFor(show, userID, steps[..|steps| - 1])
      + (if last.Visit? && last.event.channel == "forumline_notification_changes"
            && (if "user_id" in last.event.data then show(last.event.data["user_id"]) else show(H.Null)) == userID
         then [last.event.payload] else [])
  }

  // The call signals for the user: the target is the id.
  function CallsFor(userID: string, steps: seq<Step>): seq<Payload> {
    if steps == [] then []
    else
      var last := steps[|steps| - 1];
      CallsFor(userID, steps[..|steps| - 1])
      + (if last.Visit? && last.event.channel == "call_signal"
            && "target_user_id" in last.event.data && last.event.data["target_user_id"] == H.Str(userID)
         then [last.event.payload] else [])
  }

  // On the stream of a user, over all interleavings: nothing is lost, repeated or reordered on the way, and what
  // arrives are exactly the direct messages, notifications and call signals for the user, each under its own tag.
  lemma StreamOfOneUser(show: H.Json -> string, userID: string, steps: seq<Step>)
    requires userID != "" && IsRun(Start(H.StreamEntries(show, userID)), steps)
    ensures Conserved(End(Start(H.StreamEntries(show, userID)), steps))
    ensures var s := End(Start(H.StreamEntries(show, userID)), steps);
      && |s.entries| == 3
      && s.entries[0].sub.eventType == "dm"
      && s.entries[1].sub.eventType == "notification"
      && s.entries[2].sub.eventType == "call"
      && Payloads(s.entries[0].arrivals) == MessagesFor(show, userID, steps)
      && Payloads(s.entries[1].arrivals) == NotificationsFor(show, userID, steps)
      && Payloads(s.entries[2].arrivals) == CallsFor(userID, steps)
  {
    var subs := H.StreamEntries(show, userID);
    H.StreamTagsDiffer(show, userID);
    EveryInterleavingConserves(subs, steps);
    MatchingForUser(show, userID, steps);
    ArrivalsAt(subs, steps, 0);
    ArrivalsAt(subs, steps, 1);
    ArrivalsAt(subs, steps, 2);
    assert subs[0].eventType == "dm" && subs[1].eventType == "notification" && subs[2].eventType == "call";
  }

  lemma ArrivalsAt(subs: seq<H.MultiEntry>, steps: seq<Step>, i: nat)
    requires IsRun(Start(subs), steps) && i < |subs|
    ensures var s := End(Start(subs), steps);
      && |s.entries| == |subs| && s.entries[i].sub == subs[i]
      && Payloads(s.entries[i].arrivals) == Matching(subs, i, steps)
  {
    EntriesStay(subs, steps, i);
    ArrivalsAreTheMatchingEvents(subs, steps, i);
  }

  lemma {:induction false} MatchingForUser(show: H.Json -> string, userID: string, steps: seq<Step>)
    requires userID != "" && IsRun(Start(H.StreamEntries(show, userID)), steps)
    ensures var subs := H.StreamEntries(show, userID);
      && Matching(subs, 0, steps) == MessagesFor(show, userID, steps)
      && Matching(subs, 1, steps) == NotificationsFor(show, userID, steps)
      && Matching(subs, 2, steps) == CallsFor(userID, steps)
    decreases |steps|
  {
    if steps != [] {
      var n := |steps| - 1;
      MatchingForUser(show, userID, steps[..n]);
      if steps[n].Visit? {
        var subs, i := H.StreamEntries(show, userID), steps[n].i;
        EntriesStay(subs, steps[..n], 0);
        EntriesStay(subs, steps[..n], i);
        assert subs[i].channel == steps[n].event.channel;
        OneVisitForUser(show, userID, i, steps[n].event);
      }
    }
  }

  lemma OneVisitForUser(show: H.Json -> string, userID: string, i: nat, event: Event)
    requires userID != "" && i < 3 && H.StreamEntries(show, userID)[i].channel == event.channel
    ensures var subs, data := H.StreamEntries(show, userID), event.data;
      && (i == 0 && subs[0].filterFunc(data) <==>
            event.channel == "dm_changes" && "member_ids" in data && data["member_ids"].Arr?
            && exists k :: 0 <= k < |data["member_ids"].items| && show(data["member_ids"].items[k]) == userID)
      && (i == 1 && subs[1].filterFunc(data) <==>
            event.channel == "forumline_notification_changes"
            && (if "user_id" in data then show(data["user_id"]) else show(H.Null)) == userID)
      && (i == 2 && subs[2].filterFunc(data) <==>
            event.channel == "call_signal" && "target_user_id" in data && data["target_user_id"] == H.Str(userID))
  {
    H.StreamTagsDiffer(show, userID);
    H.CallFilterIsTheTarget(userID, event.data);
  }

  // ----- Everything accepted can be written -----

  // Steps still to make until an event is written: out of its queue, into the shared buffer, and out of that.
  function Waiting(e: Entry): nat {
    3 * |e.queue| + 2 * |Held(e)|
  }

  function AllWaiting(entries: seq<Entry>): nat {
    if entries == [] then 0 else Waiting(entries[0]) + AllWaiting(entries[1..])
  }

  lemma {:induction false} WaitingOfOne(entries: seq<Entry>, i: nat, e: Entry)
    requires i < |entries|
    ensures AllWaiting(entries[i := e]) + Waiting(entries[i]) == AllWaiting(entries) + Waiting(e)
    decreases |entries|
  {
    if i > 0 {
      WaitingOfOne(entries[1..], i - 1, e);
      assert entries[i := e][1..] == entries[1..][i - 1 := e];
    } else {
      assert entries[0 := e][1..] == entries[1..];
    }
  }

  lemma {:induction false} SomeoneWaits(entries: seq<Entry>) returns (i: nat)
    requires AllWaiting(entries) > 0
    ensures i < |entries| && (entries[i].held.Some? || entries[i].queue != [])
    decreases |entries|
  {
    if entries[0].held.Some? || entries[0].queue != [] {
      i := 0;
    } else {
      var j := SomeoneWaits(entries[1..]);
      i := j + 1;
    }
  }

  lemma {:induction false} NobodyWaits(entries: seq<Entry>)
    requires AllWaiting(entries) == 0
    ensures forall i :: 0 <= i < |entries| ==> entries[i].held == None && entries[i].queue == []
    decreases |entries|
  {
    if entries != [] {
      NobodyWaits(entries[1..]);
      assert forall i :: 1 <= i < |entries| ==> entries[i] == entries[1..][i - 1];
    }
  }

  ghost predicate Serving(s: State) {
    s.serving && forall i :: 0 <= i < |s.entries| ==> !s.entries[i].exited
  }

  // A step that brings some event closer to the client.
  lemma NextDelivery(s: State) returns (step: Step)
    requires Serving(s) && (AllWaiting(s.entries) > 0 || s.send != [])
    ensures (step.Take? || step.Put? || step.Write?) && Enabled(s, step)
    ensures Serving(Do(s, step))
    ensures AllWaiting(Do(s, step).entries) + |Do(s, step).send| < AllWaiting(s.entries) + |s.send|
  {
    if s.send != [] {
      step := Write;
    } else {
      var i := SomeoneWaits(s.entries);
      step := if s.entries[i].held.Some? then Put(i) else Take(i);
      WaitingOfOne(s.entries, i, Do(s, step).entries[i]);
    }
  }

  lemma RunsGoOnWith(s: State, steps: seq<Step>, step: Step)
    requires IsRun(s, steps) && Enabled(End(s, steps), step)
    ensures IsRun(s, steps + [step]) && End(s, steps + [step]) == Do(End(s, steps), step)
  {
    assert (steps + [step])[..|steps|] == steps;
  }

  // While the writer serves, everything accepted can still reach the client: after some receives, sends and writes, all
  // that was accepted at a subscription has been written under its tag, in order.
  lemma {:induction false} CanBeDelivered(subs: seq<H.MultiEntry>, steps: seq<Step>) returns (all: seq<Step>)
    requires TagsDiffer(subs) && IsRun(Start(subs), steps) && Serving(End(Start(subs), steps))
    ensures IsRun(Start(subs), all) && steps <= all
    ensures forall k :: |steps| <= k < |all| ==> all[k].Take? || all[k].Put? || all[k].Write?
    ensures var s := End(Start(subs), all);
      forall i :: 0 <= i < |s.entries| ==>
        Accepted(s.entries[i].arrivals) == WithTag(s.written, s.entries[i].sub.eventType)
    decreases AllWaiting(End(Start(subs), steps).entries) + |End(Start(subs), steps).send|
  {
    var s := End(Start(subs), steps);
    if AllWaiting(s.entries) > 0 || s.send != [] {
      var step := NextDelivery(s);
      RunsGoOnWith(Start(subs), steps, step);
      all := CanBeDelivered(subs, steps + [step]);
    } else {
      all := steps;
      RunKeeps(Start(subs), steps);
      NothingWaits(s);
    }
  }

  lemma NothingWaits(s: State)
    requires Good(s) && Serving(s) && AllWaiting(s.entries) == 0 && s.send == []
    ensures forall i :: 0 <= i < |s.entries| ==>
      Accepted(s.entries[i].arrivals) == WithTag(s.written, s.entries[i].sub.eventType)
  {
    NobodyWaits(s.entries);
    assert Taken(s) == s.written;
    forall i | 0 <= i < |s.entries|
      ensures Accepted(s.entries[i].arrivals) == WithTag(s.written, s.entries[i].sub.eventType)
    {
      assert Accepted(s.entries[i].arrivals) == OnTheWay(s, s.entries[i]);
    }
  }

  // ----- After Done -----

  predicate IsForwarderStep(step: Step) {
    step.Take? || step.Put? || step.Exit?
  }

  // Receives and sends a forwarder can still do, plus its exit.
  function EntryWork(e: Entry): nat {
    if e.exited then 0 else 1 + 2 * |e.queue| + |Held(e)|
  }

  function Work(entries: seq<Entry>): nat {
    if entries == [] then 0 else EntryWork(entries[0]) + Work(entries[1..])
  }

  lemma {:induction false} WorkOfOne(entries: seq<Entry>, i: nat, e: Entry)
    requires i < |entries|
    ensures Work(entries[i := e]) + EntryWork(entries[i]) == Work(entries) + EntryWork(e)
    decreases |entries|
  {
    if i > 0 {
      WorkOfOne(entries[1..], i - 1, e);
      assert entries[i := e][1..] == entries[1..][i - 1 := e];
    } else {
      assert entries[0 := e][1..] == entries[1..];
    }
  }

  lemma {:induction false} NoWorkMeansAllExited(entries: seq<Entry>)
    ensures Work(entries) == 0 <==> forall i :: 0 <= i < |entries| ==> entries[i].exited
    decreases |entries|
  {
    if entries != [] {
      NoWorkMeansAllExited(entries[1..]);
      assert forall i :: 1 <= i < |entries| ==> entries[i] == entries[1..][i - 1];
    }
  }

  // Once Done is closed every forwarder leaves, whatever it holds and however full the buffers are: whichever branches
  // they take, the forwarders do no more steps than their remaining work, and can always do one more until the last of
  // them has left.
  lemma {:induction false} AfterDoneForwardersFinish(s: State, steps: seq<Step>)
    requires s.done && IsRun(s, steps)
    requires forall k :: 0 <= k < |steps| ==> IsForwarderStep(steps[k])
    ensures End(s, steps).done
    ensures |steps| + Work(End(s, steps).entries) <= Work(s.entries)
    ensures |End(s, steps).entries| == |s.entries|
    ensures (forall step :: IsForwarderStep(step) ==> !Enabled(End(s, steps), step))
            <==> (forall i :: 0 <= i < |s.entries| ==> End(s, steps).entries[i].exited)
    decreases |steps|
  {
    if steps != [] {
      var n := |steps| - 1;
      AfterDoneForwardersFinish(s, steps[..n]);
      var t := End(s, steps[..n]);
      WorkOfOne(t.entries, steps[n].i, Do(t, steps[n]).entries[steps[n].i]);
    }
    StuckMeansAllExited(End(s, steps));
  }

  lemma StuckMeansAllExited(s: State)
    requires s.done
    ensures (forall step :: IsForwarderStep(step) ==> !Enabled(s, step))
            <==> (forall i :: 0 <= i < |s.entries| ==> s.entries[i].exited)
  {
    forall i | 0 <= i < |s.entries| && !s.entries[i].exited ensures Enabled(s, Exit(i)) && IsForwarderStep(Exit(i)) {}
  }

  // At the start the writer serves, nothing is buffered and every forwarder is there.
  lemma StartsServing(subs: seq<H.MultiEntry>)
    ensures var s := Start(subs);
      && s.serving && !s.done && s.send == s.written == s.lost == []
      && |s.entries| == |subs|
      && forall i :: 0 <= i < |subs| ==>
           && s.entries[i].sub == subs[i] && !s.entries[i].exited && s.entries[i].held == None
           && |s.entries[i].arrivals| == |s.entries[i].queue| == 0
    ensures IsRun(Start(subs), []) && End(Start(subs), []) == Start(subs)
  {
  }

  // Whatever has happened, the stream can be shut down: the writer stops, Done is closed, and every forwarder leaves.
  lemma CanShutDown(s: State, steps: seq<Step>) returns (all: seq<Step>)
    requires IsRun(s, steps) && (End(s, steps).serving ==> !End(s, steps).done)
    ensures IsRun(s, all) && steps <= all
    ensures var t := End(s, all);
      !t.serving && t.done && forall i :: 0 <= i < |t.entries| ==> t.entries[i].exited
  {
    all := steps;
    if End(s, all).serving {
      RunsGoOnWith(s, all, StopServing);
      all := all + [StopServing];
    }
    if !End(s, all).done {
      RunsGoOnWith(s, all, Close);
      all := all + [Close];
    }
    all := AllLeave(s, all);
  }

  lemma {:induction false} AllLeave(s: State, steps: seq<Step>) returns (all: seq<Step>)
    requires IsRun(s, steps) && End(s, steps).done && !End(s, steps).serving
    ensures IsRun(s, all) && steps <= all && End(s, all).done && !End(s, all).serving
    ensures forall i :: 0 <= i < |End(s, all).entries| ==> End(s, all).entries[i].exited
    decreases Work(End(s, steps).entries)
  {
    var t := End(s, steps);
    NoWorkMeansAllExited(t.entries);
    if Work(t.entries) == 0 {
      all := steps;
    } else {
      var i :| 0 <= i < |t.entries| && !t.entries[i].exited;
      WorkOfOne(t.entries, i, t.entries[i].(exited := true));
      RunsGoOnWith(s, steps, Exit(i));
      all := AllLeave(s, steps + [Exit(i)]);
    }
  }
}
