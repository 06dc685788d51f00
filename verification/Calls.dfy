// The call service. Each request is one step: guards, a write, and a signal to the other party. The lemmas speak of
// every run of requests from an empty table.
module Calls {
  import opened Wrappers
  import opened CallTable

  datatype Conversation = Conversation(isGroup: bool, members: seq<string>)

  datatype SignalKind = IncomingCall | CallAccepted | CallDeclined | CallEnded

  datatype Signal = Signal(kind: SignalKind, call: nat, target: string, endedBy: Option<string>)

  datatype Error =
    | NotFound | CallInProgress | CallerBusy | CalleeBusy | InvalidAction | ProfileLookupFailed | WriteFailed

  // The push to the callee that a new call starts in the background.
  datatype Push = Push(user: string, title: string)

  datatype Answer = Calling(push: Push) | Done(status: string) | Failed(error: Error)

  datatype ProfileReply = LookupFailed | NoProfile | Found(username: string, displayName: string)

  // A request with what the outside world contributes: the clock, the conversations, a fresh id, the caller's profile,
  // and whether the request's write succeeds.
  datatype Request =
    | Initiate(now: int, conversations: map<nat, Conversation>, caller: string, conversation: nat, id: nat,
               profile: ProfileReply, writeOk: bool)
    | Respond(now: int, user: string, id: nat, action: string, writeOk: bool)
    | End(now: int, user: string, id: nat, writeOk: bool)
    | Cleanup(now: int)

  datatype State = State(calls: Table, signals: seq<Signal>)

  // The other member of a conversation between exactly two.
  function CalleeFor1to1(conversations: map<nat, Conversation>, user: string, id: nat): Option<string> {
    if id !in conversations || conversations[id].isGroup || |conversations[id].members| != 2 then None
    else
      var m := conversations[id].members;
      if m[0] == user && m[1] != user then Some(m[1])
      else if m[1] == user && m[0] != user then Some(m[0])
      else None
  }

  function EndStatus(c: Call, user: string): Status {
    if c.status == Ringing then (if user == c.caller then Cancelled else Missed) else Completed
  }

  function OtherParty(c: Call, user: string): string {
    if user == c.callee then c.caller else c.callee
  }

  function StatusText(st: Status): string {
    match st
    case Ringing => "ringing"
    case Active => "active"
    case Completed => "completed"
    case Declined => "declined"
    case Missed => "missed"
    case Cancelled => "cancelled"
  }

  function Title(profile: ProfileReply): string {
    "Incoming call from " +
    (if !profile.Found? then "Unknown" else if profile.displayName == "" then profile.username else profile.displayName)
  }

  // ----- One request -----

  function Publish(bus: bool, signals: seq<Signal>, s: Signal): seq<Signal> {
    if bus then signals + [s] else signals
  }

  function InitiateStep(bus: bool, s: State, r: Request): (State, Answer)
    requires r.Initiate?
  {
    match CalleeFor1to1(r.conversations, r.caller, r.conversation)
    case None => (s, Failed(NotFound))
    case Some(callee) =>
      if HasActiveCall(s.calls, r.conversation) then (s, Failed(CallInProgress))
      else if IsUserInCall(s.calls, r.caller) then (s, Failed(CallerBusy))
      else if IsUserInCall(s.calls, callee) then (s, Failed(CalleeBusy))
      else if !r.writeOk then (s, Failed(WriteFailed))
      else
        var calls := Apply(s.calls, Create(r.id, r.conversation, r.caller, callee), r.now);
        if r.profile.LookupFailed? then (State(calls, s.signals), Failed(ProfileLookupFailed))
        else
          (State(calls, Publish(bus, s.signals, Signal(IncomingCall, r.id, callee, None))),
           Calling(Push(callee, Title(r.profile))))
  }

  function RespondStep(bus: bool, s: State, r: Request): (State, Answer)
    requires r.Respond?
  {
    if r.action != "accept" && r.action != "decline" then (s, Failed(InvalidAction))
    else
      match GetRingingCallCaller(s.calls, r.id, r.user)
      case None => (s, Failed(NotFound))
      case Some(caller) =>
        if !r.writeOk then (s, Failed(WriteFailed))
        else
          var accept := r.action == "accept";
          var calls := Apply(s.calls, if accept then Accept(r.id) else Decline(r.id), r.now);
          var signal := Signal(if accept then CallAccepted else CallDeclined, r.id, caller, None);
          (State(calls, Publish(bus, s.signals, signal)), Done(r.action + "ed"))
  }

  function EndStep(bus: bool, s: State, r: Request): (State, Answer)
    requires r.End?
  {
    match GetCallForEnd(s.calls, r.id, r.user)
    case None => (s, Failed(NotFound))
    case Some(row) =>
      if !r.writeOk then (s, Failed(NotFound))
      else
        var st := EndStatus(row, r.user);
        var write := if row.status == Active && row.startedAt.Some? then EndWithDuration(r.id, st)
                     else EndWithoutDuration(r.id, st);
        var signal := Signal(CallEnded, r.id, OtherParty(row, r.user), Some(r.user));
        (State(Apply(s.calls, write, r.now), Publish(bus, s.signals, signal)), Done(StatusText(st)))
  }

  function Step(bus: bool, s: State, r: Request): (State, Answer) {
    match r
    case Initiate(_, _, _, _, _, _, _) => InitiateStep(bus, s, r)
    case Respond(_, _, _, _, _) => RespondStep(bus, s, r)
    case End(_, _, _, _) => EndStep(bus, s, r)
    case Cleanup(now) => (State(Apply(s.calls, CleanupStale, now), s.signals), Done("cleaned"))
  }

  // The service as the program has it: each method reads, decides, writes the table and publishes.
  class CallService {
    const bus: bool
    var calls: Table
    var signals: seq<Signal>

    constructor (bus: bool)
      ensures this.bus == bus && Contents() == State(map[], [])
    {
      this.bus := bus;
      calls := map[];
      signals := [];
    }

    function Contents(): State
      reads this
    {
      State(calls, signals)
    }

    method Send(s: Signal)
      modifies this`signals
      ensures signals == Publish(bus, old(signals), s)
    {
      if bus {
        signals := signals + [s];
      }
    }

    method InitiateCall(r: Request) returns (answer: Answer)
      requires r.Initiate?
      modifies this
      ensures (Contents(), answer) == InitiateStep(bus, old(Contents()), r)
    {
      var callee := CalleeFor1to1(r.conversations, r.caller, r.conversation);
      if callee == None {
        return Failed(NotFound);
      }
      if HasActiveCall(calls, r.conversation) {
        return Failed(CallInProgress);
      }
      if IsUserInCall(calls, r.caller) {
        return Failed(CallerBusy);
      }
      if IsUserInCall(calls, callee.value) {
        return Failed(CalleeBusy);
      }
      if !r.writeOk {
        return Failed(WriteFailed);
      }
      calls := Apply(calls, Create(r.id, r.conversation, r.caller, callee.value), r.now);
      if r.profile.LookupFailed? {
        return Failed(ProfileLookupFailed);
      }
      var displayName := "Unknown";
      if r.profile.Found? {
        displayName := r.profile.displayName;
        if displayName == "" {
          displayName := r.profile.username;
        }
      }
      Send(Signal(IncomingCall, r.id, callee.value, None));
      answer := Calling(Push(callee.value, "Incoming call from " + displayName));
    }

    method RespondToCall(r: Request) returns (answer: Answer)
      requires r.Respond?
      modifies this
      ensures (Contents(), answer) == RespondStep(bus, old(Contents()), r)
    {
      if r.action != "accept" && r.action != "decline" {
        return Failed(InvalidAction);
      }
      var caller := GetRingingCallCaller(calls, r.id, r.user);
      if caller == None {
        return Failed(NotFound);
      }
      if !r.writeOk {
        return Failed(WriteFailed);
      }
      var signalKind := CallAccepted;
      if r.action == "accept" {
        calls := Apply(calls, Accept(r.id), r.now);
      } else {
        calls := Apply(calls, Decline(r.id), r.now);
        signalKind := CallDeclined;
      }
      Send(Signal(signalKind, r.id, caller.value, None));
      answer := Done(r.action + "ed");
    }

    method EndCall(r: Request) returns (answer: Answer)
      requires r.End?
      modifies this
      ensures (Contents(), answer) == EndStep(bus, old(Contents()), r)
    {
      var found := GetCallForEnd(calls, r.id, r.user);
      if found == None {
        return Failed(NotFound);
      }
      var row := found.value;
      var newStatus := Completed;
      if row.status == Ringing {
        if r.user == row.caller {
          newStatus := Cancelled;
        } else {
          newStatus := Missed;
        }
      }
      if !r.writeOk {
        return Failed(NotFound);
      }
      if row.status == Active && row.startedAt.Some? {
        calls := Apply(calls, EndWithDuration(r.id, newStatus), r.now);
      } else {
        calls := Apply(calls, EndWithoutDuration(r.id, newStatus), r.now);
      }
      var otherUser := row.callee;
      if r.user == row.callee {
        otherUser := row.caller;
      }
      Send(Signal(CallEnded, r.id, otherUser, Some(r.user)));
      answer := Done(StatusText(newStatus));
    }

    method CleanupStaleCalls(r: Request)
      requires r.Cleanup?
      modifies this
      ensures Contents() == Step(bus, old(Contents()), r).0
    {
      calls := Apply(calls, CleanupStale, r.now);
    }
  }

  // ----- What each request does, in terms of the table alone -----

  predicate NoLiveCall(t: Table, conversation: nat) {
    forall id :: id in t && t[id].conversation == conversation ==> t[id].status !in {Ringing, Active}
  }

  predicate InNoCall(t: Table, user: string) {
    forall id :: id in t && (t[id].caller == user || t[id].callee == user) ==> t[id].status !in {Ringing, Active}
  }

  // The conversation is between the user and one other.
  predicate IsOneToOne(conversations: map<nat, Conversation>, id: nat, user: string, other: string) {
    && id in conversations && !conversations[id].isGroup && user != other
    && (conversations[id].members == [user, other] || conversations[id].members == [other, user])
  }

  lemma CalleeIsTheOther(conversations: map<nat, Conversation>, user: string, id: nat)
    ensures forall other ::
      CalleeFor1to1(conversations, user, id) == Some(other) <==> IsOneToOne(conversations, id, user, other)
    ensures CalleeFor1to1(conversations, user, id) == None ||
      IsOneToOne(conversations, id, user, CalleeFor1to1(conversations, user, id).value)
  {
    forall other
      ensures CalleeFor1to1(conversations, user, id) == Some(other) <==> IsOneToOne(conversations, id, user, other)
    {
      if id in conversations && |conversations[id].members| == 2 {
        var m := conversations[id].members;
        assert m == [m[0], m[1]];
      }
    }
  }

  lemma GuardsRead(t: Table, conversation: nat, user: string)
    ensures HasActiveCall(t, conversation) <==> !NoLiveCall(t, conversation)
    ensures IsUserInCall(t, user) <==> !InNoCall(t, user)
  {
  }

  // Starting a call succeeds if and only if the conversation is one-to-one, neither it nor either party has a call that
  // rings or runs, the row can be written and the caller's profile read. Then there is one new ringing row, and the
  // other member, if there is a bus, is told; the push goes to the same user. Any failure before the row is written
  // changes nothing.
  lemma InitiateExactly(bus: bool, s: State, r: Request, callee: string)
    requires r.Initiate? && r.id !in s.calls && IsOneToOne(r.conversations, r.conversation, r.caller, callee)
    ensures var (t, answer) := Step(bus, s, r);
      var free := NoLiveCall(s.calls, r.conversation) && InNoCall(s.calls, r.caller) && InNoCall(s.calls, callee);
      && (answer.Calling? <==> free && r.writeOk && !r.profile.LookupFailed?)
      && !answer.Done?
      && t.calls == (if free && r.writeOk
                     then s.calls[r.id := Call(r.conversation, r.caller, callee, Ringing, None, None, None)]
                     else s.calls)
      && t.signals == s.signals + (if answer.Calling? && bus then [Signal(IncomingCall, r.id, callee, None)] else [])
      && (answer.Calling? ==> answer.push.user == callee)
      && (!free ==> answer == Failed(if !NoLiveCall(s.calls, r.conversation) then CallInProgress
                                     else if !InNoCall(s.calls, r.caller) then CallerBusy else CalleeBusy))
      && (free && !r.writeOk ==> answer == Failed(WriteFailed))
      && (free && r.writeOk && r.profile.LookupFailed? ==> answer == Failed(ProfileLookupFailed))
  {
    CalleeIsTheOther(r.conversations, r.caller, r.conversation);
    GuardsRead(s.calls, r.conversation, r.caller);
    GuardsRead(s.calls, r.conversation, callee);
    if NoLiveCall(s.calls, r.conversation) && InNoCall(s.calls, r.caller) && InNoCall(s.calls, callee) && r.writeOk {
      CreateAdds(s.calls, r.id, r.conversation, r.caller, callee, r.now);
    }
  }

  lemma CreateAdds(t: Table, id: nat, conversation: nat, caller: string, callee: string, now: int)
    requires id !in t
    ensures Apply(t, Create(id, conversation, caller, callee), now)
      == t[id := Call(conversation, caller, callee, Ringing, None, None, None)]
  {
  }

  lemma InitiateElsewhere(bus: bool, s: State, r: Request)
    requires r.Initiate? && forall other :: !IsOneToOne(r.conversations, r.conversation, r.caller, other)
    ensures Step(bus, s, r) == (s, Failed(NotFound))
  {
    CalleeIsTheOther(r.conversations, r.caller, r.conversation);
  }

  // The title shows the display name, or the username if that is empty, or "Unknown" if there is no profile.
  lemma PushTitle(bus: bool, s: State, r: Request)
    requires r.Initiate? && Step(bus, s, r).1.Calling?
    ensures Step(bus, s, r).1.push.title ==
      match r.profile
      case Found(username, displayName) => "Incoming call from " + (if displayName != "" then displayName else username)
      case _ => "Incoming call from Unknown"
  {
    assert "Incoming call from " + "Unknown" == "Incoming call from Unknown";
  }

  // Answering a call succeeds if and only if the action is one of the two, the call is there and ringing, the user is
  // its callee, and the row can be written. Then the row becomes active or declined, and its caller is told. Otherwise
  // nothing changes.
  lemma RespondExactly(bus: bool, s: State, r: Request)
    requires r.Respond?
    ensures var (t, answer) := Step(bus, s, r);
      var known := r.action in {"accept", "decline"};
      var mayAnswer := r.id in s.calls && s.calls[r.id].status == Ringing && s.calls[r.id].callee == r.user;
      && (answer.Done? <==> known && mayAnswer && r.writeOk)
      && (!answer.Done? ==> t == s && answer == Failed(if !known then InvalidAction
                                                       else if !mayAnswer then NotFound else WriteFailed))
      && (answer.Done? ==>
            var c := s.calls[r.id];
            && answer.status == r.action + "ed"
            && t.calls == s.calls[r.id := if r.action == "accept" then c.(status := Active, startedAt := Some(r.now))
                                          else c.(status := Declined, endedAt := Some(r.now))]
            && t.signals == s.signals
               + (if !bus then []
                  else [Signal(if r.action == "accept" then CallAccepted else CallDeclined, r.id, c.caller, None)]))
  {
    if r.id in s.calls {
      OneRowWritten(s.calls, Accept(r.id), r.id, r.now);
      OneRowWritten(s.calls, Decline(r.id), r.id, r.now);
    }
  }

  lemma OneRowWritten(t: Table, w: Write, id: nat, now: int)
    requires id in t && !w.Create? && !w.CleanupStale? && w.id == id
    ensures Apply(t, w, now) == t[id := Rewrite(w, now, id, t[id])]
  {
  }

  // Ending a call succeeds if and only if the call rings or runs, the user is its caller or callee, and the row can be
  // written. A ringing call becomes cancelled if the caller ends it and missed if the callee does, an active one
  // completed with its duration; the other participant is told. Otherwise nothing changes.
  lemma EndExactly(bus: bool, s: State, r: Request)
    requires r.End? && Shaped(s.calls, r.now)
    ensures var (t, answer) := Step(bus, s, r);
      var mayEnd := r.id in s.calls && s.calls[r.id].status in {Ringing, Active}
                    && (s.calls[r.id].caller == r.user || s.calls[r.id].callee == r.user);
      && (answer.Done? <==> mayEnd && r.writeOk)
      && (!answer.Done? ==> t == s && answer == Failed(NotFound))
      && (answer.Done? ==>
            var c := s.calls[r.id];
            && t.calls == s.calls[r.id := t.calls[r.id]]
            && (c.status == Ringing ==>
                  t.calls[r.id] == c.(status := if r.user == c.caller then Cancelled else Missed,
                                      endedAt := Some(r.now)))
            && (c.status == Active ==>
                  && c.startedAt.Some?
                  && t.calls[r.id] == c.(status := Completed, endedAt := Some(r.now),
                                         duration := Some(Seconds(r.now - c.startedAt.value))))
            && t.signals == s.signals
               + (if bus then [Signal(CallEnded, r.id, if r.user == c.callee then c.caller else c.callee, Some(r.user))]
                  else []))
  {
    if r.id in s.calls && GetCallForEnd(s.calls, r.id, r.user).Some? && r.writeOk {
      var c := s.calls[r.id];
      assert WellShaped(c, r.now);
      var st := EndStatus(c, r.user);
      OneRowWritten(s.calls, EndWithDuration(r.id, st), r.id, r.now);
      OneRowWritten(s.calls, EndWithoutDuration(r.id, st), r.id, r.now);
    }
  }

  // A duration in seconds is the nearest whole number to the time between.
  lemma SecondsIsNearest(micros: int)
    ensures -500000 <= micros - 1000000 * Seconds(micros) <= 500000
    ensures micros >= 0 ==> micros - 1000000 * Seconds(micros) < 500000
    ensures Seconds(-micros) == -Seconds(micros)
  {
  }

  // After a cleanup no call rings or runs: the ringing ones are missed, the active ones completed without a duration,
  // and all others are as they were. Nobody is told.
  lemma CleanupExactly(bus: bool, s: State, now: int)
    ensures var t := Step(bus, s, Cleanup(now)).0;
      && t.calls.Keys == s.calls.Keys && t.signals == s.signals
      && forall id :: id in s.calls ==>
           t.calls[id] == match s.calls[id].status
                          case Ringing => s.calls[id].(status := Missed, endedAt := Some(now))
                          case Active => s.calls[id].(status := Completed, endedAt := Some(now))
                          case _ => s.calls[id]
  {
  }

  // ----- Runs -----

  function Exec(bus: bool, run: seq<Request>): State {
    if run == [] then State(map[], [])
    else Step(bus, Exec(bus, run[..|run| - 1]), run[|run| - 1]).0
  }

  // The answers to the requests of a run.
  function Answers(bus: bool, run: seq<Request>): (answers: seq<Answer>)
    ensures |answers| == |run|
  {
    if run == [] then []
    else
      var n := |run| - 1;
      Answers(bus, run[..n]) + [Step(bus, Exec(bus, run[..n]), run[n]).1]
  }

  // Ids are fresh and the clock does not run backwards.
  ghost predicate IsRun(bus: bool, run: seq<Request>) {
    && (forall k :: 0 <= k < |run| && run[k].Initiate? ==> run[k].id !in Exec(bus, run[..k]).calls)
    && (forall j, k :: 0 <= j < k < |run| ==> run[j].now <= run[k].now)
  }

  // A run goes on with any request whose id, if it starts a call, is new, and whose clock is not behind.
  lemma RunsGoOn(bus: bool, run: seq<Request>, r: Request)
    requires IsRun(bus, run)
    requires r.Initiate? ==> r.id !in Exec(bus, run).calls
    requires forall k :: 0 <= k < |run| ==> run[k].now <= r.now
    ensures IsRun(bus, run + [r])
    ensures Exec(bus, run + [r]) == Step(bus, Exec(bus, run), r).0
    ensures Answers(bus, run + [r]) == Answers(bus, run) + [Step(bus, Exec(bus, run), r).1]
    ensures Exec(bus, []) == State(map[], [])
  {
    var all := run + [r];
    assert all[..|run|] == run;
    forall k | 0 <= k < |all| && all[k].Initiate? ensures all[k].id !in Exec(bus, all[..k]).calls {
      if k < |run| {
        assert all[..k] == run[..k];
      }
    }
  }

  lemma PrefixIsRun(bus: bool, run: seq<Request>, n: nat)
    requires IsRun(bus, run) && n <= |run|
    ensures IsRun(bus, run[..n])
  {
    forall k | 0 <= k < n ensures run[..n][..k] == run[..k] {}
  }

  // ----- Nobody is in two calls -----

  lemma OtherRequestsOnlyCalm(bus: bool, s: State, r: Request)
    requires !r.Initiate?
    ensures OnlyCalmer(s.calls, Step(bus, s, r).0.calls)
  {
    match r {
      case Respond(_, _, _, _, _) => RespondOnlyCalms(bus, s, r);
      case End(_, _, _, _) => EndOnlyCalms(bus, s, r);
      case Cleanup(_) =>
    }
  }

  lemma RespondOnlyCalms(bus: bool, s: State, r: Request)
    requires r.Respond?
    ensures OnlyCalmer(s.calls, RespondStep(bus, s, r).0.calls)
  {
  }

  lemma EndOnlyCalms(bus: bool, s: State, r: Request)
    requires r.End?
    ensures OnlyCalmer(s.calls, EndStep(bus, s, r).0.calls)
  {
  }

  lemma InitiateKeepsExclusive(bus: bool, s: State, r: Request)
    requires r.Initiate? && Exclusive(s.calls)
    ensures Exclusive(InitiateStep(bus, s, r).0.calls)
  {
    var callee := CalleeFor1to1(r.conversations, r.caller, r.conversation);
    if callee.Some? && !HasActiveCall(s.calls, r.conversation) && !IsUserInCall(s.calls, r.caller)
       && !IsUserInCall(s.calls, callee.value) {
      CreateKeepsExclusive(s.calls, r.id, r.conversation, r.caller, callee.value, r.now);
    }
  }

  lemma StepKeepsExclusive(bus: bool, s: State, r: Request)
    requires Exclusive(s.calls)
    ensures Exclusive(Step(bus, s, r).0.calls)
  {
    if r.Initiate? {
      InitiateKeepsExclusive(bus, s, r);
    } else {
      OtherRequestsOnlyCalm(bus, s, r);
      CalmerKeepsExclusive(s.calls, Step(bus, s, r).0.calls);
    }
  }

  lemma {:induction false} NobodyIsInTwoCalls(bus: bool, run: seq<Request>)
    ensures Exclusive(Exec(bus, run).calls)
    decreases |run|
  {
    if run != [] {
      NobodyIsInTwoCalls(bus, run[..|run| - 1]);
      StepKeepsExclusive(bus, Exec(bus, run[..|run| - 1]), run[|run| - 1]);
    }
  }

  // ----- The life of a call -----

  // What the columns of a row say at each status, at time `now`.
  predicate WellShaped(c: Call, now: int) {
    && (c.startedAt.Some? <==> c.status in {Active, Completed})
    && (c.endedAt.Some? <==> !Live(c))
    && (c.startedAt.Some? ==> c.startedAt.value <= now)
    && (c.endedAt.Some? ==> c.endedAt.value <= now)
    && (c.duration.Some? ==> c.status == Completed && c.startedAt.value <= c.endedAt.value
                             && c.duration == Some(Seconds(c.endedAt.value - c.startedAt.value)))
  }

  predicate Shaped(t: Table, now: int) {
    forall id :: id in t ==> WellShaped(t[id], now)
  }

  // The only moves of a row: ringing to active, ringing to an end, active to completed.
  predicate Moves(c: Call, d: Call, now: int) {
    || d == c
    || (c.status == Ringing && d == c.(status := Active, startedAt := Some(now)))
    || (c.status == Ringing && d.status in {Declined, Missed, Cancelled}
        && d == c.(status := d.status, endedAt := Some(now)))
    || (c.status == Active && d.status == Completed && c.startedAt.Some?
        && (d.duration == None || d.duration == Some(Seconds(now - c.startedAt.value)))
        && d == c.(status := Completed, endedAt := Some(now), duration := d.duration))
  }

  predicate RowsMove(t: Table, u: Table, now: int) {
    forall id :: id in t ==> id in u && Moves(t[id], u[id], now)
  }

  lemma RespondMoves(bus: bool, s: State, r: Request)
    requires r.Respond? && Shaped(s.calls, r.now)
    ensures RowsMove(s.calls, RespondStep(bus, s, r).0.calls, r.now)
    ensures RespondStep(bus, s, r).0.calls.Keys == s.calls.Keys
  {
  }

  lemma EndMoves(bus: bool, s: State, r: Request)
    requires r.End? && Shaped(s.calls, r.now)
    ensures RowsMove(s.calls, EndStep(bus, s, r).0.calls, r.now)
    ensures EndStep(bus, s, r).0.calls.Keys == s.calls.Keys
  {
    forall id | id in s.calls
      ensures Moves(s.calls[id], EndStep(bus, s, r).0.calls[id], r.now)
    {
      assert WellShaped(s.calls[id], r.now);
    }
  }

  predicate IsNewCall(t: Table, u: Table, r: Request)
    requires r.Initiate?
  {
    r.id in u && u == t[r.id := u[r.id]] && u[r.id].status == Ringing && WellShaped(u[r.id], r.now)
    && u[r.id].duration == None && u[r.id].caller == r.caller && u[r.id].conversation == r.conversation
  }

  lemma InitiateMoves(bus: bool, s: State, r: Request)
    requires r.Initiate? && r.id !in s.calls
    ensures var u := InitiateStep(bus, s, r).0.calls;
      u == s.calls || IsNewCall(s.calls, u, r)
  {
  }

  lemma CleanupMoves(s: State, now: int)
    requires Shaped(s.calls, now)
    ensures RowsMove(s.calls, Apply(s.calls, CleanupStale, now), now)
    ensures Apply(s.calls, CleanupStale, now).Keys == s.calls.Keys
  {
    forall id | id in s.calls
      ensures Moves(s.calls[id], Apply(s.calls, CleanupStale, now)[id], now)
    {
      assert WellShaped(s.calls[id], now);
    }
  }

  lemma StepMoves(bus: bool, s: State, r: Request)
    requires Shaped(s.calls, r.now)
    requires r.Initiate? ==> r.id !in s.calls
    ensures RowsMove(s.calls, Step(bus, s, r).0.calls, r.now)
    ensures forall id :: id in Step(bus, s, r).0.calls && id !in s.calls ==>
      r.Initiate? && id == r.id && IsNewCall(s.calls, Step(bus, s, r).0.calls, r)
  {
    match r {
      case Initiate(_, _, _, _, _, _, _) => InitiateMoves(bus, s, r);
      case Respond(_, _, _, _, _) => RespondMoves(bus, s, r);
      case End(_, _, _, _) => EndMoves(bus, s, r);
      case Cleanup(now) => CleanupMoves(s, now);
    }
  }

  lemma MovedRowsAreShaped(t: Table, u: Table, now: int)
    requires Shaped(t, now) && RowsMove(t, u, now)
    requires forall id :: id in u && id !in t ==> WellShaped(u[id], now)
    ensures Shaped(u, now)
  {
    forall id | id in u ensures WellShaped(u[id], now) {
      if id in t {
        assert WellShaped(t[id], now) && Moves(t[id], u[id], now);
      }
    }
  }

  lemma StepKeepsShape(bus: bool, s: State, r: Request)
    requires Shaped(s.calls, r.now)
    requires r.Initiate? ==> r.id !in s.calls
    ensures Shaped(Step(bus, s, r).0.calls, r.now)
  {
    StepMoves(bus, s, r);
    MovedRowsAreShaped(s.calls, Step(bus, s, r).0.calls, r.now);
  }

  lemma ShapedLater(t: Table, now: int, later: int)
    requires Shaped(t, now) && now <= later
    ensures Shaped(t, later)
  {
  }

  lemma {:induction false} RowsAreShaped(bus: bool, run: seq<Request>, now: int)
    requires IsRun(bus, run)
    requires forall k :: 0 <= k < |run| ==> run[k].now <= now
    ensures Shaped(Exec(bus, run).calls, now)
    decreases |run|
  {
    if run != [] {
      var n := |run| - 1;
      PrefixIsRun(bus, run, n);
      RowsAreShaped(bus, run[..n], run[n].now);
      StepKeepsShape(bus, Exec(bus, run[..n]), run[n]);
      ShapedLater(Exec(bus, run).calls, run[n].now, now);
    }
  }

  // What a request may have done to a call: accept it as its callee, complete it as one of the two, or cancel it as its
  // caller.
  datatype Deed = Acceptance(callee: string) | Completion(caller: string, callee: string) | Cancellation(caller: string)

  predicate IsDeed(deed: Deed, r: Request, answer: Answer, id: nat) {
    match deed
    case Acceptance(callee) => r.Respond? && r.id == id && r.user == callee && r.action == "accept" && answer.Done?
    case Completion(caller, callee) =>
      r.End? && r.id == id && r.user in {caller, callee} && answer == Done("completed")
    case Cancellation(caller) => r.End? && r.id == id && r.user == caller && answer == Done("cancelled")
  }

  predicate SomeDeed(deed: Deed, run: seq<Request>, answers: seq<Answer>, id: nat)
    requires |run| == |answers|
  {
    exists k :: 0 <= k < |run| && IsDeed(deed, run[k], answers[k], id)
  }

  // Some request of the run did it.
  predicate WasDone(bus: bool, run: seq<Request>, deed: Deed, id: nat) {
    SomeDeed(deed, run, Answers(bus, run), id)
  }

  lemma OneMoreAnswer(deed: Deed, run: seq<Request>, answers: seq<Answer>, r: Request, answer: Answer, id: nat)
    requires |run| == |answers|
    ensures SomeDeed(deed, run + [r], answers + [answer], id)
      <==> SomeDeed(deed, run, answers, id) || IsDeed(deed, r, answer, id)
  {
    var run', answers' := run + [r], answers + [answer];
    assert run'[|run|] == r && answers'[|run|] == answer;
    forall k | 0 <= k < |run|
      ensures IsDeed(deed, run'[k], answers'[k], id) <==> IsDeed(deed, run[k], answers[k], id)
    {
    }
  }

  lemma HistoryStep(bus: bool, run: seq<Request>, deed: Deed, id: nat)
    requires run != []
    ensures var n := |run| - 1;
      var answer := Step(bus, Exec(bus, run[..n]), run[n]).1;
      WasDone(bus, run, deed, id) <==> WasDone(bus, run[..n], deed, id) || IsDeed(deed, run[n], answer, id)
  {
    var n := |run| - 1;
    var answer := Step(bus, Exec(bus, run[..n]), run[n]).1;
    OneMoreAnswer(deed, run[..n], Answers(bus, run[..n]), run[n], answer, id);
    assert run[..n] + [run[n]] == run;
  }

  // One request starts a call exactly when it accepts it, gives it a duration exactly when it ends it active, and
  // cancels it exactly when its caller ends it ringing.
  lemma StepStarts(bus: bool, s: State, r: Request, id: nat)
    requires Shaped(s.calls, r.now) && (r.Initiate? ==> r.id !in s.calls)
    requires id in s.calls
    ensures id in Step(bus, s, r).0.calls
    ensures Step(bus, s, r).0.calls[id].startedAt.Some? <==>
      s.calls[id].startedAt.Some? || IsDeed(Acceptance(s.calls[id].callee), r, Step(bus, s, r).1, id)
  {
    assert WellShaped(s.calls[id], r.now);
  }

  lemma StatusTextIsInjective(st: Status)
    ensures StatusText(st) == "completed" <==> st == Completed
    ensures StatusText(st) == "cancelled" <==> st == Cancelled
  {
    assert |"ringing"| == 7 && |"active"| == 6 && |"missed"| == 6 && |"declined"| == 8;
    assert "completed"[1] == 'o' && "cancelled"[1] == 'a';
  }

  lemma StepGivesDuration(bus: bool, s: State, r: Request, id: nat)
    requires Shaped(s.calls, r.now) && (r.Initiate? ==> r.id !in s.calls)
    requires id in s.calls
    ensures id in Step(bus, s, r).0.calls
    ensures Step(bus, s, r).0.calls[id].duration.Some? <==>
      s.calls[id].duration.Some?
      || IsDeed(Completion(s.calls[id].caller, s.calls[id].callee), r, Step(bus, s, r).1, id)
  {
    assert WellShaped(s.calls[id], r.now);
    if r.End? {
      StatusTextIsInjective(EndStatus(s.calls[id], r.user));
    }
  }

  lemma StepCancels(bus: bool, s: State, r: Request, id: nat)
    requires Shaped(s.calls, r.now) && (r.Initiate? ==> r.id !in s.calls)
    requires id in s.calls
    ensures id in Step(bus, s, r).0.calls
    ensures Step(bus, s, r).0.calls[id].caller == s.calls[id].caller
    ensures Step(bus, s, r).0.calls[id].status == Cancelled <==>
      s.calls[id].status == Cancelled || IsDeed(Cancellation(s.calls[id].caller), r, Step(bus, s, r).1, id)
  {
    if r.End? {
      EndCancels(bus, s, r, id);
    } else {
      OnlyEndCancels(bus, s, r, id);
    }
  }

  lemma EndCancels(bus: bool, s: State, r: Request, id: nat)
    requires r.End? && id in s.calls
    ensures id in EndStep(bus, s, r).0.calls
    ensures EndStep(bus, s, r).0.calls[id].caller == s.calls[id].caller
    ensures EndStep(bus, s, r).0.calls[id].status == Cancelled <==>
      s.calls[id].status == Cancelled || IsDeed(Cancellation(s.calls[id].caller), r, EndStep(bus, s, r).1, id)
  {
    StatusTextIsInjective(EndStatus(s.calls[id], r.user));
  }

  lemma OnlyEndCancels(bus: bool, s: State, r: Request, id: nat)
    requires !r.End? && id in s.calls && (r.Initiate? ==> r.id !in s.calls)
    ensures id in Step(bus, s, r).0.calls
    ensures Step(bus, s, r).0.calls[id].caller == s.calls[id].caller
    ensures Step(bus, s, r).0.calls[id].status == Cancelled <==> s.calls[id].status == Cancelled
  {
  }

  lemma RowsAreNeverRemoved(bus: bool, s: State, r: Request)
    ensures s.calls.Keys <= Step(bus, s, r).0.calls.Keys
  {
    if r.Initiate? {
    } else {
      OtherRequestsOnlyCalm(bus, s, r);
    }
  }

  lemma OnlyKnownCallsAreAnswered(bus: bool, s: State, r: Request)
    ensures (r.Respond? || r.End?) && Step(bus, s, r).1.Done? ==> r.id in s.calls
  {
  }

  lemma {:induction false} UnknownCallHasNoHistory(bus: bool, run: seq<Request>, deed: Deed, id: nat)
    requires id !in Exec(bus, run).calls
    ensures !WasDone(bus, run, deed, id)
    decreases |run|
  {
    if run != [] {
      var n := |run| - 1;
      HistoryStep(bus, run, deed, id);
      RowsAreNeverRemoved(bus, Exec(bus, run[..n]), run[n]);
      OnlyKnownCallsAreAnswered(bus, Exec(bus, run[..n]), run[n]);
      UnknownCallHasNoHistory(bus, run[..n], deed, id);
    }
  }

  // In every run: a call has started exactly if its callee accepted it, has ended exactly if it is neither ringing nor
  // active, and has a duration exactly if one of the two completed it by ending it, never a negative one.
  lemma {:induction false} LifeOfACall(bus: bool, run: seq<Request>, id: nat)
    requires IsRun(bus, run)
    requires id in Exec(bus, run).calls
    ensures var c := Exec(bus, run).calls[id];
      && (c.startedAt.Some? <==> WasDone(bus, run, Acceptance(c.callee), id))
      && (c.endedAt.Some? <==> !Live(c))
      && (c.duration.Some? <==> WasDone(bus, run, Completion(c.caller, c.callee), id))
      && (c.duration.Some? ==> c.duration.value >= 0)
    decreases |run|
  {
    var n := |run| - 1;
    RowsAreShaped(bus, run, run[n].now);
    assert WellShaped(Exec(bus, run).calls[id], run[n].now);
    PrefixIsRun(bus, run, n);
    RowsAreShaped(bus, run[..n], run[n].now);
    var s := Exec(bus, run[..n]);
    var c := Exec(bus, run).calls[id];
    HistoryStep(bus, run, Acceptance(c.callee), id);
    HistoryStep(bus, run, Completion(c.caller, c.callee), id);
    if id in s.calls {
      LastStepGoesOnward(bus, run, id);
      LifeOfACall(bus, run[..n], id);
      StepStarts(bus, s, run[n], id);
      StepGivesDuration(bus, s, run[n], id);
    } else {
      UnknownCallHasNoHistory(bus, run[..n], Acceptance(c.callee), id);
      UnknownCallHasNoHistory(bus, run[..n], Completion(c.caller, c.callee), id);
      StepMoves(bus, s, run[n]);
    }
  }

  // The status that the API does not document: in every run a call is cancelled exactly if its caller ended it while
  // it rang.
  lemma {:induction false} CancelledByTheCaller(bus: bool, run: seq<Request>, id: nat)
    requires IsRun(bus, run)
    requires id in Exec(bus, run).calls
    ensures var c := Exec(bus, run).calls[id];
      c.status == Cancelled <==> WasDone(bus, run, Cancellation(c.caller), id)
    decreases |run|
  {
    var n := |run| - 1;
    PrefixIsRun(bus, run, n);
    RowsAreShaped(bus, run[..n], run[n].now);
    var s, caller := Exec(bus, run[..n]), Exec(bus, run).calls[id].caller;
    HistoryStep(bus, run, Cancellation(caller), id);
    if id in s.calls {
      CancelledByTheCaller(bus, run[..n], id);
      StepCancels(bus, s, run[n], id);
    } else {
      UnknownCallHasNoHistory(bus, run[..n], Cancellation(caller), id);
      StepMoves(bus, s, run[n]);
    }
  }

  // Between any two moments of a run a call goes forward only, and an ended call never changes again.
  predicate Onward(c: Call, d: Call) {
    && c.conversation == d.conversation && c.caller == d.caller && c.callee == d.callee
    && (!Live(c) ==> d == c)
    && (d.status == Ringing ==> c.status == Ringing)
    && (c.status == Active ==> d.status in {Active, Completed})
    && (c.startedAt.Some? ==> d.startedAt == c.startedAt)
  }

  lemma OnwardTransitive(c: Call, d: Call, e: Call)
    requires Onward(c, d) && Onward(d, e)
    ensures Onward(c, e)
  {
  }

  lemma StepGoesOnward(bus: bool, s: State, r: Request, id: nat)
    requires Shaped(s.calls, r.now) && (r.Initiate? ==> r.id !in s.calls) && id in s.calls
    ensures id in Step(bus, s, r).0.calls && Onward(s.calls[id], Step(bus, s, r).0.calls[id])
  {
    StepMoves(bus, s, r);
    assert WellShaped(s.calls[id], r.now);
    assert Moves(s.calls[id], Step(bus, s, r).0.calls[id], r.now);
  }

  lemma LastStepGoesOnward(bus: bool, run: seq<Request>, id: nat)
    requires IsRun(bus, run) && run != [] && id in Exec(bus, run[..|run| - 1]).calls
    ensures id in Exec(bus, run).calls
    ensures Onward(Exec(bus, run[..|run| - 1]).calls[id], Exec(bus, run).calls[id])
  {
    var n := |run| - 1;
    PrefixIsRun(bus, run, n);
    RowsAreShaped(bus, run[..n], run[n].now);
    StepGoesOnward(bus, Exec(bus, run[..n]), run[n], id);
  }

  lemma {:induction false} CallsGoOnward(bus: bool, run: seq<Request>, k: nat, id: nat)
    requires IsRun(bus, run) && k <= |run|
    requires id in Exec(bus, run[..k]).calls
    ensures id in Exec(bus, run).calls
    ensures Onward(Exec(bus, run[..k]).calls[id], Exec(bus, run).calls[id])
    ensures var c, d := Exec(bus, run[..k]).calls[id], Exec(bus, run).calls[id];
      && d.conversation == c.conversation && d.caller == c.caller && d.callee == c.callee
      && (c.status !in {Ringing, Active} ==> d == c)
      && (d.status == Ringing ==> c.status == Ringing)
      && (c.status == Active ==> d.status in {Active, Completed})
      && (c.startedAt.Some? ==> d.startedAt == c.startedAt)
    decreases |run|
  {
    if k == |run| {
      assert run[..k] == run;
    } else {
      var n := |run| - 1;
      PrefixIsRun(bus, run, n);
      assert run[..n][..k] == run[..k];
      CallsGoOnward(bus, run[..n], k, id);
      LastStepGoesOnward(bus, run, id);
      OnwardTransitive(Exec(bus, run[..k]).calls[id], Exec(bus, run[..n]).calls[id], Exec(bus, run).calls[id]);
    }
  }

  // ----- The signalling protocol -----

  function SignalsOf(signals: seq<Signal>, id: nat): seq<Signal> {
    if signals == [] then []
    else
      var n := |signals| - 1;
      SignalsOf(signals[..n], id) + (if signals[n].call == id then [signals[n]] else [])
  }

  // What the participants have been told about a call, by its status.
  predicate Story(id: nat, c: Call, told: seq<Signal>) {
    var rang := Signal(IncomingCall, id, c.callee, None);
    var accepted := Signal(CallAccepted, id, c.caller, None);
    var endedByCaller := Signal(CallEnded, id, c.callee, Some(c.caller));
    var endedByCallee := Signal(CallEnded, id, c.caller, Some(c.callee));
    match c.status
    case Ringing => told == [rang]
    case Active => told == [rang, accepted]
    case Declined => told == [rang, Signal(CallDeclined, id, c.caller, None)]
    case Cancelled => told == [rang, endedByCaller]
    case Missed => told == [rang] || told == [rang, endedByCallee]
    case Completed =>
      if c.duration == None then told == [rang, accepted]
      else told == [rang, accepted, endedByCaller] || told == [rang, accepted, endedByCallee]
  }

  predicate Told(s: State) {
    && (forall id :: id in s.calls ==> Story(id, s.calls[id], SignalsOf(s.signals, id)))
    && (forall i :: 0 <= i < |s.signals| ==> s.signals[i].call in s.calls)
  }

  lemma {:induction false} NoSignalsForUnknown(signals: seq<Signal>, id: nat)
    requires forall i :: 0 <= i < |signals| ==> signals[i].call != id
    ensures SignalsOf(signals, id) == []
    decreases |signals|
  {
    if signals != [] {
      NoSignalsForUnknown(signals[..|signals| - 1], id);
    }
  }

  lemma OneMoreSignal(signals: seq<Signal>, s: Signal, id: nat)
    ensures SignalsOf(signals + [s], id) == SignalsOf(signals, id) + (if s.call == id then [s] else [])
  {
    assert (signals + [s])[..|signals|] == signals;
  }

  // A request that rewrites one row and tells one party about it keeps every other story.
  lemma OneRowTold(s: State, u: Table, signal: Signal)
    requires Told(s)
    requires signal.call in u && s.calls.Keys <= u.Keys <= s.calls.Keys + {signal.call}
    requires forall id :: id in s.calls && id != signal.call ==> u[id] == s.calls[id]
    requires Story(signal.call, u[signal.call], SignalsOf(s.signals, signal.call) + [signal])
    ensures Told(State(u, s.signals + [signal]))
  {
    forall id | id in u ensures Story(id, u[id], SignalsOf(s.signals + [signal], id)) {
      OneMoreSignal(s.signals, signal, id);
    }
  }

  lemma InitiateTells(s: State, r: Request)
    requires r.Initiate? && !r.profile.LookupFailed? && r.id !in s.calls
    requires Told(s) && Exclusive(s.calls)
    ensures Told(InitiateStep(true, s, r).0)
  {
    var callee := CalleeFor1to1(r.conversations, r.caller, r.conversation);
    if callee.Some? && !HasActiveCall(s.calls, r.conversation) && !IsUserInCall(s.calls, r.caller)
       && !IsUserInCall(s.calls, callee.value) && r.writeOk {
      var u := Apply(s.calls, Create(r.id, r.conversation, r.caller, callee.value), r.now);
      NoSignalsForUnknown(s.signals, r.id);
      OneRowTold(s, u, Signal(IncomingCall, r.id, callee.value, None));
    }
  }

  lemma RespondTells(s: State, r: Request)
    requires r.Respond?
    requires Told(s)
    ensures Told(RespondStep(true, s, r).0)
  {
    var caller := GetRingingCallCaller(s.calls, r.id, r.user);
    if (r.action == "accept" || r.action == "decline") && caller.Some? && r.writeOk {
      var accept := r.action == "accept";
      var u := Apply(s.calls, if accept then Accept(r.id) else Decline(r.id), r.now);
      assert Story(r.id, s.calls[r.id], SignalsOf(s.signals, r.id));
      OneRowTold(s, u, Signal(if accept then CallAccepted else CallDeclined, r.id, caller.value, None));
    }
  }

  // The story of a call that is ended while it rings, and of one that is ended while it is active.
  lemma RingingEndTold(id: nat, c: Call, d: Call, user: string, told: seq<Signal>)
    requires c.status == Ringing && Story(id, c, told) && Involves(c, user)
    requires d.status == EndStatus(c, user) && d.caller == c.caller && d.callee == c.callee && c.caller != c.callee
    ensures Story(id, d, told + [Signal(CallEnded, id, OtherParty(c, user), Some(user))])
  {
  }

  lemma ActiveEndTold(id: nat, c: Call, d: Call, user: string, told: seq<Signal>)
    requires c.status == Active && Story(id, c, told) && Involves(c, user)
    requires d.status == EndStatus(c, user) && d.caller == c.caller && d.callee == c.callee && d.duration.Some?
    requires c.caller != c.callee
    ensures Story(id, d, told + [Signal(CallEnded, id, OtherParty(c, user), Some(user))])
  {
  }

  // The row that End writes.
  lemma EndedRow(s: State, r: Request)
    requires r.End? && r.writeOk && GetCallForEnd(s.calls, r.id, r.user).Some? && Shaped(s.calls, r.now)
    ensures var u, c := EndStep(true, s, r).0.calls, s.calls[r.id];
      && u == s.calls[r.id := u[r.id]]
      && u[r.id].status == EndStatus(c, r.user) && u[r.id].caller == c.caller && u[r.id].callee == c.callee
      && (c.status == Active ==> u[r.id].duration.Some?)
  {
    assert WellShaped(s.calls[r.id], r.now);
  }

  lemma EndTells(s: State, r: Request)
    requires r.End?
    requires Told(s) && Shaped(s.calls, r.now) && Exclusive(s.calls)
    ensures Told(EndStep(true, s, r).0)
  {
    if GetCallForEnd(s.calls, r.id, r.user).Some? && r.writeOk {
      EndedRow(s, r);
      var u, c, told := EndStep(true, s, r).0.calls, s.calls[r.id], SignalsOf(s.signals, r.id);
      assert Story(r.id, c, told);
      if c.status == Ringing {
        RingingEndTold(r.id, c, u[r.id], r.user, told);
      } else {
        ActiveEndTold(r.id, c, u[r.id], r.user, told);
      }
      OneRowTold(s, u, Signal(CallEnded, r.id, OtherParty(c, r.user), Some(r.user)));
    }
  }

  lemma CleanupTells(s: State, now: int)
    requires Told(s) && Shaped(s.calls, now)
    ensures Told(State(Apply(s.calls, CleanupStale, now), s.signals))
  {
    var u := Apply(s.calls, CleanupStale, now);
    forall id | id in u ensures Story(id, u[id], SignalsOf(s.signals, id)) {
      assert WellShaped(s.calls[id], now);
      assert Story(id, s.calls[id], SignalsOf(s.signals, id));
    }
  }

  // With a working bus and profile lookup, the parties of every call have been told its story and nothing else, and
  // each signal went to the participant who did not act.
  lemma {:induction false} EveryCallIsTold(run: seq<Request>)
    requires IsRun(true, run)
    requires forall k :: 0 <= k < |run| && run[k].Initiate? ==> !run[k].profile.LookupFailed?
    ensures Told(Exec(true, run))
    decreases |run|
  {
    if run != [] {
      var n := |run| - 1;
      PrefixIsRun(true, run, n);
      EveryCallIsTold(run[..n]);
      RowsAreShaped(true, run[..n], run[n].now);
      NobodyIsInTwoCalls(true, run[..n]);
      var s := Exec(true, run[..n]);
      match run[n] {
        case Initiate(_, _, _, _, _, _, _) => InitiateTells(s, run[n]);
        case Respond(_, _, _, _, _) => RespondTells(s, run[n]);
        case End(_, _, _, _) => EndTells(s, run[n]);
        case Cleanup(now) => CleanupTells(s, now);
      }
    }
  }

  function Kinds(signals: seq<Signal>): seq<SignalKind> {
    seq(|signals|, i requires 0 <= i < |signals| => signals[i].kind)
  }

  predicate Protocol(kinds: seq<SignalKind>) {
    || kinds <= [IncomingCall, CallDeclined]
    || kinds <= [IncomingCall, CallEnded]
    || kinds <= [IncomingCall, CallAccepted, CallEnded]
  }

  lemma StoryFollowsTheProtocol(id: nat, c: Call, told: seq<Signal>)
    requires Story(id, c, told)
    ensures Protocol(Kinds(told))
  {
  }

  lemma SignalsFollowTheProtocol(run: seq<Request>, id: nat)
    requires IsRun(true, run)
    requires forall k :: 0 <= k < |run| && run[k].Initiate? ==> !run[k].profile.LookupFailed?
    ensures Protocol(Kinds(SignalsOf(Exec(true, run).signals, id)))
  {
    EveryCallIsTold(run);
    var s := Exec(true, run);
    if id in s.calls {
      StoryFollowsTheProtocol(id, s.calls[id], SignalsOf(s.signals, id));
    } else {
      NoSignalsForUnknown(s.signals, id);
    }
  }

  // The documented answers are "accepted" and "declined". The code appends "ed" to the action, which is right for
  // the one and not for the other.
  lemma RespondAnswerIsDocumented(bus: bool, s: State, r: Request)
    requires r.Respond? && RespondStep(bus, s, r).1.Done?
    ensures RespondStep(bus, s, r).1.status in {"accepted", "declined"} <==> r.action == "accept"
  {
    if r.action == "accept" {
      assert "accept" + "ed" == "accepted";
    } else {
      assert |"decline" + "ed"| == 9;
      assert |"accepted"| == 8 && |"declined"| == 8;
    }
  }

  // The statuses the API enumerates.
  predicate IsDocumented(status: string) {
    status in {"ringing", "active", "completed", "declined", "missed"}
  }

  lemma DocumentedStatuses(st: Status)
    ensures IsDocumented(StatusText(st)) <==> st != Cancelled
  {
    if st == Cancelled {
      assert |"cancelled"| == 9 && |"ringing"| == 7 && |"active"| == 6 && |"declined"| == 8 && |"missed"| == 6;
      assert "cancelled"[1] == 'a' && "completed"[1] == 'o';
    }
  }

  // Ending a call answers, and stores, a documented status unless the caller ends it while it rings.
  lemma EndAnswerIsDocumented(bus: bool, s: State, r: Request)
    requires r.End? && EndStep(bus, s, r).1.Done?
    ensures IsDocumented(EndStep(bus, s, r).1.status)
      <==> !(s.calls[r.id].status == Ringing && r.user == s.calls[r.id].caller)
    ensures EndStep(bus, s, r).1.status == StatusText(EndStep(bus, s, r).0.calls[r.id].status)
  {
    DocumentedStatuses(EndStatus(s.calls[r.id], r.user));
  }
}
