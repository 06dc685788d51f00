// The calls table: the guarded reads, and the writes, which carry no guard on the status of the row they change.
module CallTable {
  import opened Wrappers

  datatype Status = Ringing | Active | Completed | Declined | Missed | Cancelled

  // Times are in microseconds, durations in seconds.
  datatype Call = Call(conversation: nat, caller: string, callee: string, status: Status, startedAt: Option<int>,
                       endedAt: Option<int>, duration: Option<int>)

  type Table = map<nat, Call>

  predicate Live(c: Call) {
    c.status == Ringing || c.status == Active
  }

  predicate Involves(c: Call, user: string) {
    c.caller == user || c.callee == user
  }

  // ----- Reads -----

  predicate HasActiveCall(t: Table, conversation: nat) {
    exists id :: id in t && t[id].conversation == conversation && Live(t[id])
  }

  predicate IsUserInCall(t: Table, user: string) {
    exists id :: id in t && Involves(t[id], user) && Live(t[id])
  }

  function GetRingingCallCaller(t: Table, id: nat, callee: string): Option<string> {
    if id in t && t[id].callee == callee && t[id].status == Ringing then Some(t[id].caller) else None
  }

  function GetCallForEnd(t: Table, id: nat, user: string): Option<Call> {
    if id in t && Involves(t[id], user) && Live(t[id]) then Some(t[id]) else None
  }

  // ----- Writes -----

  datatype Write =
    | Create(id: nat, conversation: nat, caller: string, callee: string)
    | Accept(id: nat)
    | Decline(id: nat)
    | EndWithDuration(id: nat, status: Status)
    | EndWithoutDuration(id: nat, status: Status)
    | CleanupStale

  // The cast of an interval to whole seconds rounds halves away from zero.
  function Seconds(micros: int): int {
    if micros >= 0 then (micros + 500000) / 1000000 else -((500000 - micros) / 1000000)
  }

  function Rewrite(w: Write, now: int, id: nat, c: Call): Call {
    match w
    case Create(_, _, _, _) => c
    case Accept(i) => if i == id then c.(status := Active, startedAt := Some(now)) else c
    case Decline(i) => if i == id then c.(status := Declined, endedAt := Some(now)) else c
    case EndWithDuration(i, st) =>
      if i == id then
        c.(status := st, endedAt := Some(now),
           duration := if c.startedAt.Some? then Some(Seconds(now - c.startedAt.value)) else None)
      else c
    case EndWithoutDuration(i, st) => if i == id then c.(status := st, endedAt := Some(now)) else c
    case CleanupStale =>
      if c.status == Ringing then c.(status := Missed, endedAt := Some(now))
      else if c.status == Active then c.(status := Completed, endedAt := Some(now))
      else c
  }

  function Apply(t: Table, w: Write, now: int): (r: Table)
    ensures t.Keys <= r.Keys
  {
    var updated := map id | id in t :: Rewrite(w, now, id, t[id]);
    if w.Create? && w.id !in t then
      updated[w.id := Call(w.conversation, w.caller, w.callee, Ringing, None, None, None)]
    else updated
  }

  // ----- What holds whatever order the statements of concurrent requests run in -----

  // The statuses the program passes to the two End statements.
  predicate Issued(w: Write) {
    w.EndWithDuration? || w.EndWithoutDuration? ==> w.status in {Completed, Missed, Cancelled}
  }

  function ApplyAll(t: Table, writes: seq<(Write, int)>): Table {
    if writes == [] then t
    else
      var n := |writes| - 1;
      Apply(ApplyAll(t, writes[..n]), writes[n].0, writes[n].1)
  }

  predicate ActiveHasStarted(t: Table) {
    forall id :: id in t && t[id].status == Active ==> t[id].startedAt.Some?
  }

  // The participants of a call and its conversation never change, and it rings only from the start.
  predicate SameCall(c: Call, d: Call) {
    && c.conversation == d.conversation && c.caller == d.caller && c.callee == d.callee
    && (d.status == Ringing ==> c.status == Ringing)
  }

  lemma OneWriteKeeps(t: Table, w: Write, now: int)
    requires ActiveHasStarted(t) && Issued(w)
    ensures ActiveHasStarted(Apply(t, w, now))
    ensures forall id :: id in t ==> SameCall(t[id], Apply(t, w, now)[id])
  {
  }

  lemma {:induction false} AnyInterleavingKeeps(t: Table, writes: seq<(Write, int)>)
    requires ActiveHasStarted(t)
    requires forall i :: 0 <= i < |writes| ==> Issued(writes[i].0)
    ensures ActiveHasStarted(ApplyAll(t, writes))
    ensures forall id :: id in t ==> id in ApplyAll(t, writes) && SameCall(t[id], ApplyAll(t, writes)[id])
    ensures var u := ApplyAll(t, writes);
      && (forall id :: id in u && u[id].status == Active ==> u[id].startedAt.Some?)
      && (forall id :: id in t ==>
            && id in u && u[id].conversation == t[id].conversation
            && u[id].caller == t[id].caller && u[id].callee == t[id].callee
            && (u[id].status == Ringing ==> t[id].status == Ringing))
    decreases |writes|
  {
    if writes != [] {
      var n := |writes| - 1;
      AnyInterleavingKeeps(t, writes[..n]);
      OneWriteKeeps(ApplyAll(t, writes[..n]), writes[n].0, writes[n].1);
    }
  }

  // ----- When the statements keep calls apart -----

  predicate Exclusive(t: Table) {
    && (forall id :: id in t ==> t[id].caller != t[id].callee)
    && (forall i, j :: i in t && j in t && i != j && Live(t[i]) && Live(t[j]) ==>
          && t[i].conversation != t[j].conversation
          && !Involves(t[j], t[i].caller)
          && !Involves(t[j], t[i].callee))
  }

  // Calls only move, and none from ended to live.
  predicate OnlyCalmer(t: Table, u: Table) {
    && u.Keys == t.Keys
    && forall id :: id in t ==>
         && u[id].conversation == t[id].conversation && u[id].caller == t[id].caller && u[id].callee == t[id].callee
         && (Live(u[id]) ==> Live(t[id]))
  }

  lemma CalmerKeepsExclusive(t: Table, u: Table)
    requires Exclusive(t) && OnlyCalmer(t, u)
    ensures Exclusive(u)
  {
  }

  lemma CreateKeepsExclusive(t: Table, id: nat, conversation: nat, caller: string, callee: string, now: int)
    requires Exclusive(t) && caller != callee
    requires !HasActiveCall(t, conversation) && !IsUserInCall(t, caller) && !IsUserInCall(t, callee)
    ensures Exclusive(Apply(t, Create(id, conversation, caller, callee), now))
  {
    var u := Apply(t, Create(id, conversation, caller, callee), now);
    assert forall i :: i in t ==> u[i] == t[i];
    forall i | i in t && Live(t[i])
      ensures t[i].conversation != conversation && !Involves(t[i], caller) && !Involves(t[i], callee) {}
  }

  // What each statement would have to check at the moment it runs.
  predicate GuardHolds(t: Table, w: Write) {
    match w
    case Create(id, conversation, caller, callee) =>
      id in t
      || (caller != callee && !HasActiveCall(t, conversation) && !IsUserInCall(t, caller) && !IsUserInCall(t, callee))
    case Accept(id) => id !in t || Live(t[id])
    case _ => true
  }

  predicate NothingRevived(t: Table, u: Table) {
    forall id :: id in t && id in u && Live(u[id]) ==> Live(t[id])
  }

  lemma CreateBreaksExclusive(t: Table, id: nat, conversation: nat, caller: string, callee: string, now: int)
    requires Exclusive(t) && id !in t
    requires Exclusive(Apply(t, Create(id, conversation, caller, callee), now))
    ensures GuardHolds(t, Create(id, conversation, caller, callee))
  {
    var u := Apply(t, Create(id, conversation, caller, callee), now);
    assert Live(u[id]);
    forall i | i in t && Live(t[i])
      ensures t[i].conversation != conversation && !Involves(t[i], caller) && !Involves(t[i], callee)
    {
      assert u[i] == t[i];
    }
  }

  lemma CreateIsSafeExactly(t: Table, id: nat, conversation: nat, caller: string, callee: string, now: int)
    requires Exclusive(t)
    ensures var w := Create(id, conversation, caller, callee);
      Exclusive(Apply(t, w, now)) && NothingRevived(t, Apply(t, w, now)) <==> GuardHolds(t, w)
  {
    var w := Create(id, conversation, caller, callee);
    if id in t {
      assert Apply(t, w, now) == t;
    } else if GuardHolds(t, w) {
      CreateKeepsExclusive(t, id, conversation, caller, callee, now);
    } else if Exclusive(Apply(t, w, now)) {
      CreateBreaksExclusive(t, id, conversation, caller, callee, now);
    }
  }

  lemma AcceptIsSafeExactly(t: Table, id: nat, now: int)
    requires Exclusive(t)
    ensures var u := Apply(t, Accept(id), now);
      Exclusive(u) && NothingRevived(t, u) <==> id !in t || Live(t[id])
  {
    var u := Apply(t, Accept(id), now);
    if id in t {
      assert Live(u[id]);
    }
    if id !in t || Live(t[id]) {
      CalmerKeepsExclusive(t, u);
    }
  }

  lemma OtherWritesAreSafe(t: Table, w: Write, now: int)
    requires Exclusive(t) && Issued(w) && !w.Create? && !w.Accept?
    ensures Exclusive(Apply(t, w, now)) && NothingRevived(t, Apply(t, w, now))
  {
    CalmerKeepsExclusive(t, Apply(t, w, now));
  }

  // One statement keeps everybody in at most one call and brings no ended call back if and only if its guard holds at
  // that moment.
  lemma WriteIsSafeExactly(t: Table, w: Write, now: int)
    requires Exclusive(t) && Issued(w)
    ensures Exclusive(Apply(t, w, now)) && NothingRevived(t, Apply(t, w, now)) <==> GuardHolds(t, w)
  {
    match w {
      case Create(id, conversation, caller, callee) =>
        CreateIsSafeExactly(t, id, conversation, caller, callee, now);
      case Accept(id) => AcceptIsSafeExactly(t, id, now);
      case _ => OtherWritesAreSafe(t, w, now);
    }
  }

  // Along the way nobody is ever in two calls and no ended call comes back.
  predicate SafeAllAlong(t: Table, writes: seq<(Write, int)>) {
    writes == [] ||
    var n := |writes| - 1;
    && SafeAllAlong(t, writes[..n])
    && Exclusive(ApplyAll(t, writes))
    && NothingRevived(ApplyAll(t, writes[..n]), ApplyAll(t, writes))
  }

  // Every statement finds its guard true at the moment it runs.
  predicate GuardedAllAlong(t: Table, writes: seq<(Write, int)>) {
    writes == [] ||
    var n := |writes| - 1;
    GuardedAllAlong(t, writes[..n]) && GuardHolds(ApplyAll(t, writes[..n]), writes[n].0)
  }

  // In every interleaving of the statements of concurrent requests, all tables along the way keep everybody in at most
  // one call and no ended call comes back if and only if every statement's guard holds when the statement runs. The
  // program checks its guards earlier, when it reads.
  lemma {:induction false} InterleavingIsSafeExactly(t: Table, writes: seq<(Write, int)>)
    requires Exclusive(t)
    requires forall i :: 0 <= i < |writes| ==> Issued(writes[i].0)
    ensures SafeAllAlong(t, writes) <==> GuardedAllAlong(t, writes)
    decreases |writes|
  {
    if writes != [] {
      var n := |writes| - 1;
      InterleavingIsSafeExactly(t, writes[..n]);
      if SafeAllAlong(t, writes[..n]) {
        SafeMeansExclusive(t, writes[..n]);
        WriteIsSafeExactly(ApplyAll(t, writes[..n]), writes[n].0, writes[n].1);
      }
    }
  }

  lemma SafeMeansExclusive(t: Table, writes: seq<(Write, int)>)
    requires Exclusive(t) && SafeAllAlong(t, writes)
    ensures Exclusive(ApplyAll(t, writes))
  {
  }

  // Guards that held when they were read are not enough: two requests to call from the same user pass the same guards
  // and both insert, whoever the other parties are.
  lemma TwoInitiatesCanBothInsert(t: Table, caller: string, callee1: string, callee2: string, conv1: nat, conv2: nat,
                                  id1: nat, id2: nat, now1: int, now2: int)
    requires id1 !in t && id2 !in t && id1 != id2
    requires !HasActiveCall(t, conv1) && !HasActiveCall(t, conv2)
    requires !IsUserInCall(t, caller) && !IsUserInCall(t, callee1) && !IsUserInCall(t, callee2)
    ensures var t1 := Apply(t, Create(id1, conv1, caller, callee1), now1);
      var r := Apply(t1, Create(id2, conv2, caller, callee2), now2);
      && id1 in r && id2 in r && Live(r[id1]) && Live(r[id2])
      && Involves(r[id1], caller) && Involves(r[id2], caller)
  {
  }

  // A callee who accepts while the caller hangs up passes the guard on a ringing row and then revives an ended one.
  lemma AcceptCanReviveAnEndedCall(t: Table, id: nat, now1: int, now2: int)
    requires id in t && t[id].status == Ringing
    ensures GetRingingCallCaller(t, id, t[id].callee).Some? && GetCallForEnd(t, id, t[id].caller).Some?
    ensures var ended := Apply(t, EndWithoutDuration(id, Cancelled), now1);
      var r := Apply(ended, Accept(id), now2);
      && !Live(ended[id])
      && r[id].status == Active && r[id].endedAt == Some(now1)
  {
  }
}
