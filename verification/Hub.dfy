// The event hub: registrations by channel, and a feed that gives every matching registered client one copy of the
// event if its buffer has room.
module Hub {
  import opened Basics
  import opened Wrappers

  type Payload = string

  datatype Json =
    | Null | Str(s: string) | Num(r: real) | Bool(b: bool) | Arr(items: seq<Json>) | Obj(fields: map<string, Json>)

  type Data = map<string, Json>

  // A dynamic filter, when a client has one, is used instead of its field filter.
  datatype Filter = Func(f: Data -> bool) | Fields(expected: map<string, string>)

  class Client {
    const channel: string
    const filter: Filter
    const capacity: nat
    var send: seq<Payload>

    constructor (channel: string, filter: Filter, capacity: nat)
      ensures this.channel == channel && this.filter == filter && this.capacity == capacity && send == []
    {
      this.channel := channel;
      this.filter := filter;
      this.capacity := capacity;
      send := [];
    }

    // A send that never waits: the event is buffered or skipped.
    method TrySend(payload: Payload)
      modifies this`send
      ensures send == if |old(send)| < capacity then old(send) + [payload] else old(send)
    {
      if |send| < capacity {
        send := send + [payload];
      }
    }
  }

  // ----- Registrations -----

  type Registry = map<string, seq<Client>>

  function Lookup(r: Registry, channel: string): seq<Client> {
    if channel in r then r[channel] else []
  }

  function Add(r: Registry, c: Client): Registry {
    r[c.channel := Lookup(r, c.channel) + [c]]
  }

  // Without the first occurrence of `c`.
  function Without(cs: seq<Client>, c: Client): seq<Client> {
    if cs == [] then [] else if cs[0] == c then cs[1..] else [cs[0]] + Without(cs[1..], c)
  }

  function Remove(r: Registry, c: Client): Registry {
    if c in Lookup(r, c.channel) then r[c.channel := Without(Lookup(r, c.channel), c)] else r
  }

  function AddAll(r: Registry, cs: seq<Client>): Registry {
    if cs == [] then r else Add(AddAll(r, cs[..|cs| - 1]), cs[|cs| - 1])
  }

  function RemoveAll(r: Registry, cs: seq<Client>): Registry {
    if cs == [] then r else Remove(RemoveAll(r, cs[..|cs| - 1]), cs[|cs| - 1])
  }

  function Count(cs: seq<Client>, c: Client): nat {
    if cs == [] then 0 else Count(cs[..|cs| - 1], c) + (if cs[|cs| - 1] == c then 1 else 0)
  }

  function Copies(payload: Payload, n: nat): seq<Payload> {
    seq(n, _ => payload)
  }

  function Room(capacity: nat, queued: seq<Payload>): nat {
    if |queued| < capacity then capacity - |queued| else 0
  }

  // What the fields of the data print as must be what the filter expects.
  predicate FieldsMatch(show: Json -> string, data: Data, expected: map<string, string>) {
    forall k :: k in expected ==> k in data && show(data[k]) == expected[k]
  }

  predicate Passes(show: Json -> string, data: Data, filter: Filter) {
    match filter
    case Func(f) => f(data)
    case Fields(expected) => FieldsMatch(show, data, expected)
  }

  // Buffer of one client after a feed visited the clients `visited` in turn.
  function Fed(show: Json -> string, data: Data, payload: Payload, visited: seq<Client>, c: Client,
               queued: seq<Payload>): seq<Payload>
  {
    if Passes(show, data, c.filter) then queued + Copies(payload, Min(Count(visited, c), Room(c.capacity, queued)))
    else queued
  }

  datatype MultiEntry = MultiEntry(channel: string, eventType: string, filterFunc: Data -> bool)

  class EventHub {
    const parse: Payload -> Option<Data>
    const show: Json -> string
    var clients: Registry

    constructor (parse: Payload -> Option<Data>, show: Json -> string)
      ensures this.parse == parse && this.show == show && clients == map[]
    {
      this.parse := parse;
      this.show := show;
      clients := map[];
    }

    method MatchesFilter(data: Data, expected: map<string, string>) returns (matched: bool)
      ensures matched <==> forall k :: k in expected ==> k in data && show(data[k]) == expected[k]
    {
      var keys := expected.Keys;
      while keys != {}
        invariant keys <= expected.Keys
        invariant forall k :: k in expected.Keys - keys ==> k in data && show(data[k]) == expected[k]
        decreases keys
      {
        var k :| k in keys;
        if k !in data || show(data[k]) != expected[k] {
          return false;
        }
        keys := keys - {k};
      }
      return true;
    }

    method Register(c: Client)
      modifies this`clients
      ensures clients == Add(old(clients), c)
    {
      clients := clients[c.channel := Lookup(clients, c.channel) + [c]];
    }

    method Unregister(c: Client)
      modifies this`clients
      ensures clients == Remove(old(clients), c)
    {
      var cs := Lookup(clients, c.channel);
      var i := 0;
      while i < |cs|
        invariant 0 <= i <= |cs|
        invariant c !in cs[..i]
        invariant clients == old(clients)
      {
        if cs[i] == c {
          WithoutFirst(cs, c, i);
          clients := clients[c.channel := cs[..i] + cs[i + 1..]];
          return;
        }
        i := i + 1;
      }
    }

    // Every client of the channel gets what `Fed` says, and nothing else changes: a full buffer is skipped, a
    // client on another channel is not touched, and an event that does not parse reaches nobody.
    method Feed(channel: string, payload: Payload)
      modifies (set c | c in Lookup(clients, channel))`send
      ensures parse(payload) == None ==> forall c :: c in Lookup(clients, channel) ==> c.send == old(c.send)
      ensures parse(payload).Some? ==>
        forall c :: c in Lookup(clients, channel) ==>
          c.send == Fed(show, parse(payload).value, payload, Lookup(clients, channel), c, old(c.send))
    {
      var cs := Lookup(clients, channel);
      if |cs| == 0 {
        return;
      }
      var parsed := parse(payload);
      if parsed == None {
        return;
      }
      var data := parsed.value;
      for i := 0 to |cs|
        invariant forall c :: c in cs ==> c.send == Fed(show, data, payload, cs[..i], c, old(c.send))
      {
        var matched := false;
        match cs[i].filter {
          case Func(f) => matched := f(data);
          case Fields(expected) => matched := MatchesFilter(data, expected);
        }
        forall c | c in cs
          ensures Fed(show, data, payload, cs[..i + 1], c, old(c.send))
            == if cs[i] == c && Passes(show, data, c.filter) && |c.send| < c.capacity then c.send + [payload]
               else c.send
        {
          FedStep(show, data, payload, cs, i, c, old(c.send));
        }
        if matched {
          cs[i].TrySend(payload);
        }
      }
      assert cs[..|cs|] == cs;
    }
  }

  // One more visit.
  lemma FedStep(show: Json -> string, data: Data, payload: Payload, cs: seq<Client>, i: nat, c: Client,
                queued: seq<Payload>)
    requires i < |cs|
    ensures var before := Fed(show, data, payload, cs[..i], c, queued);
      Fed(show, data, payload, cs[..i + 1], c, queued)
      == if cs[i] == c && Passes(show, data, c.filter) && |before| < c.capacity then before + [payload] else before
  {
    assert cs[..i + 1][..i] == cs[..i];
    OneMoreCopy(queued, payload, Min(Count(cs[..i], c), Room(c.capacity, queued)));
  }

  lemma OneMoreCopy(queued: seq<Payload>, payload: Payload, n: nat)
    ensures queued + Copies(payload, n + 1) == queued + Copies(payload, n) + [payload]
  {
  }

  lemma {:induction false} WithoutFirst(cs: seq<Client>, c: Client, i: nat)
    requires i < |cs| && cs[i] == c && c !in cs[..i]
    ensures Without(cs, c) == cs[..i] + cs[i + 1..]
    decreases i
  {
    if i > 0 {
      assert cs[0] in cs[..i];
      assert cs[1..][..i - 1] == cs[..i][1..];
      WithoutFirst(cs[1..], c, i - 1);
    }
  }

  // ----- What a feed means for one client -----

  predicate RegisteredOnce(cs: seq<Client>, c: Client, i: nat) {
    i < |cs| && cs[i] == c && forall j :: 0 <= j < |cs| && j != i ==> cs[j] != c
  }

  lemma {:induction false} CountNone(cs: seq<Client>, c: Client)
    requires c !in cs
    ensures Count(cs, c) == 0
    decreases |cs|
  {
    if cs != [] {
      CountNone(cs[..|cs| - 1], c);
    }
  }

  lemma {:induction false} CountOnce(cs: seq<Client>, c: Client, i: nat)
    requires RegisteredOnce(cs, c, i)
    ensures Count(cs, c) == 1
    decreases |cs|
  {
    var n := |cs| - 1;
    if i == n {
      CountNone(cs[..n], c);
    } else {
      CountOnce(cs[..n], c, i);
    }
  }

  // A client registered once whose filter matches gets exactly one copy if its buffer has room and none if not; one
  // whose filter does not match gets none. However often the others are registered makes no difference.
  lemma OneCopyIfRoom(show: Json -> string, data: Data, payload: Payload, cs: seq<Client>, c: Client, i: nat,
                      queued: seq<Payload>)
    requires RegisteredOnce(cs, c, i)
    ensures Fed(show, data, payload, cs, c, queued)
            == if Passes(show, data, c.filter) && |queued| < c.capacity then queued + [payload] else queued
  {
    CountOnce(cs, c, i);
    assert Copies(payload, 1) == [payload] && Copies(payload, 0) == [];
    assert queued + [] == queued;
  }

  // ----- A multiplexed client comes and goes -----

  // Moves events from a client's buffer into the shared one, with the tag of its entry; it runs on its own.
  datatype Forwarder = Forwarder(source: Client, eventType: string)

  // Registers one fresh internal client per entry, in order, and starts its forwarder.
  method RegisterMulti(hub: EventHub, entries: seq<MultiEntry>)
    returns (clients: seq<Client>, forwarders: seq<Forwarder>)
    modifies hub`clients
    ensures |clients| == |forwarders| == |entries|
    ensures forall i :: 0 <= i < |clients| ==> forwarders[i] == Forwarder(clients[i], entries[i].eventType)
    ensures forall i :: 0 <= i < |clients| ==>
      && fresh(clients[i])
      && clients[i].channel == entries[i].channel
      && clients[i].filter == Func(entries[i].filterFunc)
      && clients[i].capacity == 32 && clients[i].send == []
    ensures forall i, j :: 0 <= i < j < |clients| ==> clients[i] != clients[j]
    ensures hub.clients == AddAll(old(hub.clients), clients)
  {
    clients, forwarders := [], [];
    for i := 0 to |entries|
      invariant |clients| == |forwarders| == i
      invariant forall k :: 0 <= k < i ==> forwarders[k] == Forwarder(clients[k], entries[k].eventType)
      invariant forall k :: 0 <= k < i ==>
        && fresh(clients[k])
        && clients[k].channel == entries[k].channel
        && clients[k].filter == Func(entries[k].filterFunc)
        && clients[k].capacity == 32 && clients[k].send == []
      invariant forall j, k :: 0 <= j < k < i ==> clients[j] != clients[k]
      invariant hub.clients == AddAll(old(hub.clients), clients)
    {
      var client := new Client(entries[i].channel, Func(entries[i].filterFunc), 32);
      assert (clients + [client])[..i] == clients;
      clients := clients + [client];
      hub.Register(client);
      forwarders := forwarders + [Forwarder(client, entries[i].eventType)];
    }
  }

  method UnregisterMulti(hub: EventHub, clients: seq<Client>)
    modifies hub`clients
    ensures hub.clients == RemoveAll(old(hub.clients), clients)
  {
    for i := 0 to |clients|
      invariant hub.clients == RemoveAll(old(hub.clients), clients[..i])
    {
      assert clients[..i + 1][..i] == clients[..i];
      hub.Unregister(clients[i]);
    }
    assert clients[..|clients|] == clients;
  }

  // What a registry says, channel by channel; a channel with no clients left says the same as one never used.
  ghost predicate SameRegistrations(r: Registry, q: Registry) {
    forall channel :: Lookup(r, channel) == Lookup(q, channel)
  }

  function OnChannel(cs: seq<Client>, channel: string): seq<Client> {
    if cs == [] then []
    else OnChannel(cs[..|cs| - 1], channel) + IfOn(cs[|cs| - 1], channel)
  }

  lemma {:induction false} AddAllAppends(r: Registry, cs: seq<Client>, channel: string)
    ensures Lookup(AddAll(r, cs), channel) == Lookup(r, channel) + OnChannel(cs, channel)
    decreases |cs|
  {
    if cs != [] {
      AddAllAppends(r, cs[..|cs| - 1], channel);
    }
  }

  lemma {:induction false} WithoutSkips(front: seq<Client>, c: Client, back: seq<Client>)
    requires c !in front
    ensures Without(front + [c] + back, c) == front + back
    decreases |front|
  {
    var all := front + [c] + back;
    if front == [] {
      assert all == [c] + back;
      assert all[1..] == back;
    } else {
      assert all[1..] == front[1..] + [c] + back;
      WithoutSkips(front[1..], c, back);
    }
  }

  lemma RemoveFromChannel(r: Registry, c: Client, front: seq<Client>, back: seq<Client>)
    requires Lookup(r, c.channel) == front + [c] + back && c !in front
    ensures Lookup(Remove(r, c), c.channel) == front + back
  {
    WithoutSkips(front, c, back);
    assert (front + [c] + back)[|front|] == c;
  }

  lemma RemoveElsewhere(r: Registry, c: Client, channel: string)
    requires channel != c.channel
    ensures Lookup(Remove(r, c), channel) == Lookup(r, channel)
  {
  }

  function IfOn(c: Client, channel: string): seq<Client> {
    if c.channel == channel then [c] else []
  }

  // Removing a client takes its first occurrence from its channel only.
  lemma RemoveOne(r: Registry, c: Client, channel: string, front: seq<Client>, back: seq<Client>)
    requires Lookup(r, channel) == front + IfOn(c, channel) + back && c !in front
    ensures Lookup(Remove(r, c), channel) == front + back
  {
    if channel == c.channel {
      RemoveFromChannel(r, c, front, back);
    } else {
      RemoveElsewhere(r, c, channel);
      assert front + [] + back == front + back;
    }
  }

  lemma Regroup(a: seq<Client>, b: seq<Client>, c: seq<Client>)
    ensures a + b + c == a + (b + c)
  {
  }

  // Removing the first `n` of the added clients leaves the old ones and the rest.
  lemma {:induction false} RemovePrefix(r: Registry, cs: seq<Client>, n: nat, channel: string)
    requires n <= |cs|
    requires forall i, j :: 0 <= i < j < |cs| ==> cs[i] != cs[j]
    requires forall i, ch :: 0 <= i < |cs| && ch in r ==> cs[i] !in r[ch]
    ensures Lookup(RemoveAll(AddAll(r, cs), cs[..n]), channel) == Lookup(r, channel) + OnChannel(cs[n..], channel)
    decreases n
  {
    if n == 0 {
      AddAllAppends(r, cs, channel);
      assert cs[0..] == cs;
    } else {
      RemovePrefix(r, cs, n - 1, channel);
      assert cs[..n][..n - 1] == cs[..n - 1];
      var c := cs[n - 1];
      FirstOnChannel(cs[n - 1..], channel);
      assert cs[n - 1..][1..] == cs[n..];
      Regroup(Lookup(r, channel), IfOn(c, channel), OnChannel(cs[n..], channel));
      RemoveOne(RemoveAll(AddAll(r, cs), cs[..n - 1]), c, channel, Lookup(r, channel), OnChannel(cs[n..], channel));
    }
  }

  lemma {:induction false} FirstOnChannel(cs: seq<Client>, channel: string)
    requires cs != []
    ensures OnChannel(cs, channel) == IfOn(cs[0], channel) + OnChannel(cs[1..], channel)
    decreases |cs|
  {
    var n := |cs| - 1;
    if n > 0 {
      FirstOnChannel(cs[..n], channel);
      assert cs[..n][1..] == cs[1..][..n - 1];
    } else {
      assert cs[..0] == [] && cs[1..] == [];
    }
  }

  // A multiplexed client that registers and later unregisters leaves every channel as it found it.
  lemma UnregisterMultiUndoesRegisterMulti(r: Registry, cs: seq<Client>)
    requires forall i, j :: 0 <= i < j < |cs| ==> cs[i] != cs[j]
    requires forall i, ch :: 0 <= i < |cs| && ch in r ==> cs[i] !in r[ch]
    ensures SameRegistrations(RemoveAll(AddAll(r, cs), cs), r)
  {
    forall channel ensures Lookup(RemoveAll(AddAll(r, cs), cs), channel) == Lookup(r, channel) {
      RemovePrefix(r, cs, |cs|, channel);
      assert cs[..|cs|] == cs && cs[|cs|..] == [];
    }
  }

  // ----- The stream of one user -----

  predicate DmFilter(show: Json -> string, userID: string, data: Data) {
    "member_ids" in data && data["member_ids"].Arr?
    && exists i :: 0 <= i < |data["member_ids"].items| && show(data["member_ids"].items[i]) == userID
  }

  // A missing field prints like null.
  predicate NotificationFilter(show: Json -> string, userID: string, data: Data) {
    show(if "user_id" in data then data["user_id"] else Null) == userID
  }

  // A missing target, or one that is not a string, reads as the empty string.
  predicate CallFilter(userID: string, data: Data) {
    (if "target_user_id" in data && data["target_user_id"].Str? then data["target_user_id"].s else "") == userID
  }

  function StreamEntries(show: Json -> string, userID: string): seq<MultiEntry> {
    [MultiEntry("dm_changes", "dm", data => DmFilter(show, userID, data)),
     MultiEntry("forumline_notification_changes", "notification", data => NotificationFilter(show, userID, data)),
     MultiEntry("call_signal", "call", data => CallFilter(userID, data))]
  }

  // For a user with an id, the call filter accepts exactly the events whose target is the user: the empty string that
  // stands for a missing target is nobody's id.
  lemma CallFilterIsTheTarget(userID: string, data: Data)
    requires userID != ""
    ensures CallFilter(userID, data) <==> "target_user_id" in data && data["target_user_id"] == Str(userID)
  {
  }

  lemma StreamTagsDiffer(show: Json -> string, userID: string)
    ensures var es := StreamEntries(show, userID);
      forall i, j :: 0 <= i < j < |es| ==> es[i].eventType != es[j].eventType && es[i].channel != es[j].channel
  {
    assert |"dm"| == 2 && |"notification"| == 12 && |"call"| == 4;
    assert |"dm_changes"| == 10 && |"forumline_notification_changes"| == 30 && |"call_signal"| == 11;
  }
}
