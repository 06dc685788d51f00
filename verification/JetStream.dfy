// Message history of a conversation: one page of it by uint64 window arithmetic, and paging backwards through a
// stream that keeps growing at one end and discarding at the other.
module JetStream {
  import opened Wrappers

  datatype Message = Message(id: string, senderID: string, content: string)

  // A stored payload decodes to a message or does not.
  type Payload = Option<Message>

  // A stream retains consecutive sequence numbers; when it is empty, `first` is one past the last number used.
  datatype Stream = Stream(first: nat, retained: seq<Payload>) {
    function Last(): int {
      first + |retained| - 1
    }

    function At(n: int): Payload
      requires first <= n <= Last()
    {
      retained[n - first]
    }

    // Sequence numbers start at 1 and the last one is not the largest uint64.
    predicate Valid() {
      first >= 1 && Last() < U64 - 1
    }
  }

  const U64: nat := 0x1_0000_0000_0000_0000
  const MAX_MSGS: nat := 10000

  // uint64 arithmetic wraps around.
  function Wrap(n: int): nat {
    n % U64
  }

  // ----- What a page should be -----

  datatype Entry<T> = Entry(sequence: nat, body: T)

  function Raw(s: Stream): seq<Entry<Payload>> {
    seq(|s.retained|, i requires 0 <= i < |s.retained| => Entry(s.first + i, s.retained[i]))
  }

  // The entries before a sequence number; zero stands for no bound.
  function Below(es: seq<Entry<Payload>>, before: nat): seq<Entry<Payload>> {
    if es == [] then []
    else (if before == 0 || es[0].sequence < before then [es[0]] else []) + Below(es[1..], before)
  }

  function LastN<T>(xs: seq<T>, n: nat): seq<T> {
    if n >= |xs| then xs else xs[|xs| - n..]
  }

  // Payloads that do not decode are left out.
  function Decode(es: seq<Entry<Payload>>): seq<Entry<Message>> {
    if es == [] then []
    else
      var last := es[|es| - 1];
      Decode(es[..|es| - 1]) + (if last.body.Some? then [Entry(last.sequence, last.body.value)] else [])
  }

  function PageOf(s: Stream, limit: nat, before: nat): seq<Entry<Payload>> {
    LastN(Below(Raw(s), before), limit)
  }

  function Clamp(n: int, hi: nat): nat {
    if n < 0 then 0 else if n > hi then hi else n
  }

  lemma {:induction false} BelowIsPrefix(es: seq<Entry<Payload>>, start: nat, before: nat)
    requires before > 0
    requires forall i :: 0 <= i < |es| ==> es[i].sequence == start + i
    ensures Below(es, before) == es[..Clamp(before - start, |es|)]
    decreases |es|
  {
    if es != [] {
      BelowIsPrefix(es[1..], start + 1, before);
      var n := Clamp(before - start, |es|);
      if n > 0 {
        assert es[..n] == [es[0]] + es[1..][..n - 1];
      }
    }
  }

  lemma {:induction false} BelowZeroIsAll(es: seq<Entry<Payload>>)
    ensures Below(es, 0) == es
    decreases |es|
  {
    if es != [] {
      BelowZeroIsAll(es[1..]);
    }
  }

  // Without wrap-around, the number of retained entries below `before`.
  lemma RawBelow(s: Stream, before: nat)
    requires s.Valid()
    ensures Below(Raw(s), before)
            == Raw(s)[..if before == 0 then |s.retained| else Clamp(before - s.first, |s.retained|)]
  {
    if before == 0 {
      BelowZeroIsAll(Raw(s));
    } else {
      BelowIsPrefix(Raw(s), s.first, before);
    }
  }

  // ----- One page -----

  // The window of at most `limit` numbers ending at `endSeq`, in arithmetic that may wrap around.
  lemma StartOfWindow(first: nat, endSeq: nat, limit: nat)
    requires 1 <= first <= endSeq < U64 - 1 && limit < U64 / 2
    ensures Wrap(endSeq - limit + 1) > first && limit <= endSeq <==> endSeq - limit + 1 > first
    ensures endSeq - limit + 1 > first ==> Wrap(endSeq - limit + 1) == endSeq - limit + 1
  {
  }

  // The bounds of the page, or none when it is empty for sure. `endSeq - limit + 1` may wrap around; when it does,
  // the second test sends the computation to the other branch.
  method PageBounds(s: Stream, limit: nat, beforeSeq: nat) returns (bounds: Option<(nat, nat)>)
    requires s.Valid()
    requires limit < U64 / 2 && beforeSeq < U64
    ensures bounds == None ==> PageOf(s, limit, beforeSeq) == []
    ensures bounds.Some? ==>
      var (startSeq, endSeq) := bounds.value;
      && s.first <= startSeq <= endSeq + 1 <= s.Last() + 1
      && PageOf(s, limit, beforeSeq) == Raw(s)[startSeq - s.first..endSeq + 1 - s.first]
  {
    RawBelow(s, beforeSeq);
    if |s.retained| == 0 {
      return None;
    }
    var endSeq: nat := s.Last();
    if beforeSeq > 0 && beforeSeq <= endSeq {
      endSeq := Wrap(beforeSeq - 1);
    }
    if endSeq < s.first {
      return None;
    }
    var startSeq: nat;
    StartOfWindow(s.first, endSeq, limit);
    if Wrap(endSeq - limit + 1) > s.first && limit <= endSeq {
      startSeq := Wrap(endSeq - limit + 1);
    } else {
      startSeq := s.first;
    }
    bounds := Some((startSeq, endSeq));
  }

  // The messages of a page of which the consumer delivers at most `budget` before its context ends: the oldest ones.
  function Delivered(s: Stream, limit: nat, before: nat, budget: nat): seq<Entry<Message>> {
    var page := PageOf(s, limit, before);
    Decode(page[..Clamp(budget, |page|)])
  }

  // `budget` is how many messages the consumer delivers before its context ends.
  method GetMessages(stream: Option<Stream>, limit: int, beforeSeq: nat, budget: nat)
    returns (messages: seq<Entry<Message>>)
    requires stream.Some? ==> stream.value.Valid()
    requires 0 <= limit < U64 / 2 && beforeSeq < U64
    ensures stream == None ==> messages == []
    ensures stream.Some? ==> messages == Delivered(stream.value, limit, beforeSeq, budget)
  {
    if stream == None {
      return [];
    }
    var s := stream.value;
    var bounds := PageBounds(s, limit, beforeSeq);
    if bounds == None {
      return [];
    }
    var (startSeq, endSeq) := bounds.value;
    ghost var page := PageOf(s, limit, beforeSeq);
    messages := [];
    var seqNo, delivered := startSeq, 0;
    while seqNo <= endSeq
      invariant startSeq <= seqNo <= endSeq + 1
      invariant delivered == seqNo - startSeq <= Clamp(budget, |page|)
      invariant messages == Decode(page[..delivered])
    {
      if delivered == budget {
        break;
      }
      var payload := s.At(seqNo);
      assert page[delivered] == Raw(s)[seqNo - s.first];
      assert page[..delivered + 1][..delivered] == page[..delivered];
      if payload.Some? {
        messages := messages + [Entry(seqNo, payload.value)];
      }
      seqNo, delivered := Wrap(seqNo + 1), delivered + 1;
    }
  }

  // ----- The stream between pages -----

  datatype Event = Publish(payload: Payload) | Expire(count: nat)

  // A publish past the limit discards the oldest message; age discards any number of them.
  function Apply(s: Stream, e: Event): Stream {
    match e
    case Publish(p) =>
      var all := s.retained + [p];
      if |all| > MAX_MSGS then Stream(s.first + 1, all[1..]) else Stream(s.first, all)
    case Expire(k) =>
      var n := Clamp(k, |s.retained|);
      Stream(s.first + n, s.retained[n..])
  }

  function ApplyAll(s: Stream, events: seq<Event>): Stream
    decreases |events|
  {
    if events == [] then s else ApplyAll(Apply(s, events[0]), events[1..])
  }

  // A publish takes the next number, and discards the oldest message if there were ten thousand; an expiry discards the
  // oldest ones, as many as it says or all.
  lemma EventsExactly(s: Stream, e: Event)
    ensures var t := Apply(s, e);
      match e
      case Publish(p) =>
        && t.Last() == s.Last() + 1 && t.first == (if |s.retained| >= 10000 then s.first + 1 else s.first)
        && t.At(t.Last()) == p && forall n :: t.first <= n <= s.Last() ==> t.At(n) == s.At(n)
      case Expire(count) =>
        && t.Last() == s.Last() && t.first == (if count < |s.retained| then s.first + count else s.first + |s.retained|)
        && forall n :: t.first <= n <= s.Last() ==> t.At(n) == s.At(n)
  {
  }

  lemma {:induction false} NeverMoreThanTenThousand(s: Stream, events: seq<Event>)
    requires |s.retained| <= 10000
    ensures |ApplyAll(s, events).retained| <= 10000
    decreases |events|
  {
    if events != [] {
      NeverMoreThanTenThousand(Apply(s, events[0]), events[1..]);
    }
  }

  // Events happen one after the other.
  lemma {:induction false} EventsGoOn(s: Stream, events: seq<Event>, e: Event)
    ensures ApplyAll(s, []) == s && ApplyAll(s, events + [e]) == Apply(ApplyAll(s, events), e)
    decreases |events|
  {
    if events == [] {
      assert ([] + [e])[1..] == [];
    } else {
      EventsGoOn(Apply(s, events[0]), events[1..], e);
      assert (events + [e])[1..] == events[1..] + [e];
    }
  }

  // Both ends move forward only, and a sequence number never changes its payload.
  predicate Later(s: Stream, t: Stream) {
    && s.first <= t.first
    && s.Last() <= t.Last()
    && forall n :: t.first <= n <= s.Last() ==> t.At(n) == s.At(n)
  }

  lemma LaterTransitive(s: Stream, t: Stream, u: Stream)
    requires Later(s, t) && Later(t, u)
    ensures Later(s, u)
  {
    forall n | u.first <= n <= s.Last() ensures u.At(n) == s.At(n) {
      assert t.At(n) == s.At(n);
    }
  }

  lemma {:induction false} EventsMoveForward(s: Stream, events: seq<Event>)
    ensures Later(s, ApplyAll(s, events))
    decreases |events|
  {
    if events != [] {
      var t := Apply(s, events[0]);
      EventsMoveForward(t, events[1..]);
      LaterTransitive(s, t, ApplyAll(t, events[1..]));
    }
  }

  // ----- Paging backwards -----

  // The pages a reader gets who asks before the first sequence number of the page just received, the stream being
  // `streams[i]` at the i-th request. Paging ends at an empty page.
  function Pages(streams: seq<Stream>, limit: nat, before: nat): seq<seq<Entry<Payload>>> {
    if streams == [] then []
    else
      var page := PageOf(streams[0], limit, before);
      if page == [] then [] else [page] + Pages(streams[1..], limit, page[0].sequence)
  }

  // Pages come newest first; in reading order they follow one another backwards.
  function InOrder<T>(pages: seq<seq<T>>): seq<T> {
    if pages == [] then [] else InOrder(pages[1..]) + pages[0]
  }

  ghost predicate History(streams: seq<Stream>) {
    && (forall i :: 0 <= i < |streams| ==> streams[i].Valid())
    && (forall i :: 0 < i < |streams| ==> Later(streams[i - 1], streams[i]))
  }

  // What a later stream still has below a number the earlier one retained, or its end.
  lemma LaterBelow(s: Stream, t: Stream, before: nat)
    requires s.Valid() && t.Valid() && Later(s, t)
    requires s.first <= before <= s.Last() + 1
    ensures var n := before - s.first;
      n <= |s.retained| && Below(Raw(t), before) == Raw(s)[..n][Clamp(t.first - s.first, n)..]
  {
    RawBelow(t, before);
    var n := before - s.first;
    var skipped := Clamp(t.first - s.first, n);
    var cur := Below(Raw(t), before);
    assert |cur| == n - skipped;
    forall i | 0 <= i < |cur| ensures cur[i] == Raw(s)[skipped + i] {
      assert t.At(t.first + i) == s.At(t.first + i);
    }
  }

  // A page ends where the entries below `before` end, and the next request sees the rest of them, less discards.
  lemma PageThenRest(s: Stream, t: Stream, limit: nat, before: nat)
    requires s.Valid() && t.Valid() && Later(s, t)
    requires PageOf(s, limit, before) != []
    ensures var all, page := Below(Raw(s), before), PageOf(s, limit, before);
      var rest := |all| - |page|;
      && page == all[rest..]
      && Below(Raw(t), page[0].sequence) == all[..rest][Clamp(t.first - s.first, rest)..]
  {
    RawBelow(s, before);
    var all, page := Below(Raw(s), before), PageOf(s, limit, before);
    var rest := |all| - |page|;
    assert page[0] == Raw(s)[rest];
    LaterBelow(s, t, s.first + rest);
    assert Raw(s)[..rest] == all[..rest];
  }

  // The pages put in order are one unbroken stretch of what lay below `before` at the first request, ending where
  // that ended.
  ghost predicate Unbroken(all: seq<Entry<Payload>>, pages: seq<seq<Entry<Payload>>>) {
    && |pages| <= |InOrder(pages)| <= |all|
    && InOrder(pages) == all[|all| - |InOrder(pages)|..]
  }

  // Paging ended by itself, and only discarded entries are missing at the far end.
  ghost predicate Complete(all: seq<Entry<Payload>>, pages: seq<seq<Entry<Payload>>>, streams: seq<Stream>)
    requires |pages| < |streams|
  {
    |all| - |InOrder(pages)| <= Clamp(streams[|pages|].first - streams[0].first, |all|)
  }

  // Whatever is published and discarded between requests, nothing is repeated and nothing retained is skipped.
  lemma {:induction false} PagesTile(streams: seq<Stream>, limit: nat, before: nat)
    requires History(streams) && |streams| > 0
    requires limit >= 1
    ensures Unbroken(Below(Raw(streams[0]), before), Pages(streams, limit, before))
    ensures |Pages(streams, limit, before)| < |streams| ==>
      Complete(Below(Raw(streams[0]), before), Pages(streams, limit, before), streams)
    decreases |streams|
  {
    var page := PageOf(streams[0], limit, before);
    if page != [] {
      var older := Pages(streams[1..], limit, page[0].sequence);
      if |streams| > 1 {
        PagesTile(streams[1..], limit, page[0].sequence);
      }
      PagesTileStep(streams, limit, before, page, older);
    }
  }

  lemma PagesTileStep(streams: seq<Stream>, limit: nat, before: nat, page: seq<Entry<Payload>>,
                      older: seq<seq<Entry<Payload>>>)
    requires History(streams) && |streams| > 0
    requires page == PageOf(streams[0], limit, before) != []
    requires |streams| == 1 ==> older == []
    requires |streams| > 1 ==> Unbroken(Below(Raw(streams[1]), page[0].sequence), older)
    requires 1 < |streams| && |older| + 1 < |streams| ==>
      Complete(Below(Raw(streams[1]), page[0].sequence), older, streams[1..])
    ensures Unbroken(Below(Raw(streams[0]), before), [page] + older)
    ensures |older| + 1 < |streams| ==> Complete(Below(Raw(streams[0]), before), [page] + older, streams)
  {
    var all := Below(Raw(streams[0]), before);
    PageIsTheEnd(streams[0], limit, before);
    if |streams| > 1 {
      assert Later(streams[0], streams[1]);
      PageThenRest(streams[0], streams[1], limit, before);
      AddLaterPage(all, Below(Raw(streams[1]), page[0].sequence), page, older, streams);
    } else {
      AddPage(all, page, 0, []);
    }
  }

  lemma PageIsTheEnd(s: Stream, limit: nat, before: nat)
    ensures var all, page := Below(Raw(s), before), PageOf(s, limit, before);
      |page| <= |all| && page == all[|all| - |page|..]
  {
  }

  lemma AddLaterPage(all: seq<Entry<Payload>>, next: seq<Entry<Payload>>, page: seq<Entry<Payload>>,
                     older: seq<seq<Entry<Payload>>>, streams: seq<Stream>)
    requires History(streams) && |streams| > 1
    requires 0 < |page| <= |all| && page == all[|all| - |page|..]
    requires Later(streams[0], streams[1])
    requires var rest := |all| - |page|;
      next == all[..rest][Clamp(streams[1].first - streams[0].first, rest)..]
    requires Unbroken(next, older)
    requires |older| + 1 < |streams| ==> Complete(next, older, streams[1..])
    ensures Unbroken(all, [page] + older)
    ensures |older| + 1 < |streams| ==> Complete(all, [page] + older, streams)
  {
    AddPage(all, page, Clamp(streams[1].first - streams[0].first, |all| - |page|), older);
    if |older| + 1 < |streams| {
      AddPageComplete(all, page, older, streams);
    }
  }

  // With one request more than there are messages to read, paging ends by itself.
  lemma PagingEnds(streams: seq<Stream>, limit: nat, before: nat)
    requires History(streams) && |streams| > 0 && |streams| > |Below(Raw(streams[0]), before)|
    requires limit >= 1
    ensures |Pages(streams, limit, before)| < |streams|
  {
    PagesTile(streams, limit, before);
  }

  lemma ClampAdds(a: nat, b: nat, rest: nat, n: nat)
    requires rest <= n
    ensures Clamp(a, rest) + Clamp(b, rest - Clamp(a, rest)) <= Clamp(a + b, n)
  {
  }

  lemma AddPageComplete(all: seq<Entry<Payload>>, page: seq<Entry<Payload>>, older: seq<seq<Entry<Payload>>>,
                        streams: seq<Stream>)
    requires History(streams) && |older| + 1 < |streams|
    requires |page| <= |all|
    requires var rest := |all| - |page|;
      Complete(all[..rest][Clamp(streams[1].first - streams[0].first, rest)..], older, streams[1..])
    requires InOrder([page] + older) == InOrder(older) + page
    ensures Complete(all, [page] + older, streams)
  {
    assert streams[1..][|older|] == streams[|older| + 1];
    assert Later(streams[0], streams[1]);
    LaterOverall(streams, |older| + 1);
    ClampAdds(streams[1].first - streams[0].first, streams[|older| + 1].first - streams[1].first,
              |all| - |page|, |all|);
  }

  // One page in front of an unbroken stretch of the rest.
  lemma AddPage(all: seq<Entry<Payload>>, page: seq<Entry<Payload>>, skipped: nat, older: seq<seq<Entry<Payload>>>)
    requires 0 < |page| <= |all| && page == all[|all| - |page|..]
    requires skipped <= |all| - |page|
    requires Unbroken(all[..|all| - |page|][skipped..], older)
    ensures Unbroken(all, [page] + older)
    ensures InOrder([page] + older) == InOrder(older) + page
  {
    assert ([page] + older)[1..] == older;
    SuffixOfSuffix(all, |all| - |page|, skipped, InOrder(older));
  }

  lemma SuffixOfSuffix<T>(all: seq<T>, rest: nat, skipped: nat, older: seq<T>)
    requires skipped <= rest <= |all|
    requires |older| <= rest - skipped
    requires older == all[..rest][skipped..][rest - skipped - |older|..]
    ensures older + all[rest..] == all[rest - |older|..]
  {
    assert older == all[rest - |older|..rest];
  }

  lemma {:induction false} LaterOverall(streams: seq<Stream>, i: nat)
    requires History(streams) && 1 <= i < |streams|
    ensures streams[1].first <= streams[i].first
    decreases i
  {
    if i > 1 {
      LaterOverall(streams, i - 1);
      assert Later(streams[i - 1], streams[i]);
    }
  }

  // ----- Unread count -----

  method GetUnreadCount(stream: Option<Stream>, lastReadSeq: nat) returns (count: nat)
    requires stream.Some? ==> stream.value.Valid()
    ensures stream == None ==> count == 0
    ensures stream.Some? ==> count == UnreadAnswer(stream.value, lastReadSeq)
  {
    if stream == None {
      return 0;
    }
    var s := stream.value;
    if |s.retained| == 0 || lastReadSeq >= s.Last() {
      return 0;
    }
    count := Wrap(s.Last() - lastReadSeq);
  }

  function UnreadAnswer(s: Stream, lastReadSeq: nat): nat {
    if |s.retained| == 0 || lastReadSeq >= s.Last() then 0 else s.Last() - lastReadSeq
  }

  // The entries after a sequence number.
  function Above(es: seq<Entry<Payload>>, after: nat): seq<Entry<Payload>> {
    if es == [] then []
    else (if es[0].sequence > after then [es[0]] else []) + Above(es[1..], after)
  }

  lemma {:induction false} AboveIsSuffix(es: seq<Entry<Payload>>, start: nat, after: nat)
    requires forall i :: 0 <= i < |es| ==> es[i].sequence == start + i
    ensures |Above(es, after)| == |es| - Clamp(after + 1 - start, |es|)
    decreases |es|
  {
    if es != [] {
      AboveIsSuffix(es[1..], start + 1, after);
    }
  }

  // The answer is the number of retained messages after the last one read plus, if anything is retained at all, the
  // sequence numbers after it that have been discarded. So it is the number of messages one can still read exactly when
  // nothing is retained or nothing unread has been discarded.
  lemma UnreadCountExact(s: Stream, lastReadSeq: nat)
    requires s.Valid()
    ensures var answer, unread := UnreadAnswer(s, lastReadSeq), |Above(Raw(s), lastReadSeq)|;
      && answer == unread + (if |s.retained| == 0 || lastReadSeq + 1 >= s.first then 0 else s.first - 1 - lastReadSeq)
      && (answer == unread <==> |s.retained| == 0 || lastReadSeq + 1 >= s.first)
  {
    AboveIsSuffix(Raw(s), s.first, lastReadSeq);
  }
}
