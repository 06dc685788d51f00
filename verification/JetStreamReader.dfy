// Paging as a reader sees it: a page lacks the payloads that do not decode and, when delivery ends early, its newest
// part; the next request asks before the first message received.
module JetStreamReader {
  import opened Wrappers
  import opened JetStream

  // The stream when a request is served, and how many messages are delivered to it.
  datatype Request = Request(stream: Stream, budget: nat)

  function ReaderPages(requests: seq<Request>, limit: nat, before: nat): seq<seq<Entry<Message>>> {
    if requests == [] then []
    else
      var page := Delivered(requests[0].stream, limit, before, requests[0].budget);
      if page == [] then [] else [page] + ReaderPages(requests[1..], limit, page[0].sequence)
  }

  ghost predicate ReaderHistory(requests: seq<Request>) {
    && (forall i :: 0 <= i < |requests| ==> requests[i].stream.Valid())
    && (forall i :: 0 < i < |requests| ==> Later(requests[i - 1].stream, requests[i].stream))
  }

  // No page received lacks a message that decodes.
  predicate EachPageWhole(requests: seq<Request>, limit: nat, before: nat) {
    requests == [] ||
    var s := requests[0].stream;
    var page := Delivered(s, limit, before, requests[0].budget);
    page == []
    || (page == Decode(PageOf(s, limit, before)) && EachPageWhole(requests[1..], limit, page[0].sequence))
  }

  predicate IsSuffix<T(==)>(a: seq<T>, b: seq<T>) {
    |a| <= |b| && b[|b| - |a|..] == a
  }

  lemma SuffixTransitive<T>(a: seq<T>, b: seq<T>, c: seq<T>)
    requires IsSuffix(a, b) && IsSuffix(b, c)
    ensures IsSuffix(a, c)
  {
    assert c[|c| - |a|..] == c[|c| - |b|..][|b| - |a|..];
  }

  lemma EndIsSuffix<T>(a: seq<T>, b: seq<T>)
    ensures IsSuffix(b, a + b)
  {
  }

  lemma SuffixThenMore<T>(a: seq<T>, b: seq<T>, more: seq<T>)
    requires IsSuffix(a, b)
    ensures IsSuffix(a + more, b + more)
  {
  }

  lemma {:induction false} DecodeSplits(a: seq<Entry<Payload>>, b: seq<Entry<Payload>>)
    ensures Decode(a + b) == Decode(a) + Decode(b)
    decreases |b|
  {
    if b == [] {
      assert a + b == a;
    } else {
      var init := b[..|b| - 1];
      assert (a + b)[..|a + b| - 1] == a + init;
      DecodeSplits(a, init);
    }
  }

  lemma DecodeAt(es: seq<Entry<Payload>>, k: nat)
    requires k <= |es|
    ensures Decode(es) == Decode(es[..k]) + Decode(es[k..])
  {
    assert es[..k] + es[k..] == es;
    DecodeSplits(es[..k], es[k..]);
  }

  // Nothing before the first entry that decodes counts.
  lemma {:induction false} FirstDecoded(es: seq<Entry<Payload>>) returns (j: nat)
    requires Decode(es) != []
    ensures j < |es| && es[j].body.Some? && es[j].sequence == Decode(es)[0].sequence
    ensures Decode(es[j..]) == Decode(es)
    decreases |es|
  {
    var init := es[..|es| - 1];
    if Decode(init) == [] {
      j := |es| - 1;
      DecodeAt(es, j);
    } else {
      j := FirstDecoded(init);
      assert es[j..][..|es[j..]| - 1] == init[j..];
    }
  }

  lemma DecodedRest(all: seq<Entry<Payload>>, i: nat, skipped: nat)
    requires i <= |all| && skipped <= i
    ensures IsSuffix(Decode(all[..i][skipped..]) + Decode(all[i..]), Decode(all))
  {
    DecodeAt(all, i);
    DecodeAt(all[..i], skipped);
    EndIsSuffix(Decode(all[..i][..skipped]), Decode(all[..i][skipped..]));
    SuffixThenMore(Decode(all[..i][skipped..]), Decode(all[..i]), Decode(all[i..]));
  }

  // Where the first message of a page stands among the entries below `before`.
  lemma FirstOfPage(s: Stream, limit: nat, before: nat) returns (i: nat)
    requires s.Valid() && Decode(PageOf(s, limit, before)) != []
    ensures var all, page := Below(Raw(s), before), Decode(PageOf(s, limit, before));
      && i < |all| <= |s.retained| && all == Raw(s)[..|all|]
      && |all| - |LastN(all, limit)| <= i && all[i].body.Some?
      && page[0].sequence == s.first + i && Decode(all[i..]) == page
  {
    RawBelow(s, before);
    var all, page := Below(Raw(s), before), PageOf(s, limit, before);
    var j := FirstDecoded(page);
    i := |all| - |page| + j;
    assert all[i..] == page[j..];
    assert page[j] == Raw(s)[i];
  }

  // What a later request sees that asks before the `i`-th entry of an earlier one.
  lemma SeenBefore(s: Stream, t: Stream, before: nat, i: nat)
    requires s.Valid() && t.Valid() && Later(s, t)
    requires var all := Below(Raw(s), before);
      i < |all| <= |s.retained| && all == Raw(s)[..|all|]
    ensures Below(Raw(t), s.first + i) == Below(Raw(s), before)[..i][Clamp(t.first - s.first, i)..]
    ensures t == s ==> Below(Raw(t), s.first + i) == Below(Raw(s), before)[..i]
  {
    var all := Below(Raw(s), before);
    LaterBelow(s, t, s.first + i);
    assert Raw(s)[..i] == all[..i];
  }

  // The page just read and what the next request can still see are a stretch of what the first request could see.
  lemma ReaderPageThenRest(s: Stream, t: Stream, limit: nat, before: nat)
    requires s.Valid() && t.Valid() && Later(s, t)
    requires Decode(PageOf(s, limit, before)) != []
    ensures var page := Decode(PageOf(s, limit, before));
      IsSuffix(Decode(Below(Raw(t), page[0].sequence)) + page, Decode(Below(Raw(s), before)))
  {
    var i := FirstOfPage(s, limit, before);
    SeenBefore(s, t, before, i);
    DecodedRest(Below(Raw(s), before), i, Clamp(t.first - s.first, i));
  }

  // ----- Pages received in part -----

  ghost predicate Increasing<T>(es: seq<Entry<T>>) {
    forall i, j :: 0 <= i < j < |es| ==> es[i].sequence < es[j].sequence
  }

  ghost predicate AllBelow<T>(es: seq<Entry<T>>, n: nat) {
    forall i :: 0 <= i < |es| ==> es[i].sequence < n
  }

  lemma {:induction false} DecodedBelow(es: seq<Entry<Payload>>, n: nat)
    requires AllBelow(es, n)
    ensures AllBelow(Decode(es), n)
    decreases |es|
  {
    if es != [] {
      DecodedBelow(es[..|es| - 1], n);
    }
  }

  lemma {:induction false} DecodedIncreasing(es: seq<Entry<Payload>>)
    requires Increasing(es)
    ensures Increasing(Decode(es))
    decreases |es|
  {
    if es != [] {
      var n := |es| - 1;
      DecodedIncreasing(es[..n]);
      DecodedBelow(es[..n], es[n].sequence);
    }
  }

  lemma PageIncreasing(s: Stream, limit: nat, before: nat)
    requires s.Valid()
    ensures Increasing(Decode(PageOf(s, limit, before)))
  {
    RawBelow(s, before);
    DecodedIncreasing(PageOf(s, limit, before));
  }

  // What is received of a page is its oldest part, and it begins as the whole page does.
  lemma ReceivedIsOldest(s: Stream, limit: nat, before: nat, budget: nat)
    ensures Delivered(s, limit, before, budget) <= Decode(PageOf(s, limit, before))
  {
    var page := PageOf(s, limit, before);
    DecodeAt(page, Clamp(budget, |page|));
  }

  // A page received in part cannot be the end of the messages.
  lemma OnlyWholePagesEnd<T>(older: seq<Entry<T>>, part: seq<Entry<T>>, rest: seq<Entry<T>>, page: seq<Entry<T>>,
                             all: seq<Entry<T>>)
    requires part != [] && part <= page && Increasing(page)
    requires IsSuffix(older + part, all) && IsSuffix(rest + page, all)
    ensures part == page
  {
    assert (older + part)[|older + part| - 1] == part[|part| - 1] == page[|part| - 1];
    assert (rest + page)[|rest + page| - 1] == page[|page| - 1];
  }

  lemma SuffixWithoutEnd<T>(a: seq<T>, b: seq<T>, end: seq<T>, all: seq<T>)
    requires IsSuffix(a + end, all) && IsSuffix(b + end, all) && |a| <= |b|
    ensures IsSuffix(a, b)
  {
    var c := all[..|all| - |end|];
    assert c[|c| - |a|..] == (a + end)[..|a|];
    assert c[|c| - |b|..] == (b + end)[..|b|];
  }

  // A page and what the next request can see.
  lemma NextRequest(requests: seq<Request>, limit: nat, before: nat) returns (rest: seq<Entry<Message>>)
    requires ReaderHistory(requests) && |requests| > 0
    requires Delivered(requests[0].stream, limit, before, requests[0].budget) != []
    ensures var s := requests[0].stream;
      var page, part := Decode(PageOf(s, limit, before)), Delivered(s, limit, before, requests[0].budget);
      && part <= page
      && IsSuffix(rest + page, Decode(Below(Raw(s), before)))
      && (|requests| > 1 ==> rest == Decode(Below(Raw(requests[1].stream), part[0].sequence)))
  {
    var s := requests[0].stream;
    ReceivedIsOldest(s, limit, before, requests[0].budget);
    var t := if |requests| > 1 then requests[1].stream else s;
    assert |requests| > 1 ==> Later(s, requests[1].stream);
    ReaderPageThenRest(s, t, limit, before);
    rest := Decode(Below(Raw(t), Decode(PageOf(s, limit, before))[0].sequence));
  }

  lemma HistoryOfRest(requests: seq<Request>)
    requires ReaderHistory(requests) && |requests| > 0
    ensures ReaderHistory(requests[1..])
  {
    var rest := requests[1..];
    forall i | 0 < i < |rest| ensures Later(rest[i - 1].stream, rest[i].stream) {
      assert Later(requests[i].stream, requests[i + 1].stream);
    }
  }

  // Nothing is received twice.
  lemma {:induction false} NoMoreThanThereAre(requests: seq<Request>, limit: nat, before: nat)
    requires ReaderHistory(requests) && |requests| > 0
    ensures |InOrder(ReaderPages(requests, limit, before))| <= |Decode(Below(Raw(requests[0].stream), before))|
    decreases |requests|
  {
    var part := Delivered(requests[0].stream, limit, before, requests[0].budget);
    if part != [] {
      var rest := NextRequest(requests, limit, before);
      ReadInOrder(requests, limit, before);
      if |requests| > 1 {
        HistoryOfRest(requests);
        NoMoreThanThereAre(requests[1..], limit, part[0].sequence);
      }
    }
  }

  lemma ReadInOrder(requests: seq<Request>, limit: nat, before: nat)
    requires |requests| > 0
    ensures var part := Delivered(requests[0].stream, limit, before, requests[0].budget);
      InOrder(ReaderPages(requests, limit, before))
      == if part == [] then [] else InOrder(ReaderPages(requests[1..], limit, part[0].sequence)) + part
  {
    var part := Delivered(requests[0].stream, limit, before, requests[0].budget);
    if part != [] {
      assert ReaderPages(requests, limit, before)[1..] == ReaderPages(requests[1..], limit, part[0].sequence);
    }
  }

  // However the stream grows and discards between requests, whatever does not decode and wherever delivery ends: the
  // pages a reader receives are in order one unbroken stretch of the messages below `before`, ending where those end,
  // if and only if no page received lacks a message that decodes. What a page lacks is never received later.
  lemma {:induction false} ReaderPagesTileExactly(requests: seq<Request>, limit: nat, before: nat)
    requires ReaderHistory(requests) && |requests| > 0
    ensures IsSuffix(InOrder(ReaderPages(requests, limit, before)), Decode(Below(Raw(requests[0].stream), before)))
      <==> EachPageWhole(requests, limit, before)
    decreases |requests|
  {
    var part := Delivered(requests[0].stream, limit, before, requests[0].budget);
    ReadInOrder(requests, limit, before);
    if part != [] {
      if |requests| > 1 {
        HistoryOfRest(requests);
        ReaderPagesTileExactly(requests[1..], limit, part[0].sequence);
        NoMoreThanThereAre(requests[1..], limit, part[0].sequence);
      }
      FirstPageExactly(requests, limit, before, InOrder(ReaderPages(requests[1..], limit, part[0].sequence)));
    }
  }

  lemma FirstPageExactly(requests: seq<Request>, limit: nat, before: nat, older: seq<Entry<Message>>)
    requires ReaderHistory(requests) && |requests| > 0
    requires var part := Delivered(requests[0].stream, limit, before, requests[0].budget);
      && part != []
      && (|requests| > 1 ==> |older| <= |Decode(Below(Raw(requests[1].stream), part[0].sequence))|)
      && (|requests| == 1 ==> older == [])
    ensures var s := requests[0].stream;
      var part := Delivered(s, limit, before, requests[0].budget);
      IsSuffix(older + part, Decode(Below(Raw(s), before)))
      <==> part == Decode(PageOf(s, limit, before))
           && (|requests| > 1 ==> IsSuffix(older, Decode(Below(Raw(requests[1].stream), part[0].sequence))))
  {
    var s := requests[0].stream;
    var rest := NextRequest(requests, limit, before);
    PageIncreasing(s, limit, before);
    OnePageExactly(older, Delivered(s, limit, before, requests[0].budget), rest, Decode(PageOf(s, limit, before)),
                   Decode(Below(Raw(s), before)));
  }

  lemma OnePageExactly(older: seq<Entry<Message>>, part: seq<Entry<Message>>, rest: seq<Entry<Message>>,
                       page: seq<Entry<Message>>, all: seq<Entry<Message>>)
    requires part != [] && part <= page && Increasing(page) && IsSuffix(rest + page, all) && |older| <= |rest|
    ensures IsSuffix(older + part, all) <==> part == page && IsSuffix(older, rest)
  {
    if IsSuffix(older + part, all) {
      OnlyWholePagesEnd(older, part, rest, page, all);
      SuffixWithoutEnd(older, rest, page, all);
    }
    if part == page && IsSuffix(older, rest) {
      SuffixThenMore(older, rest, page);
      SuffixTransitive(older + page, rest + page, all);
    }
  }

  // ----- When everything decodes and is delivered -----

  predicate AllDecode(s: Stream) {
    forall i :: 0 <= i < |s.retained| ==> s.retained[i].Some?
  }

  lemma {:induction false} DecodeKeepsAll(es: seq<Entry<Payload>>)
    requires forall i :: 0 <= i < |es| ==> es[i].body.Some?
    ensures |Decode(es)| == |es|
    ensures forall i :: 0 <= i < |es| ==> Decode(es)[i] == Entry(es[i].sequence, es[i].body.value)
    decreases |es|
  {
    if es != [] {
      DecodeKeepsAll(es[..|es| - 1]);
    }
  }

  predicate PageForPage(read: seq<seq<Entry<Message>>>, pages: seq<seq<Entry<Payload>>>) {
    |read| == |pages| && forall i :: 0 <= i < |pages| ==> read[i] == Decode(pages[i]) && |read[i]| == |pages[i]|
  }

  lemma OneMorePage(read: seq<seq<Entry<Message>>>, pages: seq<seq<Entry<Payload>>>, page: seq<Entry<Payload>>)
    requires PageForPage(read, pages) && |Decode(page)| == |page|
    ensures PageForPage([Decode(page)] + read, [page] + pages)
  {
  }

  lemma PageDecodes(s: Stream, limit: nat, before: nat)
    requires s.Valid() && AllDecode(s)
    ensures var page := PageOf(s, limit, before);
      |Decode(page)| == |page| && (page != [] ==> Decode(page)[0].sequence == page[0].sequence)
  {
    RawBelow(s, before);
    DecodeKeepsAll(PageOf(s, limit, before));
  }

  lemma DeliveredWhole(s: Stream, limit: nat, before: nat, budget: nat)
    requires budget >= limit
    ensures Delivered(s, limit, before, budget) == Decode(PageOf(s, limit, before))
  {
    var page := PageOf(s, limit, before);
    assert page[..Clamp(budget, |page|)] == page;
  }

  function Streams(requests: seq<Request>): seq<Stream> {
    seq(|requests|, i requires 0 <= i < |requests| => requests[i].stream)
  }

  // Then the reader gets the pages of the stream one for one, so that reading ends only when everything still retained
  // has been read.
  lemma {:induction false} ReaderPagesAreThePages(requests: seq<Request>, limit: nat, before: nat)
    requires ReaderHistory(requests)
    requires forall i :: 0 <= i < |requests| ==> AllDecode(requests[i].stream) && requests[i].budget >= limit
    ensures PageForPage(ReaderPages(requests, limit, before), Pages(Streams(requests), limit, before))
    ensures var read, pages := ReaderPages(requests, limit, before), Pages(Streams(requests), limit, before);
      |read| == |pages| && forall i :: 0 <= i < |pages| ==> read[i] == Decode(pages[i]) && |read[i]| == |pages[i]|
    decreases |requests|
  {
    if requests != [] {
      var s := requests[0].stream;
      var page := PageOf(s, limit, before);
      PageDecodes(s, limit, before);
      DeliveredWhole(s, limit, before, requests[0].budget);
      if page != [] {
        HistoryOfRest(requests);
        ReaderPagesAreThePages(requests[1..], limit, page[0].sequence);
        assert Streams(requests)[1..] == Streams(requests[1..]);
        OneMorePage(ReaderPages(requests[1..], limit, page[0].sequence),
                    Pages(Streams(requests[1..]), limit, page[0].sequence), page);
      }
    }
  }

  // ----- When reading stops short -----

  // A message that decodes is followed by at least `limit` payloads that do not.
  ghost predicate Hidden(all: seq<Entry<Payload>>, limit: nat) {
    exists i :: HiddenAt(all, limit, i)
  }

  predicate HiddenAt(all: seq<Entry<Payload>>, limit: nat, i: int) {
    && 0 <= i && i + 1 + limit <= |all| && all[i].body.Some?
    && forall j :: i < j <= i + limit ==> all[j].body.None?
  }

  lemma {:induction false} NothingDecodes(es: seq<Entry<Payload>>)
    ensures Decode(es) == [] <==> forall i :: 0 <= i < |es| ==> es[i].body.None?
    decreases |es|
  {
    if es != [] {
      NothingDecodes(es[..|es| - 1]);
    }
  }

  lemma {:induction false} LastThatDecodes(es: seq<Entry<Payload>>) returns (i: nat)
    requires Decode(es) != []
    ensures i < |es| && es[i].body.Some? && forall j :: i < j < |es| ==> es[j].body.None?
    decreases |es|
  {
    var n := |es| - 1;
    if es[n].body.Some? {
      i := n;
    } else {
      i := LastThatDecodes(es[..n]);
    }
  }

  // A page without a message: there is none at all, or the last one is hidden.
  lemma EmptyPageHides(all: seq<Entry<Payload>>, limit: nat)
    requires Decode(LastN(all, limit)) == []
    ensures Decode(all) == [] <==> !Hidden(all, limit)
  {
    var page := LastN(all, limit);
    NothingDecodes(page);
    NothingDecodes(all);
    if Decode(all) != [] {
      var i := LastThatDecodes(all);
      assert forall k :: 0 <= k < |page| ==> page[k] == all[|all| - |page| + k];
      assert HiddenAt(all, limit, i);
    }
  }

  // What is hidden lies below the first message of a page.
  lemma HiddenBelowThePage(all: seq<Entry<Payload>>, limit: nat, i: nat)
    requires i < |all| && |all| - |LastN(all, limit)| <= i && all[i].body.Some?
    ensures Hidden(all, limit) <==> Hidden(all[..i], limit)
  {
    if Hidden(all, limit) {
      var w :| HiddenAt(all, limit, w);
      assert w + limit < i;
      assert HiddenAt(all[..i], limit, w);
    }
    if Hidden(all[..i], limit) {
      var w :| HiddenAt(all[..i], limit, w);
      assert HiddenAt(all, limit, w);
    }
  }

  ghost predicate Unchanging(requests: seq<Request>, s: Stream, limit: nat) {
    forall i :: 0 <= i < |requests| ==> requests[i].stream == s && requests[i].budget >= limit
  }

  // Where the first message of a page stands, among the entries below `before`, and what the next request sees.
  lemma SameStreamNext(s: Stream, limit: nat, before: nat) returns (i: nat)
    requires s.Valid() && Decode(PageOf(s, limit, before)) != []
    ensures var all, page := Below(Raw(s), before), Decode(PageOf(s, limit, before));
      && i < |all| && |all| - |LastN(all, limit)| <= i && all[i].body.Some?
      && Decode(all) == Decode(all[..i]) + page
      && Below(Raw(s), page[0].sequence) == all[..i]
  {
    i := FirstOfPage(s, limit, before);
    DecodeAt(Below(Raw(s), before), i);
    SeenBefore(s, s, before, i);
  }

  // A reader of a stream that does not change, who asks more often than there are messages and receives every page
  // whole, stops short of some message if and only if one that decodes is followed, below the bound, by at least
  // `limit` payloads in a row that do not.
  lemma {:induction false} ReadsEverythingExactly(requests: seq<Request>, s: Stream, limit: nat, before: nat)
    requires s.Valid() && Unchanging(requests, s, limit)
    requires |requests| > |Decode(Below(Raw(s), before))|
    ensures InOrder(ReaderPages(requests, limit, before)) == Decode(Below(Raw(s), before))
      <==> !Hidden(Below(Raw(s), before), limit)
    decreases |requests|
  {
    var all, page := Below(Raw(s), before), Decode(PageOf(s, limit, before));
    DeliveredWhole(s, limit, before, requests[0].budget);
    ReadInOrder(requests, limit, before);
    if page == [] {
      EmptyPageHides(all, limit);
    } else {
      var i := SameStreamNext(s, limit, before);
      HiddenBelowThePage(all, limit, i);
      ReadsEverythingExactly(requests[1..], s, limit, page[0].sequence);
      SameEnd(InOrder(ReaderPages(requests[1..], limit, page[0].sequence)), Decode(all[..i]), page);
    }
  }

  lemma SameEnd<T>(a: seq<T>, b: seq<T>, end: seq<T>)
    ensures a + end == b + end <==> a == b
  {
    assert a == (a + end)[..|a|];
    assert b == (b + end)[..|b|];
    if a + end == b + end {
      assert |a| == |b|;
    }
  }
}
