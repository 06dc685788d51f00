// Who is notified of a post: the thread's author, the author replied to and everyone mentioned, each once.
module Notifications {
  import opened Wrappers
  import M = Mentions

  // Zero is the id of nobody.
  const NOBODY: nat := 0

  datatype Reason = RepliedInThread | RepliedToPost | Mentioned

  datatype Notice = Notice(user: nat, reason: Reason)

  function Kind(r: Reason): string {
    if r == Mentioned then "mention" else "reply"
  }

  datatype PushItem = PushItem(forumlineID: string, kind: string, title: string, body: string, link: string)

  // What the database and the mention lookup answer while the request runs. `userByName` is 0 when the lookup fails
  // or finds nobody.
  datatype World = World(userByName: string -> nat, lower: string -> string, insertSucceeds: nat -> bool,
                         forumlineID: nat -> Option<string>)

  datatype Post = Post(author: nat, authorName: string, threadAuthor: nat, threadTitle: string, threadLink: string,
                       content: string, replyAuthor: Option<nat>)

  function Title(p: Post, r: Reason): string {
    var name := if p.authorName == "" then "Someone" else p.authorName;
    "<strong>" + name + "</strong> "
    + (match r
       case RepliedInThread => "replied in"
       case RepliedToPost => "replied to your post in"
       case Mentioned => "mentioned you in")
    + " \"" + p.threadTitle + "\""
  }

  function Truncate(s: string, maxLen: nat): string {
    if |s| <= maxLen then s else s[..maxLen] + "..."
  }

  // ----- What should happen -----

  predicate AllMatch(content: string, ms: seq<M.Match>) {
    forall i :: 0 <= i < |ms| ==> M.IsMatch(content, ms[i])
  }

  function MentionedUser(w: World, content: string, m: M.Match): nat
    requires M.IsMatch(content, m)
  {
    w.userByName(w.lower(M.Capture(content, m)))
  }

  function MentionedUsers(w: World, content: string, ms: seq<M.Match>): seq<Notice>
    requires AllMatch(content, ms)
  {
    seq(|ms|, i requires 0 <= i < |ms| => Notice(MentionedUser(w, content, ms[i]), Mentioned))
  }

  // The author of the thread and the author of the post replied to.
  function Answered(p: Post): seq<Notice> {
    [Notice(p.threadAuthor, RepliedInThread)]
    + (if p.replyAuthor.Some? then [Notice(p.replyAuthor.value, RepliedToPost)] else [])
  }

  // Everyone concerned, in the order of consideration, possibly more than once.
  function Concerned(w: World, p: Post, ms: seq<M.Match>): seq<Notice>
    requires AllMatch(p.content, ms)
  {
    Answered(p) + MentionedUsers(w, p.content, ms)
  }

  function Users(ns: seq<Notice>): set<nat> {
    set i | 0 <= i < |ns| :: ns[i].user
  }

  // The first notice for each user, leaving out nobody and the post's author.
  function FirstOfEach(ns: seq<Notice>, author: nat): seq<Notice> {
    if ns == [] then []
    else
      var last := ns[|ns| - 1];
      var earlier := FirstOfEach(ns[..|ns| - 1], author);
      if last.user == NOBODY || last.user == author || last.user in Users(earlier) then earlier else earlier + [last]
  }

  function Inserted(w: World, ns: seq<Notice>): seq<Notice> {
    if ns == [] then []
    else
      var last := ns[|ns| - 1];
      Inserted(w, ns[..|ns| - 1]) + (if w.insertSucceeds(last.user) then [last] else [])
  }

  function Item(w: World, p: Post, n: Notice): seq<PushItem> {
    var id := w.forumlineID(n.user);
    if id.Some? && id.value != "" then
      [PushItem(id.value, Kind(n.reason), Title(p, n.reason), Truncate(p.content, 200), p.threadLink)]
    else []
  }

  function Pushed(w: World, p: Post, ns: seq<Notice>): seq<PushItem> {
    if ns == [] then []
    else
      var last := ns[|ns| - 1];
      Pushed(w, p, ns[..|ns| - 1]) + (if w.insertSucceeds(last.user) then Item(w, p, last) else [])
  }

  // ----- The program -----

  class NotificationService {
    var rows: seq<Notice>
    var pushItems: seq<PushItem>
    ghost var attempted: seq<Notice>

    constructor ()
      ensures rows == [] && pushItems == [] && attempted == []
    {
      rows, pushItems, attempted := [], [], [];
    }

    // One notice: a row, and an item for the push batch if the row was inserted and the user has a forumline id.
    method NotifyUser(w: World, p: Post, n: Notice)
      modifies this
      ensures attempted == old(attempted) + [n]
      ensures rows == old(rows) + (if w.insertSucceeds(n.user) then [n] else [])
      ensures pushItems == old(pushItems) + (if w.insertSucceeds(n.user) then Item(w, p, n) else [])
    {
      attempted := attempted + [n];
      if !w.insertSucceeds(n.user) {
        return;
      }
      rows := rows + [n];
      var id := w.forumlineID(n.user);
      if id.Some? && id.value != "" {
        pushItems := pushItems
          + [PushItem(id.value, Kind(n.reason), Title(p, n.reason), Truncate(p.content, 200), p.threadLink)];
      }
    }

    // Everything recorded so far comes from the notices considered so far.
    ghost predicate Recorded(w: World, p: Post, considered: seq<Notice>, rows0: seq<Notice>)
      reads this
    {
      && attempted == FirstOfEach(considered, p.author)
      && rows == rows0 + Inserted(w, attempted)
      && pushItems == Pushed(w, p, attempted)
    }

    method Consider(w: World, p: Post, notified: set<nat>, n: Notice, ghost considered: seq<Notice>,
                    ghost rows0: seq<Notice>)
      returns (notified': set<nat>)
      requires Recorded(w, p, considered, rows0)
      requires notified == Users(attempted) + {p.author}
      modifies this
      ensures Recorded(w, p, considered + [n], rows0)
      ensures notified' == Users(attempted) + {p.author}
    {
      notified' := notified;
      assert (considered + [n])[..|considered|] == considered;
      if n.user != NOBODY && n.user !in notified {
        notified' := notified' + {n.user};
        ghost var earlier := attempted;
        NotifyUser(w, p, n);
        assert attempted[..|attempted| - 1] == earlier;
        UsersOfOneMore(earlier, n);
      }
    }

    method NotifyAnswered(w: World, p: Post, ghost rows0: seq<Notice>) returns (notified: set<nat>)
      requires Recorded(w, p, [], rows0)
      modifies this
      ensures Recorded(w, p, Answered(p), rows0)
      ensures notified == Users(attempted) + {p.author}
    {
      notified := Consider(w, p, {p.author}, Notice(p.threadAuthor, RepliedInThread), [], rows0);
      ghost var considered := [Notice(p.threadAuthor, RepliedInThread)];
      assert [] + considered == considered;
      if p.replyAuthor.Some? {
        notified := Consider(w, p, notified, Notice(p.replyAuthor.value, RepliedToPost), considered, rows0);
      } else {
        assert Answered(p) == considered;
      }
    }

    method NotifyMentioned(w: World, p: Post, notified0: set<nat>, mentions: seq<M.Match>, ghost before: seq<Notice>,
                           ghost rows0: seq<Notice>)
      requires AllMatch(p.content, mentions)
      requires Recorded(w, p, before, rows0)
      requires notified0 == Users(attempted) + {p.author}
      modifies this
      ensures Recorded(w, p, before + MentionedUsers(w, p.content, mentions), rows0)
    {
      var notified := notified0;
      ghost var all := MentionedUsers(w, p.content, mentions);
      assert before + all[..0] == before;
      for i := 0 to |mentions|
        invariant Recorded(w, p, before + all[..i], rows0)
        invariant notified == Users(attempted) + {p.author}
      {
        var user := MentionedUser(w, p.content, mentions[i]);
        notified := Consider(w, p, notified, Notice(user, Mentioned), before + all[..i], rows0);
        assert before + all[..i] + [all[i]] == before + all[..i + 1];
      }
      assert all[..|mentions|] == all;
    }

    // The three sources in order, each user at most once. `mentions` is what the regular expression found.
    method GeneratePostNotifications(w: World, p: Post, mentions: seq<M.Match>)
      requires M.LeftmostGreedy(p.content, 0, mentions)
      modifies this
      ensures AllMatch(p.content, mentions)
      ensures attempted == FirstOfEach(Concerned(w, p, mentions), p.author)
      ensures rows == old(rows) + Inserted(w, attempted)
      ensures pushItems == Pushed(w, p, attempted)
    {
      M.SearchFindsExactlyTheMentions(p.content, 0, mentions);
      M.MentionsAreMatches(p.content, 0);
      ghost var rows0 := rows;
      pushItems, attempted := [], [];
      assert rows0 + [] == rows0;
      var notified := NotifyAnswered(w, p, rows0);
      NotifyMentioned(w, p, notified, mentions, Answered(p), rows0);
    }
  }

  lemma UsersOfOneMore(ns: seq<Notice>, n: Notice)
    ensures Users(ns + [n]) == Users(ns) + {n.user}
  {
    var more := ns + [n];
    forall u ensures u in Users(more) <==> u in Users(ns) || u == n.user {
      if u == n.user {
        assert more[|ns|].user == u;
      }
      if u in Users(ns) {
        var i :| 0 <= i < |ns| && ns[i].user == u;
        assert more[i].user == u;
      }
    }
  }

  // ----- What it means -----

  predicate NoRepeats(ns: seq<Notice>) {
    forall i, j :: 0 <= i < j < |ns| ==> ns[i].user != ns[j].user
  }

  // Position of the first notice for a user.
  predicate IsFirstFor(ns: seq<Notice>, k: nat, n: Notice) {
    k < |ns| && ns[k] == n && forall j :: 0 <= j < k ==> ns[j].user != n.user
  }

  ghost predicate ComesFirst(ns: seq<Notice>, n: Notice) {
    exists k: nat :: IsFirstFor(ns, k, n)
  }

  lemma {:induction false} FirstOfEachMeans(ns: seq<Notice>, author: nat)
    ensures Users(FirstOfEach(ns, author)) == Users(ns) - {NOBODY, author}
    ensures NoRepeats(FirstOfEach(ns, author))
    ensures forall i :: 0 <= i < |FirstOfEach(ns, author)| ==> ComesFirst(ns, FirstOfEach(ns, author)[i])
    decreases |ns|
  {
    if ns != [] {
      var m := |ns| - 1;
      var init, last := ns[..m], ns[m];
      var earlier, all := FirstOfEach(init, author), FirstOfEach(ns, author);
      FirstOfEachMeans(init, author);
      UsersOfOneMore(init, last);
      UsersOfOneMore(earlier, last);
      assert ns == init + [last];
      forall i | 0 <= i < |all| ensures ComesFirst(ns, all[i]) {
        if i < |earlier| {
          assert ComesFirst(init, earlier[i]);
          var k: nat :| IsFirstFor(init, k, earlier[i]);
          assert IsFirstFor(ns, k, all[i]);
        } else {
          assert last.user !in Users(init);
          assert IsFirstFor(ns, m, last);
        }
      }
      forall i | 0 <= i < |earlier| ensures earlier[i].user in Users(earlier) {}
    }
  }

  predicate Notifies(ns: seq<Notice>, user: nat) {
    exists i :: 0 <= i < |ns| && ns[i].user == user
  }

  // Somebody is mentioned in the text by a word that is the user's name.
  ghost predicate IsNamed(w: World, content: string, user: nat) {
    exists at: nat, word :: M.IsMention(content, at, word) && w.userByName(w.lower(word)) == user
  }

  ghost predicate IsConcerned(w: World, p: Post, user: nat) {
    user == p.threadAuthor || p.replyAuthor == Some(user) || IsNamed(w, p.content, user)
  }

  lemma NamedExactly(w: World, content: string, ms: seq<M.Match>, user: nat)
    requires M.LeftmostGreedy(content, 0, ms) && AllMatch(content, ms)
    ensures Notifies(MentionedUsers(w, content, ms), user) <==> IsNamed(w, content, user)
  {
    var ns := MentionedUsers(w, content, ms);
    if i: nat :| i < |ns| && ns[i].user == user {
      MatchNames(w, content, ms, i);
    }
    if at: nat, word :| M.IsMention(content, at, word) && w.userByName(w.lower(word)) == user {
      var i := NameIsMatched(w, content, ms, at, word);
      assert ns[i].user == user;
    }
  }

  lemma MatchNames(w: World, content: string, ms: seq<M.Match>, i: nat)
    requires M.LeftmostGreedy(content, 0, ms) && AllMatch(content, ms) && i < |ms|
    ensures IsNamed(w, content, MentionedUser(w, content, ms[i]))
  {
    M.SearchFindsExactlyTheMentions(content, 0, ms);
    M.CapturesMention(content, ms[i]);
  }

  lemma NameIsMatched(w: World, content: string, ms: seq<M.Match>, at: nat, word: string) returns (i: nat)
    requires M.LeftmostGreedy(content, 0, ms) && AllMatch(content, ms) && M.IsMention(content, at, word)
    ensures i < |ms| && MentionedUser(w, content, ms[i]) == w.userByName(w.lower(word))
  {
    M.SearchFindsExactlyTheMentions(content, 0, ms);
    M.MentionIsCaptured(content, at, word);
    i :| 0 <= i < |ms| && ms[i] == M.Match(at, at + 1 + |word|);
  }

  lemma ConcernedExactly(w: World, p: Post, ms: seq<M.Match>, user: nat)
    requires M.LeftmostGreedy(p.content, 0, ms) && AllMatch(p.content, ms)
    ensures Notifies(Concerned(w, p, ms), user) <==> IsConcerned(w, p, user)
  {
    var a, b := Answered(p), MentionedUsers(w, p.content, ms);
    NamedExactly(w, p.content, ms, user);
    NotifiesEither(a, b, user);
    assert a[0].user == p.threadAuthor;
    assert p.replyAuthor.Some? ==> a[1].user == p.replyAuthor.value;
  }

  lemma NotifiesEither(a: seq<Notice>, b: seq<Notice>, user: nat)
    ensures Notifies(a + b, user) <==> Notifies(a, user) || Notifies(b, user)
  {
    if i :| 0 <= i < |a| && a[i].user == user {
      assert (a + b)[i].user == user;
    }
    if i :| 0 <= i < |b| && b[i].user == user {
      assert (a + b)[|a| + i].user == user;
    }
    if i :| 0 <= i < |a + b| && (a + b)[i].user == user {
      assert i < |a| ==> a[i].user == user;
      assert i >= |a| ==> b[i - |a|].user == user;
    }
  }

  lemma AllMatchWhenFound(content: string, ms: seq<M.Match>)
    requires M.LeftmostGreedy(content, 0, ms)
    ensures AllMatch(content, ms)
  {
    M.SearchFindsExactlyTheMentions(content, 0, ms);
    M.MentionsAreMatches(content, 0);
  }

  function ReasonFor(p: Post, user: nat): Reason {
    if user == p.threadAuthor then RepliedInThread
    else if p.replyAuthor == Some(user) then RepliedToPost
    else Mentioned
  }

  lemma FirstReason(w: World, p: Post, ms: seq<M.Match>, n: Notice)
    requires AllMatch(p.content, ms) && ComesFirst(Concerned(w, p, ms), n)
    ensures n.reason == ReasonFor(p, n.user)
  {
    var ns := Concerned(w, p, ms);
    var k: nat :| IsFirstFor(ns, k, n);
    var heads := |Answered(p)|;
    assert ns[0] == Notice(p.threadAuthor, RepliedInThread);
    assert p.replyAuthor.Some? ==> heads == 2 && ns[1] == Notice(p.replyAuthor.value, RepliedToPost);
    if k >= heads {
      assert ns[k] == MentionedUsers(w, p.content, ms)[k - heads];
    }
  }

  // Exactly the thread's author, the author replied to and everyone named by a word after an at sign are notified, less
  // the author of the post and the zero id; each once; and as a reply in the thread before a reply to the post before a
  // mention, if several apply.
  lemma RecipientsExact(w: World, p: Post, ms: seq<M.Match>)
    requires M.LeftmostGreedy(p.content, 0, ms)
    ensures AllMatch(p.content, ms)
    ensures var out := FirstOfEach(Concerned(w, p, ms), p.author);
      && (forall u :: Notifies(out, u) <==> u != p.author && u != 0 && IsConcerned(w, p, u))
      && (forall i, j :: 0 <= i < j < |out| ==> out[i].user != out[j].user)
      && (forall i :: 0 <= i < |out| ==>
            out[i].reason == if out[i].user == p.threadAuthor then RepliedInThread
                             else if p.replyAuthor == Some(out[i].user) then RepliedToPost
                             else Mentioned)
  {
    AllMatchWhenFound(p.content, ms);
    var ns := Concerned(w, p, ms);
    var out := FirstOfEach(ns, p.author);
    FirstOfEachMeans(ns, p.author);
    forall u ensures Notifies(out, u) <==> u != p.author && u != 0 && IsConcerned(w, p, u) {
      ConcernedExactly(w, p, ms, u);
      assert u in Users(out) <==> u in Users(ns) - {NOBODY, p.author};
      assert u in Users(out) <==> Notifies(out, u);
      assert u in Users(ns) <==> Notifies(ns, u);
    }
    forall i | 0 <= i < |out| ensures out[i].reason == ReasonFor(p, out[i].user) {
      assert ComesFirst(ns, out[i]);
      FirstReason(w, p, ms, out[i]);
    }
  }

  // Notices are attempted in the order in which their users are first concerned: later ones only add at the end.
  lemma {:induction false} AttemptsInOrder(ns: seq<Notice>, author: nat, n: nat)
    requires n <= |ns|
    ensures FirstOfEach(ns[..n], author) <= FirstOfEach(ns, author)
    decreases |ns|
  {
    if n == |ns| {
      assert ns[..n] == ns;
    } else {
      var init := ns[..|ns| - 1];
      assert init[..n] == ns[..n];
      AttemptsInOrder(init, author, n);
    }
  }

  // The rows inserted are, in order, exactly the attempts whose insert succeeds. `picks` are their positions.
  lemma {:induction false} RowsAreExact(w: World, ns: seq<Notice>) returns (picks: seq<nat>)
    ensures forall a, b :: 0 <= a < b < |picks| ==> picks[a] < picks[b]
    ensures forall i: nat :: i in picks <==> i < |ns| && w.insertSucceeds(ns[i].user)
    ensures |Inserted(w, ns)| == |picks|
    ensures forall k :: 0 <= k < |picks| ==> picks[k] < |ns|
    ensures forall k :: 0 <= k < |picks| ==> Inserted(w, ns)[k] == ns[picks[k]]
  {
    picks := [];
    if ns != [] {
      var m := |ns| - 1;
      picks := RowsAreExact(w, ns[..m]);
      if w.insertSucceeds(ns[m].user) {
        picks := picks + [m];
      }
    }
  }

  // What an item says.
  lemma ItemSays(w: World, p: Post, n: Notice)
    requires w.forumlineID(n.user).Some? && w.forumlineID(n.user).value != ""
    ensures |Item(w, p, n)| == 1
    ensures var item := Item(w, p, n)[0];
      && item.forumlineID == w.forumlineID(n.user).value
      && item.kind == (if n.reason == Mentioned then "mention" else "reply")
      && item.link == p.threadLink
      && (|p.content| <= 200 ==> item.body == p.content)
      && (|p.content| > 200 ==> |item.body| == 203 && item.body[..200] == p.content[..200] && item.body[200..] == "...")
    ensures var name := if p.authorName != "" then p.authorName else "Someone";
      Item(w, p, n)[0].title ==
        match n.reason
        case RepliedInThread => "<strong>" + name + "</strong> replied in \"" + p.threadTitle + "\""
        case RepliedToPost => "<strong>" + name + "</strong> replied to your post in \"" + p.threadTitle + "\""
        case Mentioned => "<strong>" + name + "</strong> mentioned you in \"" + p.threadTitle + "\""
  {
    TitleParts();
    var name := if p.authorName != "" then p.authorName else "Someone";
    SixParts("<strong>" + name, "</strong> ", "replied in", " \"", p.threadTitle, "\"");
    SixParts("<strong>" + name, "</strong> ", "replied to your post in", " \"", p.threadTitle, "\"");
    SixParts("<strong>" + name, "</strong> ", "mentioned you in", " \"", p.threadTitle, "\"");
  }

  lemma SixParts(a: string, b: string, c: string, d: string, e: string, f: string)
    ensures a + b + c + (d + e + f) == a + (b + c + d) + e + f
    ensures a + b + c + d + e + f == a + (b + c + d) + e + f
  {
  }

  lemma TitleParts()
    ensures "</strong> " + "replied in" + " \"" == "</strong> replied in \""
    ensures "</strong> " + "replied to your post in" + " \"" == "</strong> replied to your post in \""
    ensures "</strong> " + "mentioned you in" + " \"" == "</strong> mentioned you in \""
  {
  }

  predicate GoesToForumline(w: World, n: Notice) {
    w.insertSucceeds(n.user) && w.forumlineID(n.user).Some? && w.forumlineID(n.user).value != ""
  }

  // In the batch are exactly the notices whose row was inserted and whose user has a forumline id, in the order they
  // were attempted, each with its own text. `picks` are their positions.
  lemma {:induction false} BatchIsExact(w: World, p: Post, ns: seq<Notice>) returns (picks: seq<nat>)
    ensures forall a, b :: 0 <= a < b < |picks| ==> picks[a] < picks[b]
    ensures forall i: nat :: i in picks <==> i < |ns| && GoesToForumline(w, ns[i])
    ensures |Pushed(w, p, ns)| == |picks|
    ensures forall k :: 0 <= k < |picks| ==> picks[k] < |ns|
    ensures forall k :: 0 <= k < |picks| ==> Item(w, p, ns[picks[k]]) == [Pushed(w, p, ns)[k]]
  {
    picks := [];
    if ns != [] {
      var m := |ns| - 1;
      picks := BatchIsExact(w, p, ns[..m]);
      if GoesToForumline(w, ns[m]) {
        picks := picks + [m];
      }
    }
  }
}
