// Additive import of a forum: rows are inserted table by table, and a row that clashes with one already there is
// left out.
module Import {
  import opened Wrappers

  datatype Table =
    | Categories | ChatChannels | VoiceRooms | Profiles | Threads | Posts | ChatMessages | Bookmarks | Notifications
    | ChannelFollows | NotificationPreferences

  // The columns that take part in a key or a reference; all others are in `rest`.
  datatype Row =
    | Category(id: nat, slug: string, rest: string)
    | ChatChannel(id: nat, slug: string, rest: string)
    | VoiceRoom(id: nat, slug: string, rest: string)
    | Profile(id: nat, username: string, rest: string)
    | Thread(id: nat, category: nat, author: nat, rest: string)
    | Post(id: nat, thread: nat, author: nat, replyTo: Option<nat>, rest: string)
    | ChatMessage(id: nat, channel: nat, author: nat, rest: string)
    | Bookmark(id: nat, user: nat, thread: nat, rest: string)
    | Notification(id: nat, user: nat, rest: string)
    | ChannelFollow(id: nat, user: nat, category: nat, rest: string)
    | NotificationPreference(id: nat, user: nat, kind: string, rest: string)

  function TableOf(r: Row): Table {
    match r
    case Category(_, _, _) => Categories
    case ChatChannel(_, _, _) => ChatChannels
    case VoiceRoom(_, _, _) => VoiceRooms
    case Profile(_, _, _) => Profiles
    case Thread(_, _, _, _) => Threads
    case Post(_, _, _, _, _) => Posts
    case ChatMessage(_, _, _, _) => ChatMessages
    case Bookmark(_, _, _, _) => Bookmarks
    case Notification(_, _, _) => Notifications
    case ChannelFollow(_, _, _, _) => ChannelFollows
    case NotificationPreference(_, _, _, _) => NotificationPreferences
  }

  // A value of a primary key or of a unique constraint.
  datatype Key =
    | Id(table: Table, id: nat)
    | Name(table: Table, name: string)
    | Pair(table: Table, user: nat, other: nat)
    | Kind(user: nat, kind: string)

  function OtherKeys(r: Row): set<Key> {
    match r
    case Category(_, slug, _) => {Name(Categories, slug)}
    case ChatChannel(_, slug, _) => {Name(ChatChannels, slug)}
    case VoiceRoom(_, slug, _) => {Name(VoiceRooms, slug)}
    case Profile(_, username, _) => {Name(Profiles, username)}
    case Bookmark(_, user, thread, _) => {Pair(Bookmarks, user, thread)}
    case ChannelFollow(_, user, category, _) => {Pair(ChannelFollows, user, category)}
    case NotificationPreference(_, user, kind, _) => {Kind(user, kind)}
    case _ => {}
  }

  function Keys(r: Row): set<Key> {
    {Id(TableOf(r), r.id)} + OtherKeys(r)
  }

  // What the row's foreign keys point to.
  function Refs(r: Row): set<Key> {
    match r
    case Thread(_, category, author, _) => {Id(Categories, category), Id(Profiles, author)}
    case Post(_, thread, author, replyTo, _) =>
      {Id(Threads, thread), Id(Profiles, author)} + (if replyTo.Some? then {Id(Posts, replyTo.value)} else {})
    case ChatMessage(_, channel, author, _) => {Id(ChatChannels, channel), Id(Profiles, author)}
    case Bookmark(_, user, thread, _) => {Id(Profiles, user), Id(Threads, thread)}
    case Notification(_, user, _) => {Id(Profiles, user)}
    case ChannelFollow(_, user, category, _) => {Id(Profiles, user), Id(Categories, category)}
    case NotificationPreference(_, user, _, _) => {Id(Profiles, user)}
    case _ => {}
  }

  predicate SameKind(r: Row, q: Row) {
    match r
    case Category(_, _, _) => q.Category?
    case ChatChannel(_, _, _) => q.ChatChannel?
    case VoiceRoom(_, _, _) => q.VoiceRoom?
    case Profile(_, _, _) => q.Profile?
    case Thread(_, _, _, _) => q.Thread?
    case Post(_, _, _, _, _) => q.Post?
    case ChatMessage(_, _, _, _) => q.ChatMessage?
    case Bookmark(_, _, _, _) => q.Bookmark?
    case Notification(_, _, _) => q.Notification?
    case ChannelFollow(_, _, _, _) => q.ChannelFollow?
    case NotificationPreference(_, _, _, _) => q.NotificationPreference?
  }

  // The unique constraints: two rows clash if they are in the same table and have the same id, the same slug or
  // username, the same thread or category for the same user, or the same kind of preference for the same user.
  lemma ClashExactly(r: Row, q: Row)
    ensures Keys(r) * Keys(q) != {} <==>
      || (SameKind(r, q) && r.id == q.id)
      || (r.Category? && q.Category? && r.slug == q.slug)
      || (r.ChatChannel? && q.ChatChannel? && r.slug == q.slug)
      || (r.VoiceRoom? && q.VoiceRoom? && r.slug == q.slug)
      || (r.Profile? && q.Profile? && r.username == q.username)
      || (r.Bookmark? && q.Bookmark? && r.user == q.user && r.thread == q.thread)
      || (r.ChannelFollow? && q.ChannelFollow? && r.user == q.user && r.category == q.category)
      || (r.NotificationPreference? && q.NotificationPreference? && r.user == q.user && r.kind == q.kind)
  {
    if TableOf(r) == TableOf(q) {
      assert Id(TableOf(r), r.id) in Keys(r) && Id(TableOf(q), q.id) in Keys(q);
      OtherKeysClash(r, q);
    }
  }

  lemma OtherKeysClash(r: Row, q: Row)
    requires TableOf(r) == TableOf(q)
    ensures OtherKeys(r) != {} ==> exists k :: OtherKeys(r) == {k}
    ensures Keys(r) * Keys(q) != {} <==> r.id == q.id || (OtherKeys(r) != {} && OtherKeys(r) == OtherKeys(q))
  {
    if r.id == q.id {
      assert Id(TableOf(r), r.id) in Keys(r) * Keys(q);
    }
    if k :| k in OtherKeys(r) && OtherKeys(r) == OtherKeys(q) {
      assert k in Keys(r) * Keys(q);
    }
  }

  // The foreign keys: which row refers to which.
  lemma RefersExactly(r: Row, q: Row)
    ensures Refs(r) * Keys(q) != {} <==>
      match r
      case Thread(_, category, author, _) => (q.Category? && q.id == category) || (q.Profile? && q.id == author)
      case Post(_, thread, author, replyTo, _) =>
        || (q.Thread? && q.id == thread)
        || (q.Profile? && q.id == author)
        || (q.Post? && replyTo == Some(q.id))
      case ChatMessage(_, channel, author, _) => (q.ChatChannel? && q.id == channel) || (q.Profile? && q.id == author)
      case Bookmark(_, user, thread, _) => (q.Profile? && q.id == user) || (q.Thread? && q.id == thread)
      case Notification(_, user, _) => q.Profile? && q.id == user
      case ChannelFollow(_, user, category, _) => (q.Profile? && q.id == user) || (q.Category? && q.id == category)
      case NotificationPreference(_, user, _, _) => q.Profile? && q.id == user
      case _ => false
  {
    RefsAreIds(r, q);
    var id := Id(TableOf(q), q.id);
    assert id in Refs(r) ==> id in Refs(r) * Keys(q);
  }

  lemma RefsAreIds(r: Row, q: Row)
    ensures Refs(r) * Keys(q) != {} ==> Id(TableOf(q), q.id) in Refs(r)
  {
    if k :| k in Refs(r) * Keys(q) {
      assert k.Id?;
    }
  }

  function KeysOf(s: set<Row>): set<Key> {
    set r, k | r in s && k in Keys(r) :: k
  }

  // INSERT ... ON CONFLICT DO NOTHING, with an item that does not decode to a row as `None`. References are checked
  // after the insertion, so a row may refer to itself.
  function Insert(s: set<Row>, item: Option<Row>): Option<set<Row>> {
    if item.None? then None
    else if Keys(item.value) * KeysOf(s) != {} then Some(s)
    else if Refs(item.value) <= KeysOf(s + {item.value}) then Some(s + {item.value})
    else None
  }

  // The rows at the end, and how many items were dealt with before the first failure.
  datatype Outcome = Outcome(rows: set<Row>, done: nat)

  function Run(s: set<Row>, items: seq<Option<Row>>): (o: Outcome)
    ensures o.done <= |items|
  {
    if items == [] then Outcome(s, 0)
    else
      var n := |items| - 1;
      var o := Run(s, items[..n]);
      if o.done < n then o
      else
        match Insert(o.rows, items[n])
        case None => o
        case Some(rows) => Outcome(rows, n + 1)
  }

  datatype Step = Step(name: string, items: seq<Option<Row>>)

  function Flat(steps: seq<Step>): seq<Option<Row>> {
    if steps == [] then [] else Flat(steps[..|steps| - 1]) + steps[|steps| - 1].items
  }

  datatype Failure = Failure(step: nat, row: nat)

  // ----- The program -----

  class ForumDatabase {
    var rows: set<Row>

    constructor ()
      ensures rows == {}
    {
      rows := {};
    }

    method Exec(item: Option<Row>) returns (ok: bool)
      modifies this
      ensures ok == Insert(old(rows), item).Some?
      ensures rows == if ok then Insert(old(rows), item).value else old(rows)
    {
      if item.None? {
        return false;
      }
      if Keys(item.value) * KeysOf(rows) != {} {
        return true;
      }
      if !(Refs(item.value) <= KeysOf(rows + {item.value})) {
        return false;
      }
      rows := rows + {item.value};
      return true;
    }

    // The rows of one step, up to the first failure.
    method ImportStep(items: seq<Option<Row>>, ghost start: set<Row>, ghost before: seq<Option<Row>>)
      returns (done: nat)
      requires Run(start, before) == Outcome(rows, |before|)
      modifies this
      ensures done <= |items|
      ensures Run(start, before + items) == Outcome(rows, |before| + done)
    {
      assert before + items[..0] == before;
      done := 0;
      while done < |items|
        invariant done <= |items|
        invariant Run(start, before + items[..done]) == Outcome(rows, |before| + done)
      {
        RunNext(start, before, rows, items, done);
        var ok := Exec(items[done]);
        if !ok {
          return;
        }
        done := done + 1;
      }
      assert items[..done] == items;
    }

    // Step by step and row by row, giving up at the first failure, whose place is reported.
    method Import(steps: seq<Step>) returns (failure: Option<Failure>)
      modifies this
      ensures rows == Run(old(rows), Flat(steps)).rows
      ensures failure.None? <==> Run(old(rows), Flat(steps)).done == |Flat(steps)|
      ensures failure.Some? ==>
        && failure.value.step < |steps| && failure.value.row < |steps[failure.value.step].items|
        && Run(old(rows), Flat(steps)).done == |Flat(steps[..failure.value.step])| + failure.value.row
    {
      ghost var start := rows;
      for i := 0 to |steps|
        invariant Run(start, Flat(steps[..i])) == Outcome(rows, |Flat(steps[..i])|)
      {
        var done := ImportStep(steps[i].items, start, Flat(steps[..i]));
        FlatNext(steps, i);
        if done < |steps[i].items| {
          ghost var seen := Flat(steps[..i + 1]);
          Stopped(start, seen, Flat(steps)[|seen|..]);
          assert seen + Flat(steps)[|seen|..] == Flat(steps);
          return Some(Failure(i, done));
        }
      }
      assert steps[..|steps|] == steps;
      return None;
    }
  }

  // ----- Runs -----

  lemma {:induction false} FlatNext(steps: seq<Step>, i: nat)
    requires i < |steps|
    ensures Flat(steps[..i + 1]) == Flat(steps[..i]) + steps[i].items
    ensures Flat(steps[..i + 1]) <= Flat(steps)
    decreases |steps|
  {
    assert steps[..i + 1][..i] == steps[..i];
    var n := |steps| - 1;
    if i < n {
      FlatNext(steps[..n], i);
      assert steps[..n][..i] == steps[..i] && steps[..n][..i + 1] == steps[..i + 1];
    } else {
      assert steps[..i + 1] == steps;
    }
  }

  function Next(rows: set<Row>, item: Option<Row>, done: nat): Outcome {
    match Insert(rows, item)
    case None => Outcome(rows, done)
    case Some(more) => Outcome(more, done + 1)
  }

  lemma RunOne(s: set<Row>, items: seq<Option<Row>>, rows: set<Row>, item: Option<Row>, seen: seq<Option<Row>>)
    requires Run(s, items) == Outcome(rows, |items|) && seen == items + [item]
    ensures Run(s, seen) == Next(rows, item, |items|)
  {
    assert seen[..|items|] == items;
  }

  // After a failure nothing more is done.
  lemma {:induction false} Stopped(s: set<Row>, items: seq<Option<Row>>, more: seq<Option<Row>>)
    requires Run(s, items).done < |items|
    ensures Run(s, items + more) == Run(s, items)
    decreases |more|
  {
    if more == [] {
      assert items + more == items;
    } else {
      var init := more[..|more| - 1];
      Stopped(s, items, init);
      assert (items + more)[..|items + more| - 1] == items + init;
    }
  }

  lemma EndsThere(s: set<Row>, before: seq<Option<Row>>, items: seq<Option<Row>>, seen: nat)
    requires seen <= |items| && Run(s, before + items[..seen]).done < |before| + seen
    ensures Run(s, before + items) == Run(s, before + items[..seen])
  {
    Stopped(s, before + items[..seen], items[seen..]);
    assert before + items[..seen] + items[seen..] == before + items;
  }

  lemma OneMore<T>(before: seq<T>, items: seq<T>, done: nat)
    requires done < |items|
    ensures before + items[..done + 1] == before + items[..done] + [items[done]]
  {
    assert items[..done + 1] == items[..done] + [items[done]];
  }

  // One more item of a step: either it goes in or the import ends there.
  lemma RunNext(s: set<Row>, before: seq<Option<Row>>, rows: set<Row>, items: seq<Option<Row>>, done: nat)
    requires done < |items| && Run(s, before + items[..done]) == Outcome(rows, |before| + done)
    ensures Run(s, before + items[..done + 1]) == Next(rows, items[done], |before| + done)
    ensures Insert(rows, items[done]).None? ==> Run(s, before + items) == Outcome(rows, |before| + done)
  {
    OneMore(before, items, done);
    RunOne(s, before + items[..done], rows, items[done], before + items[..done + 1]);
    if Insert(rows, items[done]).None? {
      EndsThere(s, before, items, done + 1);
    }
  }

  lemma KeysGrow(s: set<Row>, t: set<Row>)
    requires s <= t
    ensures KeysOf(s) <= KeysOf(t)
  {
  }

  // Once an item has been dealt with it is settled: in any larger database it changes nothing and does not fail.
  lemma Settled(s: set<Row>, item: Option<Row>, t: set<Row>)
    requires Insert(s, item).Some? && Insert(s, item).value <= t
    ensures Insert(t, item) == Some(t)
  {
    var r, u := item.value, Insert(s, item).value;
    KeysGrow(u, t);
    if Keys(r) * KeysOf(s) == {} {
      assert r in u && Id(TableOf(r), r.id) in Keys(r) * KeysOf(u);
    }
    var k :| k in Keys(r) * KeysOf(u);
    assert k in Keys(r) * KeysOf(t);
  }

  lemma {:induction false} RowsStay(s: set<Row>, items: seq<Option<Row>>)
    ensures s <= Run(s, items).rows
  {
    if items != [] {
      RowsStay(s, items[..|items| - 1]);
    }
  }

  // Items that went in once do nothing the second time.
  lemma {:induction false} SecondTimeNothing(s: set<Row>, items: seq<Option<Row>>, t: set<Row>)
    requires Run(s, items).done == |items| && Run(s, items).rows <= t
    ensures Run(t, items) == Outcome(t, |items|)
  {
    if items != [] {
      var init, last := items[..|items| - 1], items[|items| - 1];
      RowsStay(Run(s, init).rows, [last]);
      assert Run(s, init).rows <= Run(s, items).rows;
      SecondTimeNothing(s, init, t);
      Settled(Run(s, init).rows, last, t);
    }
  }

  lemma {:induction false} OutcomeOfThePartDone(s: set<Row>, items: seq<Option<Row>>)
    ensures Run(s, items[..Run(s, items).done]) == Run(s, items)
  {
    if items != [] {
      var n := |items| - 1;
      var o := Run(s, items);
      if o.done <= n {
        assert o == Run(s, items[..n]);
        OutcomeOfThePartDone(s, items[..n]);
        assert items[..n][..o.done] == items[..o.done];
      } else {
        assert items[..o.done] == items;
      }
    }
  }

  lemma {:induction false} SameFromHere(s: set<Row>, t: set<Row>, items: seq<Option<Row>>, k: nat)
    requires k <= |items| && Run(s, items[..k]) == Run(t, items[..k])
    ensures Run(s, items) == Run(t, items)
    decreases |items|
  {
    if k == |items| {
      assert items[..k] == items;
    } else {
      var init := items[..|items| - 1];
      assert init[..k] == items[..k];
      SameFromHere(s, t, init, k);
    }
  }

  // An import that was cut off anywhere, by a failure or by a crash, and is then run again from the start, comes to
  // the same rows and the same outcome as one that was never interrupted. With everything done the first time
  // (`k == |items|`) it says that importing twice is the same as importing once.
  lemma RunAgain(s: set<Row>, items: seq<Option<Row>>, k: nat)
    requires k <= |items|
    ensures Run(Run(s, items[..k]).rows, items) == Run(s, items)
  {
    var o := Run(s, items[..k]);
    OutcomeOfThePartDone(s, items[..k]);
    var part := items[..k][..o.done];
    assert part == items[..o.done];
    SecondTimeNothing(s, part, o.rows);
    SameFromHere(o.rows, s, items, o.done);
  }

  // ----- The database stays sound -----

  ghost predicate Sound(s: set<Row>) {
    && (forall r, q :: r in s && q in s && r != q ==> Keys(r) * Keys(q) == {})
    && (forall r :: r in s ==> Refs(r) <= KeysOf(s))
  }

  lemma InsertKeepsSound(s: set<Row>, item: Option<Row>)
    requires Sound(s) && Insert(s, item).Some?
    ensures Sound(Insert(s, item).value)
  {
    var r, t := item.value, Insert(s, item).value;
    if Keys(r) * KeysOf(s) == {} {
      KeysGrow(s, t);
      forall q | q in s ensures Keys(r) * Keys(q) == {} && Refs(q) <= KeysOf(t) {
        assert Keys(q) <= KeysOf(s);
      }
    }
  }

  lemma {:induction false} ImportKeepsSound(s: set<Row>, items: seq<Option<Row>>)
    requires Sound(s)
    ensures Sound(Run(s, items).rows)
  {
    if items != [] {
      var n := |items| - 1;
      ImportKeepsSound(s, items[..n]);
      var before := Run(s, items[..n]);
      if before.done == n && Insert(before.rows, items[n]).Some? {
        InsertKeepsSound(before.rows, items[n]);
      }
    }
  }

  ghost predicate Added(s: set<Row>, r: Row, items: seq<Option<Row>>) {
    Some(r) in items && Keys(r) * KeysOf(s) == {}
  }

  lemma InsertAdds(s: set<Row>, t: set<Row>, item: Option<Row>, r: Row)
    requires s <= t && Insert(t, item).Some? && r in Insert(t, item).value && r !in t
    ensures item == Some(r) && Keys(r) * KeysOf(s) == {}
  {
    KeysGrow(s, t);
  }

  lemma {:induction false} AddedRowsAreItems(s: set<Row>, items: seq<Option<Row>>, r: Row)
    requires r in Run(s, items).rows && r !in s
    ensures Added(s, r, items[..Run(s, items).done])
  {
    if items != [] {
      var n := |items| - 1;
      var before, o := Run(s, items[..n]), Run(s, items);
      if r in before.rows {
        AddedRowsAreItems(s, items[..n], r);
        assert items[..n][..before.done] <= items[..o.done];
      } else {
        RowsStay(s, items[..n]);
        InsertAdds(s, before.rows, items[n], r);
        assert items[..o.done][n] == items[n];
      }
    }
  }

  // Whatever is imported, no row already there is changed or removed, every row added is one of the items dealt with
  // and clashes with no row that was there, and keys stay unique and references satisfied.
  lemma {:induction false} ImportOnlyAdds(s: set<Row>, items: seq<Option<Row>>)
    ensures s <= Run(s, items).rows
    ensures forall r :: r in Run(s, items).rows && r !in s ==>
      Some(r) in items[..Run(s, items).done] && Keys(r) * KeysOf(s) == {}
    ensures Sound(s) ==> Sound(Run(s, items).rows)
  {
    RowsStay(s, items);
    forall r | r in Run(s, items).rows && r !in s ensures Added(s, r, items[..Run(s, items).done]) {
      AddedRowsAreItems(s, items, r);
    }
    if Sound(s) {
      ImportKeepsSound(s, items);
    }
  }

  // ----- What a complete import needs -----

  function RowsOf(items: seq<Option<Row>>): set<Row> {
    set i | 0 <= i < |items| && items[i].Some? :: items[i].value
  }

  // The items are rows that clash neither with each other nor with the database.
  ghost predicate Fresh(s: set<Row>, items: seq<Option<Row>>) {
    && (forall i :: 0 <= i < |items| ==> items[i].Some? && Keys(items[i].value) * KeysOf(s) == {})
    && (forall i, j :: 0 <= i < j < |items| ==> Keys(items[i].value) * Keys(items[j].value) == {})
  }

  // Whatever a row refers to comes no later than the row itself.
  ghost predicate RefersBack(s: set<Row>, items: seq<Option<Row>>, i: nat)
    requires i < |items| && items[i].Some?
  {
    Refs(items[i].value) <= KeysOf(s + RowsOf(items[..i + 1]))
  }

  lemma FreshPrefix(s: set<Row>, items: seq<Option<Row>>)
    requires items != [] && Fresh(s, items)
    ensures var init, last := items[..|items| - 1], items[|items| - 1].value;
      && Fresh(s, init)
      && Keys(last) * KeysOf(s + RowsOf(init)) == {}
      && RowsOf(items) == RowsOf(init) + {last}
  {
    var n := |items| - 1;
    var init, last := items[..n], items[n].value;
    forall r | r in RowsOf(init) ensures Keys(r) * Keys(last) == {} {
      var i :| 0 <= i < |init| && init[i].Some? && init[i].value == r;
      assert items[i].value == r;
    }
    forall r | r in RowsOf(items) ensures r in RowsOf(init) + {last} {
      var i :| 0 <= i < |items| && items[i].Some? && items[i].value == r;
      if i < n {
        assert init[i].value == r;
      }
    }
    forall r | r in RowsOf(init) ensures r in RowsOf(items) {
      var i :| 0 <= i < |init| && init[i].Some? && init[i].value == r;
      assert items[i].value == r;
    }
    assert items[n].value in RowsOf(items);
  }

  ghost predicate AllReferBack(s: set<Row>, items: seq<Option<Row>>)
    requires forall i :: 0 <= i < |items| ==> items[i].Some?
  {
    forall i :: 0 <= i < |items| ==> RefersBack(s, items, i)
  }

  lemma AllReferBackStep(s: set<Row>, items: seq<Option<Row>>)
    requires items != [] && forall i :: 0 <= i < |items| ==> items[i].Some?
    ensures var n := |items| - 1;
      AllReferBack(s, items) <==>
        AllReferBack(s, items[..n]) && Refs(items[n].value) <= KeysOf(s + RowsOf(items))
  {
    var n := |items| - 1;
    assert items[..n + 1] == items;
    forall i | 0 <= i < n ensures RefersBack(s, items[..n], i) <==> RefersBack(s, items, i) {
      assert items[..n][..i + 1] == items[..i + 1];
    }
    if AllReferBack(s, items) {
      assert RefersBack(s, items, n);
    }
  }

  // Rows that clash with nothing all go in exactly if every one of them refers back.
  lemma {:induction false} FreshRowsAllGoIn(s: set<Row>, items: seq<Option<Row>>)
    requires Fresh(s, items)
    ensures Run(s, items).done == |items| <==> AllReferBack(s, items)
    ensures Run(s, items).done == |items| ==> Run(s, items).rows == s + RowsOf(items)
  {
    if items != [] {
      var n := |items| - 1;
      FreshPrefix(s, items);
      FreshRowsAllGoIn(s, items[..n]);
      AllReferBackStep(s, items);
      assert s + RowsOf(items) == s + RowsOf(items[..n]) + {items[n].value};
    }
  }

  // ----- The order of the tables -----

  // The order in which the tables are filled.
  function Place(t: Table): nat {
    match t
    case Categories => 0
    case ChatChannels => 1
    case VoiceRooms => 2
    case Profiles => 3
    case Threads => 4
    case Posts => 5
    case ChatMessages => 6
    case Bookmarks => 7
    case Notifications => 8
    case ChannelFollows => 9
    case NotificationPreferences => 10
  }

  // The order of the steps.
  const STEPS := [Categories, ChatChannels, VoiceRooms, Profiles, Threads, Posts, ChatMessages, Bookmarks,
                  Notifications, ChannelFollows, NotificationPreferences]

  lemma PlacesAreTheSteps(t: Table)
    ensures Place(t) < |STEPS| && STEPS[Place(t)] == t
  {
  }

  ghost predicate InTableOrder(items: seq<Option<Row>>)
    requires forall i :: 0 <= i < |items| ==> items[i].Some?
  {
    forall i, j :: 0 <= i < j < |items| ==> Place(TableOf(items[i].value)) <= Place(TableOf(items[j].value))
  }

  predicate Answers(r: Row, q: Row) {
    r.Post? && q.Post? && r.replyTo == Some(q.id)
  }

  // Every answer comes after the post it answers, or answers itself.
  ghost predicate AnswersFollow(items: seq<Option<Row>>)
    requires forall i :: 0 <= i < |items| ==> items[i].Some?
  {
    forall i, j :: 0 <= i < |items| && 0 <= j < |items| && Answers(items[i].value, items[j].value) ==> j <= i
  }

  lemma RefsPointToEarlierTables(r: Row, k: Key)
    requires k in Refs(r)
    ensures k.Id?
    ensures Place(k.table) < Place(TableOf(r)) || (r.Post? && k.table == Posts && r.replyTo == Some(k.id))
  {
  }

  lemma KeyNamesItsTable(r: Row, k: Key)
    requires k in Keys(r) && k.Id?
    ensures TableOf(r) == k.table && r.id == k.id
  {
  }

  lemma RefersBackInOrder(items: seq<Option<Row>>, i: nat)
    requires i < |items| && Fresh({}, items) && InTableOrder(items) && AnswersFollow(items)
    requires Refs(items[i].value) <= KeysOf(RowsOf(items))
    ensures RefersBack({}, items, i)
  {
    var r := items[i].value;
    forall k | k in Refs(r) ensures k in KeysOf({} + RowsOf(items[..i + 1])) {
      RefsPointToEarlierTables(r, k);
      var q :| q in RowsOf(items) && k in Keys(q);
      KeyNamesItsTable(q, k);
      var j :| 0 <= j < |items| && items[j].Some? && items[j].value == q;
      assert j <= i;
      assert items[..i + 1][j].value == q;
      assert q in RowsOf(items[..i + 1]);
    }
  }

  // A sound forum, listed table by table with answers after the posts they answer, is restored exactly by an import
  // into an empty database.
  lemma SoundForumIsRestored(items: seq<Option<Row>>)
    requires Fresh({}, items) && Sound(RowsOf(items))
    requires InTableOrder(items) && AnswersFollow(items)
    ensures Run({}, items) == Outcome(RowsOf(items), |items|)
  {
    FreshRowsAllGoIn({}, items);
    forall i | 0 <= i < |items| ensures RefersBack({}, items, i) {
      assert items[i].value in RowsOf(items);
      RefersBackInOrder(items, i);
    }
    assert {} + RowsOf(items) == RowsOf(items);
  }
}
