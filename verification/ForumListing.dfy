// The forum directory's search query: its text is built from the filters that are present, read back by an
// independent reader, and shown to list what was asked for.
module ForumListing {
  import opened Basics
  import opened Wrappers
  import opened SqlText
  import opened Like

  // A row of the forums table. NULL arrays select like empty ones, so they are empty here.
  datatype Forum = Forum(name: string, domain: string, description: Option<string>, capabilities: seq<string>,
                         tags: seq<string>, approved: bool, memberCount: int, createdAt: int)

  datatype ILikeTest = ILikeTest(col: string, n: nat)
  datatype Cond = Approved | HasCapabilities | AnyILike(tests: seq<ILikeTest>) | HasTag(n: nat)
  datatype OrderKey = OrderKey(col: string, descending: bool)
  datatype Select = Select(conds: seq<Cond>, order: seq<OrderKey>, limit: nat, offset: nat)

  const HEAD := "SELECT id, domain, name, icon_url, api_base, web_base, capabilities, " +
    "description, screenshot_url, tags, member_count\n\t\t FROM forumline_forums WHERE "

  // ----- Reading the text -----

  function ReadTest(s: string): Option<(ILikeTest, string)> {
    var (col, rest) :- ReadName(s);
    var value :- Eat(" ILIKE ", rest);
    var (n, end) :- ReadParam(value);
    Some((ILikeTest(col, n), end))
  }

  function ReadGroup(inner: string): Option<(Cond, string)> {
    var (tests, rest) :- ReadList(ReadTest, " OR ", inner);
    var end :- Eat(")", rest);
    Some((AnyILike(tests), end))
  }

  function ReadTag(s: string): Option<(Cond, string)> {
    var (n, rest) :- ReadParam(s);
    var end :- Eat(" = ANY(tags)", rest);
    Some((HasTag(n), end))
  }

  function ReadCond(s: string): Option<(Cond, string)> {
    if Eat("approved = true", s).Some? then Some((Approved, Eat("approved = true", s).value))
    else if Eat("array_length(capabilities, 1) > 0", s).Some? then
      Some((HasCapabilities, Eat("array_length(capabilities, 1) > 0", s).value))
    else if Eat("(", s).Some? then ReadGroup(s[1..])
    else ReadTag(s)
  }

  function ReadOrderKey(s: string): Option<(OrderKey, string)> {
    var (col, rest) :- ReadName(s);
    match Eat(" DESC", rest)
    case Some(end) => Some((OrderKey(col, true), end))
    case None => Some((OrderKey(col, false), rest))
  }

  function ReadSelect(s: string): Option<Select> {
    var where :- Eat(HEAD, s);
    var (conds, afterConds) :- ReadList(ReadCond, " AND ", where);
    var keys :- Eat(" ORDER BY ", afterConds);
    var (order, afterKeys) :- ReadList(ReadOrderKey, ", ", keys);
    var limitPart :- Eat(" LIMIT ", afterKeys);
    var (limit, afterLimit) :- ReadParam(limitPart);
    var offsetPart :- Eat(" OFFSET ", afterLimit);
    var (offset, end) :- ReadParam(offsetPart);
    if end == "" then Some(Select(conds, order, limit, offset)) else None
  }

  // ----- Running the query -----

  function Column(f: Forum, col: string): Option<string> {
    if col == "name" then Some(f.name)
    else if col == "description" then f.description
    else if col == "domain" then Some(f.domain)
    else None
  }

  function TextAt(args: seq<Value>, n: nat): Option<string> {
    if 1 <= n <= |args| && args[n - 1].Text? then Some(args[n - 1].s) else None
  }

  function IntAt(args: seq<Value>, n: nat): Option<int> {
    if 1 <= n <= |args| && args[n - 1].Int? then Some(args[n - 1].i) else None
  }

  // A test against NULL is not true.
  predicate TestHolds(test: ILikeTest, args: seq<Value>, fold: char -> char, f: Forum) {
    var pattern, text := TextAt(args, test.n), Column(f, test.col);
    pattern.Some? && text.Some? && ILike(fold, pattern.value, text.value)
  }

  predicate CondHolds(c: Cond, args: seq<Value>, fold: char -> char, f: Forum) {
    match c
    case Approved => f.approved
    case HasCapabilities => |f.capabilities| > 0
    case AnyILike(tests) => exists i :: 0 <= i < |tests| && TestHolds(tests[i], args, fold, f)
    case HasTag(n) => TextAt(args, n).Some? && TextAt(args, n).value in f.tags
  }

  predicate Selected(q: Select, args: seq<Value>, fold: char -> char, f: Forum) {
    forall i :: 0 <= i < |q.conds| ==> CondHolds(q.conds[i], args, fold, f)
  }

  function CondParams(c: Cond): set<int> {
    match c
    case Approved => {}
    case HasCapabilities => {}
    case AnyILike(tests) => set i | 0 <= i < |tests| :: tests[i].n
    case HasTag(n) => {n}
  }

  function CondsParams(conds: seq<Cond>): set<int> {
    set i, n | 0 <= i < |conds| && n in CondParams(conds[i]) :: n
  }

  function Filter(keep: Forum -> bool, rows: seq<Forum>): seq<Forum> {
    if rows == [] then []
    else (if keep(rows[0]) then [rows[0]] else []) + Filter(keep, rows[1..])
  }

  function Page(rows: seq<Forum>, limit: nat, offset: nat): seq<Forum> {
    rows[Min(offset, |rows|)..Min(offset + limit, |rows|)]
  }

  // How names compare is up to the database's collation.
  type Collation = (string, string) -> bool

  // By this key alone, `f` comes before `g`.
  predicate KeyPutsBefore(k: OrderKey, less: Collation, f: Forum, g: Forum) {
    var a, b := if k.descending then g else f, if k.descending then f else g;
    if k.col == "name" then less(a.name, b.name)
    else if k.col == "member_count" then a.memberCount < b.memberCount
    else k.col == "created_at" && a.createdAt < b.createdAt
  }

  // The keys, the first that tells them apart deciding, do not put `g` before `f`.
  predicate KeysAllow(keys: seq<OrderKey>, less: Collation, f: Forum, g: Forum)
    decreases |keys|
  {
    keys == []
    || (!KeyPutsBefore(keys[0], less, g, f)
        && (KeyPutsBefore(keys[0], less, f, g) || KeysAllow(keys[1..], less, f, g)))
  }

  predicate Ordered(keys: seq<OrderKey>, less: Collation, rows: seq<Forum>) {
    forall i, j :: 0 <= i < j < |rows| ==> KeysAllow(keys, less, rows[i], rows[j])
  }

  // The selected rows, in an order that the keys allow.
  predicate SelectsAs(q: Select, args: seq<Value>, fold: char -> char, less: Collation, rows: seq<Forum>,
                      arranged: seq<Forum>) {
    && multiset(arranged) == multiset(Filter(f => Selected(q, args, fold, f), rows))
    && Ordered(q.order, less, arranged)
  }

  // The answers PostgreSQL may give; rows the keys do not tell apart may come either way. A statement whose
  // placeholders are not $1..$n for its n arguments, or whose LIMIT or OFFSET is negative, has no answer.
  ghost predicate Answers(q: Select, args: seq<Value>, fold: char -> char, less: Collation, rows: seq<Forum>,
                          out: seq<Forum>) {
    var limit, offset := IntAt(args, q.limit), IntAt(args, q.offset);
    && AreFirst(CondsParams(q.conds) + {q.limit, q.offset}, |args|)
    && limit.Some? && limit.value >= 0
    && offset.Some? && offset.value >= 0
    && exists arranged: seq<Forum> ::
         SelectsAs(q, args, fold, less, rows, arranged) && out == Page(arranged, limit.value, offset.value)
  }

  // ----- What was asked for -----

  // The search text occurs in the text, letter case aside.
  predicate Mentions(search: string, fold: char -> char, text: string) {
    Contains(FoldAll(fold, text), FoldAll(fold, search))
  }

  predicate Wanted(search: string, tag: string, fold: char -> char, f: Forum) {
    && f.approved
    && |f.capabilities| > 0
    && (search != "" ==>
          || Mentions(search, fold, f.name)
          || (f.description.Some? && Mentions(search, fold, f.description.value))
          || Mentions(search, fold, f.domain))
    && (tag != "" ==> tag in f.tags)
  }

  function WantedOrder(sort: string): seq<OrderKey> {
    if sort == "recent" then [OrderKey("created_at", true)]
    else if sort == "name" then [OrderKey("name", false)]
    else [OrderKey("member_count", true), OrderKey("name", false)]
  }

  // `f` may be listed before `g`: the newer first, or the names in order, or the one with more members first and the
  // names in order among equals.
  predicate MayComeFirst(sort: string, less: Collation, f: Forum, g: Forum) {
    if sort == "recent" then f.createdAt >= g.createdAt
    else if sort == "name" then !less(g.name, f.name)
    else f.memberCount > g.memberCount || (f.memberCount == g.memberCount && !less(g.name, f.name))
  }

  // The wanted rows, each as often as it is there, in the order asked for.
  ghost predicate IsArrangement(search: string, tag: string, sort: string, fold: char -> char, less: Collation,
                                rows: seq<Forum>, arranged: seq<Forum>) {
    && (forall f :: multiset(arranged)[f] == if Wanted(search, tag, fold, f) then multiset(rows)[f] else 0)
    && (forall i, j :: 0 <= i < j < |arranged| ==> MayComeFirst(sort, less, arranged[i], arranged[j]))
  }

  // At most `limit` of them from position `offset` on, and fewer only if there are no more.
  predicate IsWindow(arranged: seq<Forum>, limit: nat, offset: nat, out: seq<Forum>) {
    && |out| <= limit
    && (forall i :: 0 <= i < |out| ==> offset + i < |arranged| && out[i] == arranged[offset + i])
    && (|out| < limit ==> offset + |out| >= |arranged|)
  }

  ghost predicate IsListing(search: string, tag: string, sort: string, limit: int, offset: int, fold: char -> char,
                            less: Collation, rows: seq<Forum>, out: seq<Forum>) {
    && limit >= 0
    && offset >= 0
    && exists arranged: seq<Forum> ::
         && IsArrangement(search, tag, sort, fold, less, rows, arranged)
         && IsWindow(arranged, limit, offset, out)
  }

  // ----- The statement for the filters present -----

  function PlanConds(search: string, tag: string): seq<Cond> {
    [Approved, HasCapabilities]
    + (if search == "" then []
       else [AnyILike([ILikeTest("name", 1), ILikeTest("description", 1), ILikeTest("domain", 1)])])
    + (if tag == "" then [] else [HasTag(if search == "" then 1 else 2)])
  }

  function PlanFilterArgs(search: string, tag: string): seq<Value> {
    (if search == "" then [] else [Text(ForumPattern(search))]) + (if tag == "" then [] else [Text(tag)])
  }

  function Plan(search: string, tag: string, sort: string): Select {
    var n := |PlanFilterArgs(search, tag)| + 1;
    Select(PlanConds(search, tag), WantedOrder(sort), n, n + 1)
  }

  lemma PlanSelectsWanted(search: string, tag: string, sort: string, args: seq<Value>, fold: char -> char, f: Forum)
    requires KeepsMeta(fold)
    requires PlanFilterArgs(search, tag) <= args
    ensures Selected(Plan(search, tag, sort), args, fold, f) <==> Wanted(search, tag, fold, f)
  {
    var conds := PlanConds(search, tag);
    var q := Plan(search, tag, sort);
    assert conds[0] == Approved && conds[1] == HasCapabilities;
    if search != "" {
      assert args[0] == Text(ForumPattern(search));
      var c := conds[2];
      ForumSearchIsContainment(fold, search, f.name);
      ForumSearchIsContainment(fold, search, f.domain);
      if f.description.Some? {
        ForumSearchIsContainment(fold, search, f.description.value);
      }
      assert TestHolds(c.tests[0], args, fold, f) <==> Mentions(search, fold, f.name);
      assert TestHolds(c.tests[1], args, fold, f)
             <==> f.description.Some? && Mentions(search, fold, f.description.value);
      assert TestHolds(c.tests[2], args, fold, f) <==> Mentions(search, fold, f.domain);
    }
    if tag != "" {
      var c := conds[|conds| - 1];
      assert args[c.n - 1] == Text(tag);
      assert CondHolds(c, args, fold, f) <==> tag in f.tags;
    }
  }

  lemma PlanUsesItsArguments(search: string, tag: string)
    ensures var n := |PlanFilterArgs(search, tag)| + 1;
      AreFirst(CondsParams(PlanConds(search, tag)) + {n, n + 1}, n + 1)
  {
    var tests := [ILikeTest("name", 1), ILikeTest("description", 1), ILikeTest("domain", 1)];
    assert CondParams(AnyILike(tests)) == {1} by {
      assert tests[0].n == 1;
    }
    var conds := PlanConds(search, tag);
    var n := |PlanFilterArgs(search, tag)| + 1;
    assert search != "" ==> conds[2] == AnyILike(tests);
    assert tag != "" ==> conds[|conds| - 1] == HasTag(n - 1);
    forall i | 1 <= i < n ensures i in CondsParams(conds) {
      var j := if search != "" && i == 1 then 2 else |conds| - 1;
      assert i in CondParams(conds[j]);
    }
  }

  lemma {:induction false} FilterCounts(keep: Forum -> bool, rows: seq<Forum>, f: Forum)
    ensures multiset(Filter(keep, rows))[f] == if keep(f) then multiset(rows)[f] else 0
    decreases |rows|
  {
    if rows != [] {
      FilterCounts(keep, rows[1..], f);
      assert rows == [rows[0]] + rows[1..];
    }
  }

  lemma PageLength(arranged: seq<Forum>, limit: nat, offset: nat)
    ensures |Page(arranged, limit, offset)|
            == if offset >= |arranged| then 0 else Min(limit, |arranged| - offset)
  {
  }

  lemma PageCell(arranged: seq<Forum>, limit: nat, offset: nat, i: nat)
    requires i < |Page(arranged, limit, offset)|
    ensures offset + i < |arranged| && Page(arranged, limit, offset)[i] == arranged[offset + i]
  {
  }

  lemma WindowLength(arranged: seq<Forum>, limit: nat, offset: nat, out: seq<Forum>)
    requires IsWindow(arranged, limit, offset, out)
    ensures |out| == if offset >= |arranged| then 0 else Min(limit, |arranged| - offset)
  {
    if out != [] {
      var last := out[|out| - 1];
      assert last == out[|out| - 1];
    }
  }

  lemma PageIsWindow(arranged: seq<Forum>, limit: nat, offset: nat, out: seq<Forum>)
    ensures out == Page(arranged, limit, offset) <==> IsWindow(arranged, limit, offset, out)
  {
    var page := Page(arranged, limit, offset);
    PageLength(arranged, limit, offset);
    forall i: nat | i < |page| ensures offset + i < |arranged| && page[i] == arranged[offset + i] {
      PageCell(arranged, limit, offset, i);
    }
    if IsWindow(arranged, limit, offset, out) {
      WindowLength(arranged, limit, offset, out);
      assert forall i :: 0 <= i < |out| ==> out[i] == page[i];
    }
  }

  lemma OrderMeans(sort: string, less: Collation, f: Forum, g: Forum)
    ensures KeysAllow(WantedOrder(sort), less, f, g) <==> MayComeFirst(sort, less, f, g)
  {
    ColumnsDiffer();
    var keys := WantedOrder(sort);
    if |keys| == 2 {
      assert keys[1..] == [OrderKey("name", false)];
      OneKeyAllows(keys[1], less, f, g);
    }
    OneKeyAllows(keys[0], less, f, g);
    assert |keys| == 1 ==> keys == [keys[0]];
  }

  lemma OneKeyAllows(k: OrderKey, less: Collation, f: Forum, g: Forum)
    ensures KeysAllow([k], less, f, g) <==> !KeyPutsBefore(k, less, g, f)
  {
  }

  lemma ColumnsDiffer()
    ensures "name" != "member_count" && "name" != "created_at" && "member_count" != "created_at"
  {
    assert |"name"| == 4 && |"member_count"| == 12 && |"created_at"| == 10;
  }

  // An arrangement in the sense of the statement is one in the sense of the request.
  lemma ArrangementsAgree(search: string, tag: string, sort: string, args: seq<Value>, fold: char -> char,
                          less: Collation, rows: seq<Forum>, arranged: seq<Forum>)
    requires KeepsMeta(fold) && PlanFilterArgs(search, tag) <= args
    ensures SelectsAs(Plan(search, tag, sort), args, fold, less, rows, arranged)
      <==> IsArrangement(search, tag, sort, fold, less, rows, arranged)
  {
    var q := Plan(search, tag, sort);
    var kept := Filter(f => Selected(q, args, fold, f), rows);
    forall f ensures multiset(kept)[f] == if Wanted(search, tag, fold, f) then multiset(rows)[f] else 0 {
      PlanSelectsWanted(search, tag, sort, args, fold, f);
      FilterCounts(g => Selected(q, args, fold, g), rows, f);
    }
    forall i, j | 0 <= i < j < |arranged|
      ensures KeysAllow(q.order, less, arranged[i], arranged[j]) <==> MayComeFirst(sort, less, arranged[i], arranged[j])
    {
      OrderMeans(sort, less, arranged[i], arranged[j]);
    }
  }

  // The law: for every combination of filters, the answers to the built statement are exactly the listings asked for.
  lemma PlanAnswersTheRequest(search: string, tag: string, sort: string, limit: int, offset: int, fold: char -> char,
                              less: Collation, rows: seq<Forum>, out: seq<Forum>)
    requires KeepsMeta(fold)
    ensures Answers(Plan(search, tag, sort), PlanFilterArgs(search, tag) + [Int(limit), Int(offset)], fold, less, rows,
                    out)
            <==> IsListing(search, tag, sort, limit, offset, fold, less, rows, out)
  {
    var args := PlanFilterArgs(search, tag) + [Int(limit), Int(offset)];
    PlanUsesItsArguments(search, tag);
    if limit >= 0 && offset >= 0 {
      forall arranged: seq<Forum>
        ensures SelectsAs(Plan(search, tag, sort), args, fold, less, rows, arranged)
          <==> IsArrangement(search, tag, sort, fold, less, rows, arranged)
        ensures out == Page(arranged, limit, offset) <==> IsWindow(arranged, limit, offset, out)
      {
        ArrangementsAgree(search, tag, sort, args, fold, less, rows, arranged);
        PageIsWindow(arranged, limit, offset, out);
      }
    }
  }

  // ----- Writing the text -----

  function ShowTest(t: ILikeTest): string {
    t.col + " ILIKE $" + Decimal(t.n)
  }

  function ShowCond(c: Cond): string {
    match c
    case Approved => "approved = true"
    case HasCapabilities => "array_length(capabilities, 1) > 0"
    case AnyILike(tests) => "(" + Join(" OR ", Texts(tests)) + ")"
    case HasTag(n) => "$" + Decimal(n) + " = ANY(tags)"
  }

  function Texts(tests: seq<ILikeTest>): seq<string> {
    seq(|tests|, i requires 0 <= i < |tests| => ShowTest(tests[i]))
  }

  function CondTexts(conds: seq<Cond>): seq<string> {
    seq(|conds|, i requires 0 <= i < |conds| => ShowCond(conds[i]))
  }

  function ShowOrder(sort: string): string {
    if sort == "recent" then "created_at DESC"
    else if sort == "name" then "name"
    else "member_count DESC, name"
  }

  lemma TestReadsBack(t: ILikeTest, rest: string)
    requires IsName(t.col) && NoDigitNext(rest)
    ensures ReadTest(ShowTest(t) + rest) == Some((t, rest))
  {
    var tail := "$" + Decimal(t.n) + rest;
    assert ShowTest(t) + rest == t.col + (" ILIKE " + tail);
    NameReadsBack(t.col, " ILIKE " + tail);
    EatLiteral(" ILIKE ", tail);
    ParamReadsBack(t.n, rest);
  }

  predicate ReadableTests(tests: seq<ILikeTest>) {
    |tests| > 0 && forall i :: 0 <= i < |tests| ==> IsName(tests[i].col)
  }

  lemma TestsReadBack(tests: seq<ILikeTest>, rest: string)
    requires ReadableTests(tests)
    requires rest != "" && rest[0] == ')'
    ensures ReadList(ReadTest, " OR ", Join(" OR ", Texts(tests)) + rest) == Some((tests, rest))
  {
    forall i | 0 <= i < |tests| ensures ReadsAs(ReadTest, Texts(tests)[i], tests[i], NoDigitNext) {
      forall u | NoDigitNext(u) ensures ReadTest(Texts(tests)[i] + u) == Some((tests[i], u)) {
        TestReadsBack(tests[i], u);
      }
    }
    ListReadsBack(ReadTest, " OR ", Texts(tests), tests, NoDigitNext, rest);
  }

  predicate SpaceNext(rest: string) {
    rest != "" && rest[0] == ' '
  }

  lemma GroupReadsBack(tests: seq<ILikeTest>, rest: string)
    requires ReadableTests(tests)
    ensures ReadGroup(Join(" OR ", Texts(tests)) + (")" + rest)) == Some((AnyILike(tests), rest))
  {
    TestsReadBack(tests, ")" + rest);
    EatLiteral(")", rest);
  }

  lemma TagReadsBack(n: nat, rest: string)
    ensures ReadTag("$" + Decimal(n) + (" = ANY(tags)" + rest)) == Some((HasTag(n), rest))
  {
    ParamReadsBack(n, " = ANY(tags)" + rest);
    EatLiteral(" = ANY(tags)", rest);
  }

  lemma FixedCondReadsBack(c: Cond, rest: string)
    requires c.Approved? || c.HasCapabilities?
    ensures ReadCond(ShowCond(c) + rest) == Some((c, rest))
  {
    EatLiteral(ShowCond(c), rest);
    assert c.HasCapabilities? ==> (ShowCond(c) + rest)[1] == 'r' && "approved = true"[1] == 'p';
  }

  lemma NoFixedCond(s: string)
    requires s != "" && s[0] != 'a'
    ensures Eat("approved = true", s) == None && Eat("array_length(capabilities, 1) > 0", s) == None
  {
    assert "approved = true"[0] == 'a' && "array_length(capabilities, 1) > 0"[0] == 'a';
  }

  lemma GroupCondReadsBack(tests: seq<ILikeTest>, rest: string)
    requires ReadableTests(tests)
    ensures ReadCond(ShowCond(AnyILike(tests)) + rest) == Some((AnyILike(tests), rest))
  {
    GroupReadsBack(tests, rest);
    Brackets(Join(" OR ", Texts(tests)), rest);
    ReadsAsGroup(Join(" OR ", Texts(tests)) + (")" + rest));
  }

  lemma Brackets(inner: string, rest: string)
    ensures "(" + inner + ")" + rest == "(" + (inner + (")" + rest))
  {
  }

  lemma ReadsAsGroup(inner: string)
    ensures ReadCond("(" + inner) == ReadGroup(inner)
  {
    NoFixedCond("(" + inner);
    EatLiteral("(", inner);
    assert ("(" + inner)[1..] == inner;
  }

  lemma TagCondReadsBack(n: nat, rest: string)
    ensures ReadCond(ShowCond(HasTag(n)) + rest) == Some((HasTag(n), rest))
  {
    TagReadsBack(n, rest);
    var s := "$" + Decimal(n) + (" = ANY(tags)" + rest);
    ThreeParts("$", Decimal(n), " = ANY(tags)", rest);
    ReadsAsTag(s);
  }

  lemma ThreeParts(a: string, b: string, c: string, rest: string)
    ensures a + b + c + rest == a + b + (c + rest)
  {
  }

  lemma ReadsAsTag(s: string)
    requires s != "" && s[0] == '$'
    ensures ReadCond(s) == ReadTag(s)
  {
    NoFixedCond(s);
  }

  lemma CondReadsBack(c: Cond, rest: string)
    requires c.AnyILike? ==> ReadableTests(c.tests)
    ensures ReadCond(ShowCond(c) + rest) == Some((c, rest))
  {
    match c {
      case Approved => FixedCondReadsBack(c, rest);
      case HasCapabilities => FixedCondReadsBack(c, rest);
      case AnyILike(tests) => GroupCondReadsBack(tests, rest);
      case HasTag(n) => TagCondReadsBack(n, rest);
    }
  }

  function ShowKey(k: OrderKey): string {
    k.col + (if k.descending then " DESC" else "")
  }

  function KeyTexts(order: seq<OrderKey>): seq<string> {
    seq(|order|, i requires 0 <= i < |order| => ShowKey(order[i]))
  }

  predicate KeyEnds(rest: string) {
    rest != "" && !IsNameChar(rest[0]) && Eat(" DESC", rest) == None
  }

  predicate AnyNext(rest: string) {
    true
  }

  lemma KeyReadsBack(k: OrderKey, rest: string)
    requires IsName(k.col) && KeyEnds(rest)
    ensures ReadOrderKey(ShowKey(k) + rest) == Some((k, rest))
  {
    if k.descending {
      assert ShowKey(k) + rest == k.col + (" DESC" + rest);
      NameReadsBack(k.col, " DESC" + rest);
      EatLiteral(" DESC", rest);
    } else {
      assert ShowKey(k) + rest == k.col + rest;
      NameReadsBack(k.col, rest);
    }
  }

  lemma KeysReadBack(order: seq<OrderKey>, rest: string)
    requires |order| > 0 && forall i :: 0 <= i < |order| ==> IsName(order[i].col)
    requires KeyEnds(rest) && rest[0] != ','
    ensures ReadList(ReadOrderKey, ", ", Join(", ", KeyTexts(order)) + rest) == Some((order, rest))
  {
    forall i | 0 <= i < |order| ensures ReadsAs(ReadOrderKey, KeyTexts(order)[i], order[i], KeyEnds) {
      forall u | KeyEnds(u) ensures ReadOrderKey(KeyTexts(order)[i] + u) == Some((order[i], u)) {
        KeyReadsBack(order[i], u);
      }
    }
    ListReadsBack(ReadOrderKey, ", ", KeyTexts(order), order, KeyEnds, rest);
  }

  lemma CondsReadBack(conds: seq<Cond>, rest: string)
    requires |conds| > 0 && forall i :: 0 <= i < |conds| && conds[i].AnyILike? ==> ReadableTests(conds[i].tests)
    requires !(" AND " <= rest)
    ensures ReadList(ReadCond, " AND ", Join(" AND ", CondTexts(conds)) + rest) == Some((conds, rest))
  {
    forall i | 0 <= i < |conds| ensures ReadsAs(ReadCond, CondTexts(conds)[i], conds[i], AnyNext) {
      forall u | AnyNext(u) ensures ReadCond(CondTexts(conds)[i] + u) == Some((conds[i], u)) {
        CondReadsBack(conds[i], u);
      }
    }
    ListReadsBack(ReadCond, " AND ", CondTexts(conds), conds, AnyNext, rest);
  }

  function LimitText(limit: nat, offset: nat): string {
    " LIMIT " + ("$" + Decimal(limit) + (" OFFSET " + ("$" + Decimal(offset))))
  }

  function SelectText(q: Select): string {
    HEAD + (Join(" AND ", CondTexts(q.conds))
            + (" ORDER BY " + (Join(", ", KeyTexts(q.order)) + LimitText(q.limit, q.offset))))
  }

  lemma LimitReadsBack(limit: nat, offset: nat)
    ensures var afterLimit := " OFFSET " + ("$" + Decimal(offset));
      && Eat(" LIMIT ", LimitText(limit, offset)) == Some("$" + Decimal(limit) + afterLimit)
      && ReadParam("$" + Decimal(limit) + afterLimit) == Some((limit, afterLimit))
      && Eat(" OFFSET ", afterLimit) == Some("$" + Decimal(offset))
      && ReadParam("$" + Decimal(offset)) == Some((offset, ""))
  {
    var afterLimit := " OFFSET " + ("$" + Decimal(offset));
    EatLiteral(" LIMIT ", "$" + Decimal(limit) + afterLimit);
    ParamReadsBack(limit, afterLimit);
    EatLiteral(" OFFSET ", "$" + Decimal(offset));
    assert "$" + Decimal(offset) + "" == "$" + Decimal(offset);
    ParamReadsBack(offset, "");
  }

  // Every statement of this shape reads back as written.
  lemma SelectReadsBack(q: Select)
    requires |q.conds| > 0
    requires forall i :: 0 <= i < |q.conds| && q.conds[i].AnyILike? ==> ReadableTests(q.conds[i].tests)
    requires |q.order| > 0 && forall i :: 0 <= i < |q.order| ==> IsName(q.order[i].col)
    ensures ReadSelect(SelectText(q)) == Some(q)
  {
    var afterKeys := LimitText(q.limit, q.offset);
    var keys := Join(", ", KeyTexts(q.order)) + afterKeys;
    var afterConds := " ORDER BY " + keys;
    EatLiteral(HEAD, Join(" AND ", CondTexts(q.conds)) + afterConds);
    assert afterConds[1] == 'O';
    CondsReadBack(q.conds, afterConds);
    EatLiteral(" ORDER BY ", keys);
    assert afterKeys[1] == 'L';
    KeysReadBack(q.order, afterKeys);
    LimitReadsBack(q.limit, q.offset);
  }

  lemma JoinTwo(sep: string, a: string, b: string)
    ensures Join(sep, [a, b]) == a + sep + b
  {
    assert [a, b][..1] == [a];
  }

  lemma JoinThree(sep: string, a: string, b: string, c: string)
    ensures Join(sep, [a, b, c]) == a + sep + b + sep + c
  {
    assert [a, b, c][..2] == [a, b];
    JoinTwo(sep, a, b);
  }

  lemma PopularOrderText()
    ensures Join(", ", KeyTexts([OrderKey("member_count", true), OrderKey("name", false)]))
            == "member_count DESC, name"
  {
    var order := [OrderKey("member_count", true), OrderKey("name", false)];
    assert KeyTexts(order) == [ShowKey(order[0]), ShowKey(order[1])];
    JoinTwo(", ", ShowKey(order[0]), ShowKey(order[1]));
    assert "member_count" + " DESC" + ", " + "name" == "member_count DESC, name";
  }

  lemma OrderText(sort: string)
    ensures Join(", ", KeyTexts(WantedOrder(sort))) == ShowOrder(sort)
  {
    if sort == "recent" {
      assert "created_at" + " DESC" == "created_at DESC";
    } else if sort != "name" {
      PopularOrderText();
    }
  }

  lemma OrderNames(sort: string)
    ensures forall i :: 0 <= i < |WantedOrder(sort)| ==> IsName(WantedOrder(sort)[i].col)
  {
  }

  function SearchTests(n: nat): seq<ILikeTest> {
    [ILikeTest("name", n), ILikeTest("description", n), ILikeTest("domain", n)]
  }

  function SearchGroup(n: nat): string {
    "(name ILIKE $" + Decimal(n) + " OR description ILIKE $" + Decimal(n) + " OR domain ILIKE $" + Decimal(n) + ")"
  }

  lemma Regroup(open: string, a: string, b: string, c: string, op: string, sep: string, d: string, close: string)
    ensures open + ((a + op + d) + sep + (b + op + d) + sep + (c + op + d)) + close
            == (open + a + op) + d + (sep + b + op) + d + (sep + c + op) + d + close
  {
  }

  lemma SearchGroupText(n: nat)
    ensures ShowCond(AnyILike(SearchTests(n))) == SearchGroup(n)
  {
    var tests := SearchTests(n);
    assert Texts(tests) == [ShowTest(tests[0]), ShowTest(tests[1]), ShowTest(tests[2])];
    JoinThree(" OR ", ShowTest(tests[0]), ShowTest(tests[1]), ShowTest(tests[2]));
    assert Literals() by {
      SearchLiterals();
    }
    RegroupSearch(Decimal(n));
  }

  lemma RegroupSearch(d: string)
    requires Literals()
    ensures "(" + (("name" + " ILIKE $" + d) + " OR " + ("description" + " ILIKE $" + d) + " OR "
                   + ("domain" + " ILIKE $" + d)) + ")"
            == "(name ILIKE $" + d + " OR description ILIKE $" + d + " OR domain ILIKE $" + d + ")"
  {
    Regroup("(", "name", "description", "domain", " ILIKE $", " OR ", d, ")");
  }

  predicate Literals() {
    && "(" + "name" + " ILIKE $" == "(name ILIKE $"
    && " OR " + "description" + " ILIKE $" == " OR description ILIKE $"
    && " OR " + "domain" + " ILIKE $" == " OR domain ILIKE $"
  }

  lemma SearchLiterals()
    ensures Literals()
  {
  }

  lemma AddCondText(conds: seq<Cond>, c: Cond)
    requires |conds| > 0
    ensures Join(" AND ", CondTexts(conds + [c])) == Join(" AND ", CondTexts(conds)) + " AND " + ShowCond(c)
  {
    var texts := CondTexts(conds + [c]);
    assert texts[..|conds|] == CondTexts(conds);
  }

  lemma BaseCondText()
    ensures Join(" AND ", CondTexts([Approved, HasCapabilities]))
            == "approved = true AND array_length(capabilities, 1) > 0"
  {
    JoinTwo(" AND ", ShowCond(Approved), ShowCond(HasCapabilities));
    assert CondTexts([Approved, HasCapabilities]) == [ShowCond(Approved), ShowCond(HasCapabilities)];
    BaseLiteral();
  }

  lemma BaseLiteral()
    ensures "approved = true" + " AND " + "array_length(capabilities, 1) > 0"
        == "approved = true AND array_length(capabilities, 1) > 0"
  {
  }

  lemma PlanReadable(search: string, tag: string)
    ensures var conds := PlanConds(search, tag);
      forall i :: 0 <= i < |conds| && conds[i].AnyILike? ==> ReadableTests(conds[i].tests)
  {
    assert ReadableTests(SearchTests(1));
  }

  // What a half-built WHERE clause stands for: the conditions so far and their arguments.
  ghost predicate Filters(head: string, query: string, args: seq<Value>, conds: seq<Cond>, wanted: seq<Value>) {
    query == head + Join(" AND ", CondTexts(conds)) && args == wanted && |conds| > 0
  }

  lemma AddFilter(head: string, query: string, args: seq<Value>, conds: seq<Cond>, c: Cond, text: string, v: Value)
    requires Filters(head, query, args, conds, args)
    requires text == ShowCond(c)
    ensures Filters(head, query + (" AND " + text), args + [v], conds + [c], args + [v])
  {
    AddCondText(conds, c);
  }

  // The filter blocks: each present filter adds a condition, an argument and the next placeholder number.
  method AddFilters(base: string, search: string, tag: string, ghost head: string)
    returns (query: string, args: seq<Value>, argIdx: nat)
    requires base == head + Join(" AND ", CondTexts([Approved, HasCapabilities]))
    ensures Filters(head, query, args, PlanConds(search, tag), PlanFilterArgs(search, tag))
    ensures argIdx == |args| + 1
  {
    query, args, argIdx := base, [], 1;
    ghost var conds := [Approved, HasCapabilities];
    if search != "" {
      var escaped := Escape(search);
      SearchGroupText(argIdx);
      AddFilter(head, query, args, conds, AnyILike(SearchTests(argIdx)), SearchGroup(argIdx),
                Text("%" + escaped + "%"));
      conds := conds + [AnyILike(SearchTests(argIdx))];
      query := query + (" AND " + SearchGroup(argIdx));
      args := args + [Text("%" + escaped + "%")];
      argIdx := argIdx + 1;
    }
    if tag != "" {
      AddFilter(head, query, args, conds, HasTag(argIdx), "$" + Decimal(argIdx) + " = ANY(tags)", Text(tag));
      conds := conds + [HasTag(argIdx)];
      query := query + (" AND " + ("$" + Decimal(argIdx) + " = ANY(tags)"));
      args := args + [Text(tag)];
      argIdx := argIdx + 1;
    }
    assert conds == PlanConds(search, tag);
  }

  // The end of the statement: ORDER BY for the requested sort, then LIMIT and OFFSET.
  method FinishQuery(filtered: string, filterArgs: seq<Value>, argIdx: nat, sort: string, limit: int, offset: int)
    returns (query: string, args: seq<Value>)
    ensures query == filtered + (" ORDER BY " + (ShowOrder(sort) + LimitText(argIdx, argIdx + 1)))
    ensures args == filterArgs + [Int(limit), Int(offset)]
  {
    query := filtered + " ORDER BY ";
    match sort {
      case "recent" => query := query + "created_at DESC";
      case "name" => query := query + "name";
      case _ => query := query + "member_count DESC, name";
    }
    Reassociate(filtered, " ORDER BY ", ShowOrder(sort), LimitText(argIdx, argIdx + 1));
    query := query + LimitText(argIdx, argIdx + 1);
    args := filterArgs + [Int(limit), Int(offset)];
  }

  // The text and the arguments are built filter by filter; run against any rows, they answer the request.
  method ListForums(search: string, tag: string, sort: string, limit: int, offset: int,
                    ghost fold: char -> char, ghost less: Collation)
    returns (query: string, args: seq<Value>)
    requires KeepsMeta(fold)
    ensures ReadSelect(query) == Some(Plan(search, tag, sort))
    ensures forall rows, out :: Answers(Plan(search, tag, sort), args, fold, less, rows, out)
                                <==> IsListing(search, tag, sort, limit, offset, fold, less, rows, out)
  {
    var argIdx;
    BaseCondText();
    query, args, argIdx :=
      AddFilters(HEAD + "approved = true AND array_length(capabilities, 1) > 0", search, tag, HEAD);
    query, args := FinishQuery(query, args, argIdx, sort, limit, offset);
    PlanReadsBack(search, tag, sort, query);
    forall rows, out ensures Answers(Plan(search, tag, sort), args, fold, less, rows, out)
                             <==> IsListing(search, tag, sort, limit, offset, fold, less, rows, out) {
      PlanAnswersTheRequest(search, tag, sort, limit, offset, fold, less, rows, out);
    }
  }

  lemma Associate(a: string, b: string, c: string)
    ensures a + b + c == a + (b + c)
  {
  }

  lemma PlanReadsBack(search: string, tag: string, sort: string, query: string)
    requires var n := |PlanFilterArgs(search, tag)| + 1;
      query == HEAD + Join(" AND ", CondTexts(PlanConds(search, tag)))
               + (" ORDER BY " + (ShowOrder(sort) + LimitText(n, n + 1)))
    ensures ReadSelect(query) == Some(Plan(search, tag, sort))
  {
    var q := Plan(search, tag, sort);
    assert query == SelectText(q) by {
      OrderText(sort);
      Associate(HEAD, Join(" AND ", CondTexts(q.conds)),
                " ORDER BY " + (ShowOrder(sort) + LimitText(q.limit, q.offset)));
    }
    assert ReadSelect(SelectText(q)) == Some(q) by {
      PlanReadable(search, tag);
      OrderNames(sort);
      SelectReadsBack(q);
    }
  }
}
