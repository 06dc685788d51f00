// The text of the dynamic UPDATE statements: how the program writes it, an independent reader that parses it back,
// and what executing the parsed statement does to a table.
module SqlText {
  import opened Basics
  import opened Wrappers

  // ----- Scanning -----

  predicate IsDigit(c: char) {
    '0' <= c <= '9'
  }

  predicate IsNameChar(c: char) {
    'a' <= c <= 'z' || c == '_'
  }

  predicate AllOf(ok: char -> bool, s: string) {
    forall i :: 0 <= i < |s| ==> ok(s[i])
  }

  predicate IsName(s: string) {
    s != "" && AllOf(IsNameChar, s)
  }

  // Length of the longest prefix whose characters are all `ok`.
  function Span(ok: char -> bool, s: string): (n: nat)
    ensures n <= |s| && AllOf(ok, s[..n])
  {
    if s != "" && ok(s[0]) then
      var n := Span(ok, s[1..]);
      assert s[..n + 1] == [s[0]] + s[1..][..n];
      n + 1
    else 0
  }

  lemma {:induction false} SpanStopsAfter(ok: char -> bool, w: string, rest: string)
    requires AllOf(ok, w)
    requires rest == "" || !ok(rest[0])
    ensures Span(ok, w + rest) == |w|
  {
    if w == "" {
      assert w + rest == rest;
    } else {
      assert (w + rest)[1..] == w[1..] + rest;
      SpanStopsAfter(ok, w[1..], rest);
    }
  }

  // ----- Decimal numbers -----

  function Decimal(n: nat): string {
    if n < 10 then ["0123456789"[n]] else Decimal(n / 10) + ["0123456789"[n % 10]]
  }

  function Number(ds: string): nat
    requires AllOf(IsDigit, ds)
  {
    if ds == "" then 0
    else 10 * Number(ds[..|ds| - 1]) + (ds[|ds| - 1] as nat - '0' as nat)
  }

  lemma {:induction false} DecimalReadsBack(n: nat)
    ensures Decimal(n) != "" && AllOf(IsDigit, Decimal(n)) && Number(Decimal(n)) == n
  {
    if n >= 10 {
      DecimalReadsBack(n / 10);
      assert Decimal(n)[..|Decimal(n)| - 1] == Decimal(n / 10);
    } else {
      assert Decimal(n)[..0] == "";
    }
  }

  // ----- Reading pieces of a statement -----

  function Eat(literal: string, s: string): (r: Option<string>)
    ensures r.Some? ==> s == literal + r.value
  {
    if literal <= s then Some(s[|literal|..]) else None
  }

  function ReadName(s: string): (r: Option<(string, string)>)
    ensures r.Some? ==> |r.value.1| < |s|
  {
    var n := Span(IsNameChar, s);
    if n == 0 then None else Some((s[..n], s[n..]))
  }

  // `$` followed by a decimal number.
  function ReadParam(s: string): (r: Option<(nat, string)>)
    ensures r.Some? ==> |r.value.1| < |s|
  {
    var body :- Eat("$", s);
    var n := Span(IsDigit, body);
    if n == 0 then None else Some((Number(body[..n]), body[n..]))
  }

  lemma EatLiteral(literal: string, rest: string)
    ensures Eat(literal, literal + rest) == Some(rest)
  {
    assert (literal + rest)[|literal|..] == rest;
  }

  lemma NameReadsBack(w: string, rest: string)
    requires IsName(w)
    requires rest == "" || !IsNameChar(rest[0])
    ensures ReadName(w + rest) == Some((w, rest))
  {
    SpanStopsAfter(IsNameChar, w, rest);
  }

  lemma ParamReadsBack(n: nat, rest: string)
    requires NoDigitNext(rest)
    ensures ReadParam("$" + Decimal(n) + rest) == Some((n, rest))
  {
    DecimalReadsBack(n);
    assert "$" + Decimal(n) + rest == "$" + (Decimal(n) + rest);
    EatLiteral("$", Decimal(n) + rest);
    SpanStopsAfter(IsDigit, Decimal(n), rest);
    assert (Decimal(n) + rest)[..|Decimal(n)|] == Decimal(n);
  }

  // ----- Separated lists -----

  type Reader<!T> = string -> Option<(T, string)>

  // One or more items with `sep` between them; an item must consume something.
  function ReadList<T>(item: Reader<T>, sep: string, s: string): Option<(seq<T>, string)>
    decreases |s|
  {
    var (x, rest) :- item(s);
    if |rest| >= |s| then None
    else
      match Eat(sep, rest)
      case None => Some(([x], rest))
      case Some(next) =>
        var (more, end) :- ReadList(item, sep, next);
        Some(([x] + more, end))
  }

  // `text` reads back as `x` in front of everything that can follow an item.
  ghost predicate ReadsAs<T(!new)>(item: Reader<T>, text: string, x: T, ends: string -> bool) {
    text != "" && forall rest :: ends(rest) ==> item(text + rest) == Some((x, rest))
  }

  ghost predicate AllReadAs<T(!new)>(item: Reader<T>, texts: seq<string>, xs: seq<T>, ends: string -> bool) {
    |texts| == |xs| && forall i :: 0 <= i < |xs| ==> ReadsAs(item, texts[i], xs[i], ends)
  }

  lemma {:induction false} JoinFromFront(sep: string, part: string, parts: seq<string>)
    requires |parts| > 0
    ensures Join(sep, [part] + parts) == part + sep + Join(sep, parts)
  {
    var all := [part] + parts;
    if |parts| > 1 {
      var init, last := parts[..|parts| - 1], parts[|parts| - 1];
      assert all[..|all| - 1] == [part] + init;
      JoinFromFront(sep, part, init);
      Reassociate(part, sep, Join(sep, init), sep + last);
      assert Join(sep, all) == (part + sep + Join(sep, init)) + (sep + last);
    } else {
      assert all[..1] == [part];
    }
  }

  lemma Reassociate(a: string, b: string, c: string, d: string)
    ensures a + b + c + d == a + (b + (c + d))
  {
  }

  lemma JoinThenRest(sep: string, texts: seq<string>, rest: string)
    requires |texts| > 1
    ensures Join(sep, texts) + rest == texts[0] + (sep + (Join(sep, texts[1..]) + rest))
  {
    assert texts == [texts[0]] + texts[1..];
    JoinFromFront(sep, texts[0], texts[1..]);
    Reassociate(texts[0], sep, Join(sep, texts[1..]), rest);
  }

  lemma FirstItemReads<T(!new)>(item: Reader<T>, sep: string, text: string, x: T, ends: string -> bool, next: string,
                          more: seq<T>, end: string)
    requires ReadsAs(item, text, x, ends) && ends(sep + next)
    requires ReadList(item, sep, next) == Some((more, end))
    ensures ReadList(item, sep, text + (sep + next)) == Some(([x] + more, end))
  {
    EatLiteral(sep, next);
  }

  // A list written with separators reads back as its items.
  lemma {:induction false} ListReadsBack<T(!new)>(item: Reader<T>, sep: string, texts: seq<string>, xs: seq<T>,
                                            ends: string -> bool, rest: string)
    requires |xs| > 0 && AllReadAs(item, texts, xs, ends)
    requires forall u :: ends(sep + u)
    requires ends(rest) && !(sep <= rest)
    ensures ReadList(item, sep, Join(sep, texts) + rest) == Some((xs, rest))
    decreases |xs|
  {
    if |xs| == 1 {
      assert ReadsAs(item, texts[0], xs[0], ends);
      assert xs == [xs[0]];
    } else {
      var next := Join(sep, texts[1..]) + rest;
      ListReadsBack(item, sep, texts[1..], xs[1..], ends, rest);
      FirstItemReads(item, sep, texts[0], xs[0], ends, next, xs[1..], rest);
      assert [xs[0]] + xs[1..] == xs;
      JoinThenRest(sep, texts, rest);
    }
  }

  predicate NoDigitNext(rest: string) {
    rest == "" || !IsDigit(rest[0])
  }

  // ----- UPDATE statements -----

  datatype Rhs = Now | Param(n: nat)
  datatype Assignment = Assignment(col: string, rhs: Rhs)
  datatype Update = Update(table: string, sets: seq<Assignment>, key: nat)

  function SetClause(col: string, argIdx: nat): string {
    col + " = $" + Decimal(argIdx)
  }

  function Show(a: Assignment): string {
    match a.rhs
    case Now => a.col + " = NOW()"
    case Param(n) => SetClause(a.col, n)
  }

  function UpdateText(table: string, clauses: seq<string>): string {
    "UPDATE " + (table + (" SET " + (Join(", ", clauses) + " WHERE id = $1")))
  }

  function ParseAssignment(s: string): (r: Option<(Assignment, string)>)
    ensures r.Some? ==> |r.value.1| < |s|
  {
    var (col, afterName) :- ReadName(s);
    var value :- Eat(" = ", afterName);
    match Eat("NOW()", value)
    case Some(rest) => Some((Assignment(col, Now), rest))
    case None =>
      var (n, rest) :- ReadParam(value);
      Some((Assignment(col, Param(n)), rest))
  }

  function ParseUpdate(s: string): Option<Update> {
    var afterUpdate :- Eat("UPDATE ", s);
    var (table, afterTable) :- ReadName(afterUpdate);
    var body :- Eat(" SET ", afterTable);
    var (sets, afterSets) :- ReadList(ParseAssignment, ", ", body);
    var condition :- Eat(" WHERE id = ", afterSets);
    var (key, rest) :- ReadParam(condition);
    if rest == "" then Some(Update(table, sets, key)) else None
  }

  lemma AssignmentReadsBack(a: Assignment, rest: string)
    requires IsName(a.col)
    requires NoDigitNext(rest)
    ensures ParseAssignment(Show(a) + rest) == Some((a, rest))
  {
    var value := match a.rhs case Now => "NOW()" case Param(n) => "$" + Decimal(n);
    assert Show(a) + rest == a.col + (" = " + (value + rest));
    NameReadsBack(a.col, " = " + (value + rest));
    EatLiteral(" = ", value + rest);
    match a.rhs {
      case Now => EatLiteral("NOW()", rest);
      case Param(n) =>
        assert (value + rest)[0] == '$';
        assert Eat("NOW()", value + rest) == None;
        ParamReadsBack(n, rest);
    }
  }

  // `clauses` is the text of the assignments `sets`, each to a plain column name.
  ghost predicate Spells(clauses: seq<string>, sets: seq<Assignment>) {
    && |clauses| == |sets|
    && forall i :: 0 <= i < |sets| ==> IsName(sets[i].col) && clauses[i] == Show(sets[i])
  }

  lemma AssignmentsReadBack(clauses: seq<string>, sets: seq<Assignment>, rest: string)
    requires Spells(clauses, sets) && |sets| > 0
    requires rest != "" && rest[0] == ' '
    ensures ReadList(ParseAssignment, ", ", Join(", ", clauses) + rest) == Some((sets, rest))
  {
    forall i | 0 <= i < |sets| ensures ReadsAs(ParseAssignment, clauses[i], sets[i], NoDigitNext) {
      forall u | NoDigitNext(u) ensures ParseAssignment(clauses[i] + u) == Some((sets[i], u)) {
        AssignmentReadsBack(sets[i], u);
      }
    }
    ListReadsBack(ParseAssignment, ", ", clauses, sets, NoDigitNext, rest);
  }

  lemma KeyReadsBack()
    ensures Eat(" WHERE id = ", " WHERE id = $1") == Some("$1") && ReadParam("$1") == Some((1, ""))
  {
    assert " WHERE id = $1" == " WHERE id = " + "$1";
    EatLiteral(" WHERE id = ", "$1");
    assert "$1" == "$" + Decimal(1) + "";
    ParamReadsBack(1, "");
  }

  lemma TableReadsBack(table: string, body: string)
    requires IsName(table)
    ensures var text := "UPDATE " + (table + (" SET " + body));
      && Eat("UPDATE ", text) == Some(table + (" SET " + body))
      && ReadName(table + (" SET " + body)) == Some((table, " SET " + body))
      && Eat(" SET ", " SET " + body) == Some(body)
  {
    EatLiteral("UPDATE ", table + (" SET " + body));
    NameReadsBack(table, " SET " + body);
    EatLiteral(" SET ", body);
  }

  // The emitted text parses back to exactly the assignments it was built from, keyed on $1.
  lemma UpdateReadsBack(table: string, clauses: seq<string>, sets: seq<Assignment>)
    requires IsName(table) && Spells(clauses, sets) && |sets| > 0
    ensures ParseUpdate(UpdateText(table, clauses)) == Some(Update(table, sets, 1))
  {
    var body := Join(", ", clauses) + " WHERE id = $1";
    TableReadsBack(table, body);
    AssignmentsReadBack(clauses, sets, " WHERE id = $1");
    KeyReadsBack();
  }

  // ----- Execution -----

  datatype Value = Text(s: string) | Int(i: int) | Flag(b: bool) | Instant(t: int) | Key(id: nat)

  type Row = map<string, Value>
  type Table = map<nat, Row>

  function ParamsOf(sets: seq<Assignment>): set<int> {
    if |sets| == 0 then {}
    else
      var last := sets[|sets| - 1];
      ParamsOf(sets[..|sets| - 1]) + (if last.rhs.Param? then {last.rhs.n} else {})
  }

  function ColumnsOf(sets: seq<Assignment>): set<string> {
    if |sets| == 0 then {} else ColumnsOf(sets[..|sets| - 1]) + {sets[|sets| - 1].col}
  }

  predicate DistinctColumns(sets: seq<Assignment>) {
    |sets| == 0
    || (sets[|sets| - 1].col !in ColumnsOf(sets[..|sets| - 1]) && DistinctColumns(sets[..|sets| - 1]))
  }

  ghost predicate AreFirst(params: set<int>, n: nat) {
    forall i :: i in params <==> 1 <= i <= n
  }

  predicate WithinArgs(params: set<int>, n: nat) {
    forall i :: i in params ==> 1 <= i <= n
  }

  function Eval(rhs: Rhs, args: seq<Value>, now: int): Value
    requires rhs.Param? ==> 1 <= rhs.n <= |args|
  {
    match rhs
    case Now => Instant(now)
    case Param(n) => args[n - 1]
  }

  // Column values after the assignments.
  function Effect(sets: seq<Assignment>, args: seq<Value>, now: int): Row
    requires WithinArgs(ParamsOf(sets), |args|)
  {
    if |sets| == 0 then map[]
    else
      var last := sets[|sets| - 1];
      Effect(sets[..|sets| - 1], args, now)[last.col := Eval(last.rhs, args, now)]
  }

  // The server refuses a statement whose placeholders are not exactly $1..$n for n arguments, and one that assigns
  // a column twice; otherwise the row with the key changes, if there is one.
  ghost function Exec(table: string, u: Update, args: seq<Value>, now: int, t: Table): Option<Table> {
    var params := ParamsOf(u.sets) + {u.key};
    if u.table != table || !AreFirst(params, |args|) || !DistinctColumns(u.sets) then None
    else
      assert u.key in params;
      match args[u.key - 1]
      case Key(id) => Some(if id in t then t[id := t[id] + Effect(u.sets, args, now)] else t)
      case _ => None
  }

  ghost function Run(table: string, text: string, args: seq<Value>, now: int, t: Table): Option<Table> {
    var u :- ParseUpdate(text);
    Exec(table, u, args, now, t)
  }

  // Row `id` takes the changes, everything else stays.
  function Patched(t: Table, id: nat, changes: Row): Table {
    if id in t then t[id := t[id] + changes] else t
  }

  // ----- Building a statement clause by clause -----

  // What a half-built statement stands for: clause texts for `sets`, arguments for exactly the placeholders used
  // so far (with $1 reserved for the key), and together the column changes `changes`.
  ghost predicate Built(clauses: seq<string>, args: seq<Value>, sets: seq<Assignment>, now: int, changes: Row) {
    && Spells(clauses, sets)
    && |sets| > 0
    && DistinctColumns(sets)
    && AreFirst(ParamsOf(sets) + {1}, |args|)
    && WithinArgs(ParamsOf(sets), |args|)
    && Effect(sets, args, now) == changes
    && changes.Keys == ColumnsOf(sets)
  }

  lemma {:induction false} EffectIgnoresLaterArgs(sets: seq<Assignment>, args: seq<Value>, v: Value, now: int)
    requires WithinArgs(ParamsOf(sets), |args|)
    ensures WithinArgs(ParamsOf(sets), |args| + 1) && Effect(sets, args + [v], now) == Effect(sets, args, now)
    decreases |sets|
  {
    if |sets| > 0 {
      EffectIgnoresLaterArgs(sets[..|sets| - 1], args, v, now);
    }
  }

  lemma AppendClause(clauses: seq<string>, args: seq<Value>, sets: seq<Assignment>, now: int, changes: Row,
                     col: string, v: Value)
    requires Built(clauses, args, sets, now, changes)
    requires IsName(col) && col !in changes
    ensures Built(clauses + [SetClause(col, |args| + 1)], args + [v],
                  sets + [Assignment(col, Param(|args| + 1))], now, changes[col := v])
  {
    var a := Assignment(col, Param(|args| + 1));
    OneMoreParam(sets, a, |args|);
    OneMoreEffect(sets, args, v, now, col);
    OneMoreColumn(clauses, sets, a);
    assert a.col == col;
  }

  // One more placeholder, the next number.
  lemma OneMoreParam(sets: seq<Assignment>, a: Assignment, n: nat)
    requires a.rhs == Param(n + 1) && AreFirst(ParamsOf(sets) + {1}, n) && WithinArgs(ParamsOf(sets), n)
    ensures AreFirst(ParamsOf(sets + [a]) + {1}, n + 1) && WithinArgs(ParamsOf(sets + [a]), n + 1)
  {
    assert ParamsOf(sets + [a]) + {1} == (ParamsOf(sets) + {1}) + {n + 1} by {
      assert (sets + [a])[|sets|] == a;
      assert forall i :: 0 <= i < |sets| ==> (sets + [a])[i] == sets[i];
    }
  }

  lemma OneMoreEffect(sets: seq<Assignment>, args: seq<Value>, v: Value, now: int, col: string)
    requires WithinArgs(ParamsOf(sets), |args|)
    requires WithinArgs(ParamsOf(sets + [Assignment(col, Param(|args| + 1))]), |args| + 1)
    ensures Effect(sets + [Assignment(col, Param(|args| + 1))], args + [v], now) == Effect(sets, args, now)[col := v]
  {
    var sets' := sets + [Assignment(col, Param(|args| + 1))];
    assert sets'[..|sets'| - 1] == sets;
    EffectIgnoresLaterArgs(sets, args, v, now);
  }

  lemma OneMoreColumn(clauses: seq<string>, sets: seq<Assignment>, a: Assignment)
    requires Spells(clauses, sets) && DistinctColumns(sets) && IsName(a.col) && a.col !in ColumnsOf(sets)
    ensures Spells(clauses + [Show(a)], sets + [a]) && DistinctColumns(sets + [a])
    ensures ColumnsOf(sets + [a]) == ColumnsOf(sets) + {a.col}
  {
    var sets' := sets + [a];
    assert sets'[|sets|] == a;
    assert forall i :: 0 <= i < |sets| ==> sets'[i] == sets[i];
  }

  lemma BuiltStatementRuns(table: string, clauses: seq<string>, args: seq<Value>, sets: seq<Assignment>, now: int,
                           changes: Row, id: nat, t: Table)
    requires IsName(table)
    requires Built(clauses, args, sets, now, changes)
    requires |args| > 0 && args[0] == Key(id)
    ensures Run(table, UpdateText(table, clauses), args, now, t) == Some(Patched(t, id, changes))
  {
    UpdateReadsBack(table, clauses, sets);
  }
}
