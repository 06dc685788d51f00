// The forum directory table, keyed by its unique domain, and the statements that read and change it.
module ForumTable {
  import opened Wrappers

  // Columns a manifest or a registration fills in.
  datatype Info = Info(name: string, iconURL: string, apiBase: string, webBase: string, capabilities: seq<string>,
                       tags: seq<string>)

  datatype Forum = Forum(id: nat, info: Info, owner: Option<string>, approved: bool, failures: nat)

  type Table = map<string, Forum>

  // consecutive_failures is a 32-bit column.
  const MAX_INT32: nat := 0x7FFF_FFFF

  // The zero id stands for "no forum".
  const NO_FORUM: nat := 0

  function GetForumIDByDomain(t: Table, domain: string): nat {
    if domain in t then t[domain].id else NO_FORUM
  }

  function OwnedBy(t: Table, owner: string): set<string> {
    set d | d in t && t[d].owner == Some(owner)
  }

  // Fails on the unique domain.
  function Register(t: Table, domain: string, id: nat, info: Info, owner: string): Option<Table> {
    if domain in t then None else Some(t[domain := Forum(id, info, Some(owner), false, 0)])
  }

  // Inserts, or refreshes a row that is not approved; no id comes back when an approved row is in the way.
  function Upsert(t: Table, domain: string, id: nat, info: Info): (Table, Option<nat>) {
    if domain !in t then (t[domain := Forum(id, info, None, false, 0)], Some(id))
    else if t[domain].approved then (t, None)
    else (t[domain := t[domain].(info := info)], Some(t[domain].id))
  }

  function MarkHealthy(t: Table, domain: string): (Table, nat) {
    if domain in t then (t[domain := t[domain].(failures := 0)], 1) else (t, 0)
  }

  function Reapprove(t: Table, domain: string): Table {
    if domain in t && !t[domain].approved && t[domain].failures == 0 && t[domain].owner.Some? then
      t[domain := t[domain].(approved := true)]
    else t
  }

  // No row, or a counter that would overflow, is an error.
  function IncrementFailures(t: Table, domain: string): (Table, Option<Forum>) {
    if domain in t && t[domain].failures < MAX_INT32 then
      var f := t[domain].(failures := t[domain].failures + 1);
      (t[domain := f], Some(f))
    else (t, None)
  }

  function Delist(t: Table, domain: string): (Table, nat) {
    if domain in t && t[domain].approved then (t[domain := t[domain].(approved := false)], 1) else (t, 0)
  }

  function AutoDeleteUnowned(t: Table, domain: string): (Table, nat) {
    if domain in t && t[domain].owner == None then (t - {domain}, 1) else (t, 0)
  }

  function DeleteOwned(t: Table, domain: string, owner: string): (Table, nat) {
    if domain in t && t[domain].owner == Some(owner) then (t - {domain}, 1) else (t, 0)
  }

  // Discovery never changes who owns a forum, whether it is approved or how often it failed, and leaves an approved
  // forum alone entirely.
  lemma UpsertRespectsExistingRows(t: Table, domain: string, id: nat, info: Info)
    ensures var u := Upsert(t, domain, id, info).0;
      && t.Keys <= u.Keys <= t.Keys + {domain}
      && forall d :: d in t ==>
           && u[d].id == t[d].id && u[d].owner == t[d].owner
           && u[d].approved == t[d].approved && u[d].failures == t[d].failures
           && (t[d].approved || d != domain ==> u[d] == t[d])
  {
  }

  // The tables differ at most in the row of the domain.
  ghost predicate OnlyThere(t: Table, u: Table, domain: string) {
    forall d :: d != domain ==> (d in t <==> d in u) && (d in t ==> u[d] == t[d])
  }

  // Each statement on a row changes just the columns it names, in just the rows its condition selects, and counts the
  // rows it changed.
  lemma RowStatementsExactly(t: Table, domain: string)
    ensures var (u, n) := MarkHealthy(t, domain);
      && OnlyThere(t, u, domain) && (domain in u <==> domain in t) && n == (if domain in t then 1 else 0)
      && (domain in t ==> u[domain] == t[domain].(failures := 0))
    ensures var u := Reapprove(t, domain);
      && OnlyThere(t, u, domain) && (domain in u <==> domain in t)
      && (domain in t ==>
            var listed := t[domain].approved || (t[domain].failures == 0 && t[domain].owner.Some?);
            u[domain] == t[domain].(approved := listed))
    ensures var (u, n) := Delist(t, domain);
      && OnlyThere(t, u, domain) && (domain in u <==> domain in t)
      && (domain in t ==> u[domain] == t[domain].(approved := false))
      && n == (if domain in t && t[domain].approved then 1 else 0)
    ensures var (u, row) := IncrementFailures(t, domain);
      && OnlyThere(t, u, domain) && (domain in u <==> domain in t)
      && (row.Some? <==> domain in t && t[domain].failures < 0x7FFF_FFFF)
      && (domain in t ==> u[domain] == if row.Some? then row.value else t[domain])
      && (row.Some? ==> row.value == t[domain].(failures := t[domain].failures + 1))
  {
  }

  lemma DeleteStatementsExactly(t: Table, domain: string, user: string)
    ensures var (u, n) := AutoDeleteUnowned(t, domain);
      && OnlyThere(t, u, domain) && n == |t| - |u|
      && (domain in u <==> domain in t && t[domain].owner.Some?) && (domain in u ==> u[domain] == t[domain])
    ensures var (u, n) := DeleteOwned(t, domain, user);
      && OnlyThere(t, u, domain) && n == |t| - |u|
      && (domain in u <==> domain in t && t[domain].owner != Some(user)) && (domain in u ==> u[domain] == t[domain])
  {
    if domain in t {
      assert t.Keys == (t - {domain}).Keys + {domain};
    }
  }

  lemma InsertStatementsExactly(t: Table, domain: string, id: nat, info: Info, owner: string)
    ensures var u := Register(t, domain, id, info, owner);
      && (u.Some? <==> domain !in t)
      && (u.Some? ==> OnlyThere(t, u.value, domain) && domain in u.value
                      && u.value[domain] == Forum(id, info, Some(owner), false, 0))
    ensures var (u, found) := Upsert(t, domain, id, info);
      && OnlyThere(t, u, domain) && domain in u
      && (domain !in t ==> u[domain] == Forum(id, info, None, false, 0) && found == Some(id))
      && (domain in t && t[domain].approved ==> u[domain] == t[domain] && found == None)
      && (domain in t && !t[domain].approved ==> u[domain] == t[domain].(info := info) && found == Some(t[domain].id))
  {
  }
}
