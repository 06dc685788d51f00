// Profiles cached for a limited time, shared by lookups that run at once.
module ProfileCache {
  import opened Basics
  import opened Wrappers

  type Profile = string

  const PREFIX := "fl:"

  // ----- Cache keys -----

  method Key(parts: seq<string>) returns (key: string)
    ensures key == PREFIX + Join(":", parts)
  {
    key := PREFIX;
    assert parts[..0] == [];
    for i := 0 to |parts|
      invariant key == PREFIX + Join(":", parts[..i])
    {
      assert parts[..i + 1][..i] == parts[..i];
      if i > 0 {
        key := key + ":";
      }
      key := key + parts[i];
    }
    assert parts[..|parts|] == parts;
  }

  function ProfileKey(schema: string, id: string): string {
    PREFIX + Join(":", ["profile", schema, id])
  }

  lemma ProfileKeyIs(schema: string, id: string)
    ensures ProfileKey(schema, id) == "fl:profile:" + schema + ":" + id
  {
    var parts := ["profile", schema, id];
    assert parts[..2] == ["profile", schema] && parts[..2][..1] == ["profile"];
    assert Join(":", parts[..2]) == "profile" + ":" + schema;
    assert Join(":", parts) == "profile" + ":" + schema + ":" + id;
    assert "fl:" + ("profile" + ":" + schema + ":" + id) == "fl:profile:" + schema + ":" + id;
  }

  // The last colon of a string.
  lemma SplitAtLastColon(a: string, b: string, c: string, d: string)
    requires ':' !in b && ':' !in d
    requires a + ":" + b == c + ":" + d
    ensures a == c && b == d
  {
    var s := a + ":" + b;
    assert s[|a|] == ':' && s[|c|] == ':';
    assert forall i :: |a| < i < |s| ==> s[i] == b[i - |a| - 1];
    assert forall i :: |c| < i < |s| ==> s[i] == d[i - |c| - 1];
    assert |a| == |c|;
    assert a == s[..|a|] == c;
    assert b == s[|a| + 1..] == d;
  }

  predicate IsID(id: string) {
    ':' !in id
  }

  // With ids free of colons, as UUIDs are, different profiles have different keys whatever the schemas.
  lemma KeysTellProfilesApart(schema: string, id: string, schema2: string, id2: string)
    requires IsID(id) && IsID(id2)
    ensures ProfileKey(schema, id) == ProfileKey(schema2, id2) <==> schema == schema2 && id == id2
  {
    ProfileKeyIs(schema, id);
    ProfileKeyIs(schema2, id2);
    if ProfileKey(schema, id) == ProfileKey(schema2, id2) {
      SameTail(schema, id, schema2, id2);
      SplitAtLastColon(schema, id, schema2, id2);
    }
  }

  lemma SameTail(schema: string, id: string, schema2: string, id2: string)
    ensures "fl:profile:" + schema + ":" + id == "fl:profile:" + schema2 + ":" + id2
      <==> schema + ":" + id == schema2 + ":" + id2
  {
    var head := "fl:profile:";
    assert head + schema + ":" + id == head + (schema + ":" + id);
    assert head + schema2 + ":" + id2 == head + (schema2 + ":" + id2);
    assert (head + (schema + ":" + id))[|head|..] == schema + ":" + id;
    assert (head + (schema2 + ":" + id2))[|head|..] == schema2 + ":" + id2;
  }

  // A key belongs to one profile only.
  ghost predicate KeyIsUnique(schema: string, id: string) {
    forall schema2, id2 :: ProfileKey(schema2, id2) == ProfileKey(schema, id) ==> schema2 == schema && id2 == id
  }

  lemma ColonsInSchema(schema: string, id: string, k: nat)
    requires k < |schema| && schema[k] == ':'
    ensures !KeyIsUnique(schema, id)
  {
    var schema2, id2 := schema[..k], schema[k + 1..] + ":" + id;
    ProfileKeyIs(schema, id);
    ProfileKeyIs(schema2, id2);
    assert schema == schema2 + ":" + schema[k + 1..];
    assert schema2 + ":" + id2 == schema + ":" + id;
    SameTail(schema, id, schema2, id2);
    assert |schema2| < |schema|;
  }

  lemma ColonsInID(schema: string, id: string, k: nat)
    requires k < |id| && id[k] == ':'
    ensures !KeyIsUnique(schema, id)
  {
    var schema2, id2 := schema + ":" + id[..k], id[k + 1..];
    ProfileKeyIs(schema, id);
    ProfileKeyIs(schema2, id2);
    assert id == id[..k] + ":" + id2;
    assert schema2 + ":" + id2 == schema + ":" + id;
    SameTail(schema, id, schema2, id2);
    assert |id2| < |id|;
  }

  lemma OneColon(schema: string, id: string, schema2: string, id2: string)
    requires ':' !in schema && ':' !in id && schema + ":" + id == schema2 + ":" + id2
    ensures schema2 == schema && id2 == id
  {
    var s := schema + ":" + id;
    assert s[|schema2|] == ':';
    assert forall i :: 0 <= i < |schema| ==> s[i] == schema[i];
    assert forall i :: |schema| < i < |s| ==> s[i] == id[i - |schema| - 1];
    assert |schema2| == |schema|;
    assert schema2 == s[..|schema|] == schema;
    assert id2 == s[|schema| + 1..] == id;
  }

  // A profile has a key of its own, among all schemas and ids there could be, if and only if neither its schema nor
  // its id contains a colon.
  lemma UniqueKeysExactly(schema: string, id: string)
    ensures ':' !in schema && ':' !in id <==>
      forall schema2, id2 :: ProfileKey(schema2, id2) == ProfileKey(schema, id) ==> schema2 == schema && id2 == id
  {
    if ':' in schema {
      var k :| 0 <= k < |schema| && schema[k] == ':';
      ColonsInSchema(schema, id, k);
    } else if ':' in id {
      var k :| 0 <= k < |id| && id[k] == ':';
      ColonsInID(schema, id, k);
    } else {
      forall schema2, id2 | ProfileKey(schema2, id2) == ProfileKey(schema, id) ensures schema2 == schema && id2 == id {
        ProfileKeyIs(schema, id);
        ProfileKeyIs(schema2, id2);
        SameTail(schema, id, schema2, id2);
        OneColon(schema, id, schema2, id2);
      }
    }
  }

  // ----- Lookups -----

  datatype Entry = Entry(profile: Profile, expires: int)

  datatype Fetched = Fetched(key: string, profile: Profile)

  type Rows = map<(string, string), Profile>

  // What was fetched is kept under the number of the step that fetched it.
  datatype State = State(db: Rows, entries: map<string, Entry>, fetched: map<nat, Fetched>)

  // A lookup first looks in the cache; if that yields nothing, because the entry is missing or has expired or the cache
  // does not answer, it fetches the row and then keeps in the cache what it fetched. Other lookups and changes of the
  // profile may come in between.
  datatype Op =
    | Change(schema: string, id: string, profile: Profile, now: int)
    | Look(schema: string, id: string, now: int)
    | Fetch(schema: string, id: string, now: int)
    | Keep(fetch: nat, now: int)

  function Found(entries: map<string, Entry>, key: string, now: int): Option<Profile> {
    if key in entries && now < entries[key].expires then Some(entries[key].profile) else None
  }

  // `at` is the number of the step.
  function Do(ttl: nat, s: State, op: Op, at: nat): State {
    match op
    case Change(schema, id, profile, _) => s.(db := s.db[(schema, id) := profile])
    case Look(_, _, _) => s
    case Fetch(schema, id, _) =>
      if (schema, id) !in s.db then s
      else s.(fetched := s.fetched[at := Fetched(ProfileKey(schema, id), s.db[(schema, id)])])
    case Keep(fetch, now) =>
      if fetch !in s.fetched then s
      else
        var f := s.fetched[fetch];
        s.(entries := s.entries[f.key := Entry(f.profile, now + ttl)])
  }

  function After(ttl: nat, ops: seq<Op>): State {
    if ops == [] then State(map[], map[], map[])
    else Do(ttl, After(ttl, ops[..|ops| - 1]), ops[|ops| - 1], |ops| - 1)
  }

  // The program: one lookup from beginning to end, with what the cache and the database answer it. Without a cache
  // neither reading nor writing works.
  class Cache {
    const ttl: nat
    var entries: map<string, Entry>

    constructor (ttl: nat)
      ensures this.ttl == ttl && entries == map[]
    {
      this.ttl := ttl;
      entries := map[];
    }

    method Get(db: Rows, schema: string, id: string, readWorks: bool, writeWorks: bool, now: int, later: int)
      returns (p: Option<Profile>)
      modifies this
      ensures var key, before := ProfileKey(schema, id), old(entries);
        if readWorks && key in before && now < before[key].expires then
          p == Some(before[key].profile) && entries == before
        else if (schema, id) in db then
          && p == Some(db[(schema, id)])
          && entries == if writeWorks then before[key := Entry(db[(schema, id)], later + ttl)] else before
        else
          p == None && entries == before
    {
      if readWorks {
        var key := Key(["profile", schema, id]);
        var found := Found(entries, key, now);
        if found.Some? {
          return found;
        }
      }
      if (schema, id) !in db {
        return None;
      }
      p := Some(db[(schema, id)]);
      if writeWorks {
        var key := Key(["profile", schema, id]);
        entries := entries[key := Entry(p.value, later + ttl)];
      }
    }
  }

  // ----- What is in the cache, in terms of the run alone -----

  // The last change of the profile before step `n`.
  ghost predicate LastChange(ops: seq<Op>, n: nat, schema: string, id: string, c: nat) {
    && c < n <= |ops| && Changes(ops[c], schema, id)
    && forall i :: c < i < n ==> !Changes(ops[i], schema, id)
  }

  predicate Changes(op: Op, schema: string, id: string) {
    op.Change? && op.schema == schema && op.id == id
  }

  lemma LastChangeStep(ops: seq<Op>, op: Op, schema: string, id: string, c: nat)
    ensures LastChange(ops + [op], |ops| + 1, schema, id, c)
      <==> if Changes(op, schema, id) then c == |ops| else LastChange(ops, |ops|, schema, id, c)
  {
    var more := ops + [op];
    assert more[|ops|] == op && forall i :: 0 <= i < |ops| ==> more[i] == ops[i];
  }

  // A row of the database is what the last change made it.
  lemma {:induction false} RowsExactly(ttl: nat, ops: seq<Op>, schema: string, id: string, p: Profile)
    ensures (schema, id) in After(ttl, ops).db && After(ttl, ops).db[(schema, id)] == p
      <==> exists c: nat :: LastChange(ops, |ops|, schema, id, c) && ops[c].profile == p
    decreases |ops|
  {
    if ops != [] {
      var n := |ops| - 1;
      var init, op := ops[..n], ops[n];
      assert ops == init + [op];
      RowsExactly(ttl, init, schema, id, p);
      forall c: nat
        ensures LastChange(ops, |ops|, schema, id, c)
          <==> if Changes(op, schema, id) then c == n else LastChange(init, n, schema, id, c)
      {
        LastChangeStep(init, op, schema, id, c);
      }
    }
  }

  // Step `f` fetched the profile as the change `c` had made it.
  ghost predicate Fetches(ops: seq<Op>, f: nat, schema: string, id: string, c: nat) {
    f < |ops| && ops[f].Fetch? && ops[f].schema == schema && ops[f].id == id && LastChange(ops, f, schema, id, c)
  }

  lemma LastChangeBefore(ops: seq<Op>, n: nat, schema: string, id: string, c: nat)
    requires n <= |ops|
    ensures LastChange(ops[..n], n, schema, id, c) <==> LastChange(ops, n, schema, id, c)
  {
  }

  lemma FetchStep(ttl: nat, ops: seq<Op>, f: nat, schema: string, id: string)
    requires f < |ops| && ops[f] == Fetch(schema, id, ops[f].now)
    ensures (schema, id) in After(ttl, ops[..f]).db <==> exists c: nat :: Fetches(ops, f, schema, id, c)
    ensures forall c: nat :: Fetches(ops, f, schema, id, c) ==>
      (schema, id) in After(ttl, ops[..f]).db && After(ttl, ops[..f]).db[(schema, id)] == ops[c].profile
  {
    var db := After(ttl, ops[..f]).db;
    if (schema, id) in db {
      RowsExactly(ttl, ops[..f], schema, id, db[(schema, id)]);
      var c: nat :| LastChange(ops[..f], f, schema, id, c) && ops[..f][c].profile == db[(schema, id)];
      LastChangeBefore(ops, f, schema, id, c);
      assert Fetches(ops, f, schema, id, c);
    }
    forall c: nat | Fetches(ops, f, schema, id, c)
      ensures (schema, id) in db && db[(schema, id)] == ops[c].profile
    {
      LastChangeBefore(ops, f, schema, id, c);
      RowsExactly(ttl, ops[..f], schema, id, ops[c].profile);
      assert LastChange(ops[..f], f, schema, id, c) && ops[..f][c].profile == ops[c].profile;
    }
  }

  lemma {:induction false} FetchedExactly(ttl: nat, ops: seq<Op>, f: nat)
    ensures f in After(ttl, ops).fetched <==>
      f < |ops| && ops[f].Fetch? && (ops[f].schema, ops[f].id) in After(ttl, ops[..f]).db
    ensures f in After(ttl, ops).fetched ==>
      After(ttl, ops).fetched[f]
      == Fetched(ProfileKey(ops[f].schema, ops[f].id), After(ttl, ops[..f]).db[(ops[f].schema, ops[f].id)])
    decreases |ops|
  {
    if ops != [] {
      var n := |ops| - 1;
      FetchedExactly(ttl, ops[..n], f);
      if f < n {
        assert ops[..n][..f] == ops[..f];
      }
    }
  }

  // Step `k` puts into the cache the profile as the change `c` had made it when it was fetched.
  ghost predicate Keeps(ops: seq<Op>, k: nat, schema: string, id: string, c: nat) {
    k < |ops| && ops[k].Keep? && ops[k].fetch < k && Fetches(ops, ops[k].fetch, schema, id, c)
  }

  // It is the last to put that profile there.
  ghost predicate LastKeep(ops: seq<Op>, n: nat, schema: string, id: string, k: nat, c: nat) {
    && k < n <= |ops| && Keeps(ops, k, schema, id, c)
    && forall i: nat, d: nat :: k < i < n ==> !Keeps(ops, i, schema, id, d)
  }

  ghost predicate Entered(ttl: nat, ops: seq<Op>, schema: string, id: string, e: Entry) {
    exists k: nat, c: nat ::
      LastKeep(ops, |ops|, schema, id, k, c) && e.profile == ops[c].profile && e.expires == ops[k].now + ttl
  }

  lemma FetchesBefore(ops: seq<Op>, op: Op, f: nat, schema: string, id: string, c: nat)
    requires f < |ops|
    ensures Fetches(ops + [op], f, schema, id, c) <==> Fetches(ops, f, schema, id, c)
  {
    var more := ops + [op];
    assert forall i :: 0 <= i < |ops| ==> more[i] == ops[i];
  }

  lemma KeepsBefore(ops: seq<Op>, op: Op, k: nat, schema: string, id: string, c: nat)
    requires k < |ops|
    ensures Keeps(ops + [op], k, schema, id, c) <==> Keeps(ops, k, schema, id, c)
  {
    assert (ops + [op])[k] == ops[k];
    if ops[k].Keep? && ops[k].fetch < k {
      FetchesBefore(ops, op, ops[k].fetch, schema, id, c);
    }
  }

  lemma LastKeepStep(ops: seq<Op>, op: Op, schema: string, id: string, k: nat, c: nat)
    ensures var more, n := ops + [op], |ops|;
      LastKeep(more, n + 1, schema, id, k, c)
      <==> if exists d: nat :: Keeps(more, n, schema, id, d) then k == n && Keeps(more, n, schema, id, c)
           else LastKeep(ops, n, schema, id, k, c)
  {
    var more, n := ops + [op], |ops|;
    forall i: nat, d: nat | i < n ensures Keeps(more, i, schema, id, d) <==> Keeps(ops, i, schema, id, d) {
      KeepsBefore(ops, op, i, schema, id, d);
    }
    if LastKeep(more, n + 1, schema, id, k, c) && k < n {
      assert forall d: nat :: !Keeps(more, n, schema, id, d);
    }
  }

  // What the last step puts into the cache for a profile.
  lemma KeepStep(ttl: nat, ops: seq<Op>, schema: string, id: string)
    requires ops != [] && AllIDs(ops) && IsID(id)
    ensures var n, key := |ops| - 1, ProfileKey(schema, id);
      var s, t := After(ttl, ops[..n]), After(ttl, ops);
      if exists c: nat :: Keeps(ops, n, schema, id, c) then
        && key in t.entries
        && forall c: nat :: Keeps(ops, n, schema, id, c) ==> t.entries[key] == Entry(ops[c].profile, ops[n].now + ttl)
      else
        (key in t.entries <==> key in s.entries) && (key in s.entries ==> t.entries[key] == s.entries[key])
  {
    var n := |ops| - 1;
    var op := ops[n];
    if op.Keep? {
      var f := op.fetch;
      FetchedExactly(ttl, ops[..n], f);
      if f < n && ops[f].Fetch? {
        assert ops[..n][..f] == ops[..f];
        FetchStep(ttl, ops, f, ops[f].schema, ops[f].id);
        KeysTellProfilesApart(ops[f].schema, ops[f].id, schema, id);
        if (ops[f].schema, ops[f].id) in After(ttl, ops[..f]).db {
          var c: nat :| Fetches(ops, f, ops[f].schema, ops[f].id, c);
          assert Keeps(ops, n, ops[f].schema, ops[f].id, c);
        }
      }
    }
  }

  // The entry of a profile is exactly what the last step that kept it put there.
  lemma {:induction false} EntriesExactly(ttl: nat, ops: seq<Op>, schema: string, id: string, e: Entry)
    requires AllIDs(ops) && IsID(id)
    ensures ProfileKey(schema, id) in After(ttl, ops).entries && After(ttl, ops).entries[ProfileKey(schema, id)] == e
      <==> Entered(ttl, ops, schema, id, e)
    decreases |ops|
  {
    if ops != [] {
      var n := |ops| - 1;
      var init, op := ops[..n], ops[n];
      assert ops == init + [op];
      EntriesExactly(ttl, init, schema, id, e);
      KeepStep(ttl, ops, schema, id);
      EnteredStep(ttl, init, op, schema, id, e);
    }
  }

  lemma EnteredLast(ttl: nat, ops: seq<Op>, op: Op, schema: string, id: string, e: Entry)
    requires exists d: nat :: Keeps(ops + [op], |ops|, schema, id, d)
    ensures var more, n := ops + [op], |ops|;
      Entered(ttl, more, schema, id, e)
      <==> exists c: nat :: Keeps(more, n, schema, id, c) && e == Entry(more[c].profile, op.now + ttl)
  {
    var more, n := ops + [op], |ops|;
    forall k: nat, c: nat | LastKeep(more, |more|, schema, id, k, c)
      ensures k == n && Keeps(more, n, schema, id, c)
    {
      LastKeepStep(ops, op, schema, id, k, c);
    }
    if c: nat :| Keeps(more, n, schema, id, c) && e == Entry(more[c].profile, op.now + ttl) {
      assert LastKeep(more, |more|, schema, id, n, c);
    }
  }

  lemma EnteredBefore(ttl: nat, ops: seq<Op>, op: Op, schema: string, id: string, e: Entry)
    requires forall d: nat :: !Keeps(ops + [op], |ops|, schema, id, d)
    ensures Entered(ttl, ops + [op], schema, id, e) <==> Entered(ttl, ops, schema, id, e)
  {
    var more, n := ops + [op], |ops|;
    assert forall i :: 0 <= i < n ==> more[i] == ops[i];
    forall k: nat, c: nat
      ensures LastKeep(more, |more|, schema, id, k, c) <==> LastKeep(ops, n, schema, id, k, c)
    {
      LastKeepStep(ops, op, schema, id, k, c);
    }
  }

  lemma EnteredStep(ttl: nat, ops: seq<Op>, op: Op, schema: string, id: string, e: Entry)
    ensures var more, n := ops + [op], |ops|;
      Entered(ttl, more, schema, id, e)
      <==> if exists d: nat :: Keeps(more, n, schema, id, d) then
             exists c: nat :: Keeps(more, n, schema, id, c) && e == Entry(more[c].profile, op.now + ttl)
           else Entered(ttl, ops, schema, id, e)
  {
    if exists d: nat :: Keeps(ops + [op], |ops|, schema, id, d) {
      EnteredLast(ttl, ops, op, schema, id, e);
    } else {
      EnteredBefore(ttl, ops, op, schema, id, e);
    }
  }

  ghost predicate AllIDs(ops: seq<Op>) {
    forall i :: 0 <= i < |ops| && (ops[i].Change? || ops[i].Look? || ops[i].Fetch?) ==> IsID(ops[i].id)
  }

  // ----- What a lookup finds, and how old it can be -----

  // However lookups and changes interleave: a look at step `n` finds `p` if and only if some step kept the profile
  // asked for, none kept it since, less than the time to live has passed, and `p` is what it was in the database when
  // the step that fetched it ran.
  lemma FoundExactly(ttl: nat, ops: seq<Op>, n: nat, p: Profile)
    requires n < |ops| && ops[n].Look? && AllIDs(ops)
    ensures Found(After(ttl, ops[..n]).entries, ProfileKey(ops[n].schema, ops[n].id), ops[n].now) == Some(p)
      <==> exists k: nat, c: nat ::
             LastKeep(ops[..n], n, ops[n].schema, ops[n].id, k, c)
             && ops[c].profile == p && ops[n].now < ops[k].now + ttl
  {
    var schema, id, now, entries := ops[n].schema, ops[n].id, ops[n].now, After(ttl, ops[..n]).entries;
    var key := ProfileKey(schema, id);
    if key in entries {
      EntriesExactly(ttl, ops[..n], schema, id, entries[key]);
    }
    if k: nat, c: nat :| LastKeep(ops[..n], n, schema, id, k, c) && ops[c].profile == p && now < ops[k].now + ttl {
      var e := Entry(p, ops[k].now + ttl);
      assert Entered(ttl, ops[..n], schema, id, e);
      EntriesExactly(ttl, ops[..n], schema, id, e);
    }
  }

  ghost predicate ClockNeverGoesBack(ops: seq<Op>) {
    forall i, j :: 0 <= i < j < |ops| ==> ops[i].now <= ops[j].now
  }

  // So what is found was in the database, by the change `change`, at the step `fetch`; and that was less than the time
  // to live ago, plus the time the fetching lookup took to put it into the cache at step `keep`.
  lemma FoundProfileIsRecent(ttl: nat, ops: seq<Op>, n: nat, p: Profile)
    returns (change: nat, fetch: nat, keep: nat)
    requires n < |ops| && ops[n].Look? && AllIDs(ops) && ClockNeverGoesBack(ops)
    requires Found(After(ttl, ops[..n]).entries, ProfileKey(ops[n].schema, ops[n].id), ops[n].now) == Some(p)
    ensures change < fetch < keep < n && ops[fetch].Fetch? && ops[keep] == Keep(fetch, ops[keep].now)
    ensures ops[fetch].schema == ops[n].schema && ops[fetch].id == ops[n].id
    ensures LastChange(ops, fetch, ops[n].schema, ops[n].id, change) && ops[change].profile == p
    ensures ops[n].now - ops[fetch].now < ttl + (ops[keep].now - ops[fetch].now)
    ensures ops[fetch].now <= ops[keep].now <= ops[n].now
  {
    FoundExactly(ttl, ops, n, p);
    keep, change :| LastKeep(ops[..n], n, ops[n].schema, ops[n].id, keep, change)
                    && ops[change].profile == p && ops[n].now < ops[keep].now + ttl;
    fetch := ops[keep].fetch;
    LastChangeInPrefix(ops, n, fetch, ops[n].schema, ops[n].id, change);
  }

  lemma LastChangeInPrefix(ops: seq<Op>, n: nat, f: nat, schema: string, id: string, c: nat)
    requires f <= n <= |ops|
    ensures LastChange(ops[..n], f, schema, id, c) <==> LastChange(ops, f, schema, id, c)
  {
  }
}
