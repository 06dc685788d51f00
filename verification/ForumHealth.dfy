// Health reports: a failure counter that delists a forum at three failures and removes an unowned one at seven.
// Requests run one at a time; the lemmas speak of every run from an empty directory.
module ForumHealth {
  import opened Wrappers
  import T = ForumTable

  datatype Request =
    | Report(domain: string, healthy: bool)
    | Register(domain: string, id: nat, info: T.Info, owner: string)
    | Discover(domain: string, id: nat, info: T.Info)
    | Delete(domain: string, user: string)

  datatype Reply =
    | NotFound
    | Healthy
    | FailureRecorded(failures: nat)
    | Delisted(failures: nat)
    | AutoDeleted(failures: nat)
    | Other

  function MarkForumHealthy(t: T.Table, domain: string): (T.Table, nat) {
    var (u, affected) := T.MarkHealthy(t, domain);
    if affected > 0 then (T.Reapprove(u, domain), affected) else (u, affected)
  }

  function ReportFailure(t: T.Table, domain: string): (T.Table, Reply) {
    var (t1, row) := T.IncrementFailures(t, domain);
    if row == None then (t1, NotFound)
    else
      var failures := row.value.failures;
      var (t2, delisted) := if failures >= 3 then T.Delist(t1, domain) else (t1, 0);
      var (t3, removed) :=
        if failures >= 7 && row.value.owner == None then T.AutoDeleteUnowned(t2, domain) else (t2, 0);
      (t3, if removed > 0 then AutoDeleted(failures)
           else if delisted > 0 then Delisted(failures)
           else FailureRecorded(failures))
  }

  function Step(t: T.Table, r: Request): (T.Table, Reply) {
    match r
    case Report(domain, healthy) =>
      if healthy then
        var (u, affected) := MarkForumHealthy(t, domain);
        (u, if affected == 0 then NotFound else Healthy)
      else ReportFailure(t, domain)
    case Register(domain, id, info, owner) =>
      var u := T.Register(t, domain, id, info, owner);
      (if u.Some? then u.value else t, Other)
    case Discover(domain, id, info) => (T.Upsert(t, domain, id, info).0, Other)
    case Delete(domain, user) => (T.DeleteOwned(t, domain, user).0, Other)
  }

  // The handler as the program has it: statement after statement, reassigning the action it will reply with.
  class ForumHandler {
    var forums: T.Table

    constructor ()
      ensures forums == map[]
    {
      forums := map[];
    }

    method HandleUpdateHealth(domain: string, healthy: bool) returns (reply: Reply)
      modifies this
      ensures (forums, reply) == Step(old(forums), Report(domain, healthy))
    {
      var affected;
      if healthy {
        forums, affected := T.MarkHealthy(forums, domain).0, T.MarkHealthy(forums, domain).1;
        if affected > 0 {
          forums := T.Reapprove(forums, domain);
        }
        return if affected == 0 then NotFound else Healthy;
      }
      var incremented := T.IncrementFailures(forums, domain);
      forums := incremented.0;
      if incremented.1 == None {
        return NotFound;
      }
      var failures, owner := incremented.1.value.failures, incremented.1.value.owner;
      reply := FailureRecorded(failures);
      if failures >= 3 {
        forums, affected := T.Delist(forums, domain).0, T.Delist(forums, domain).1;
        if affected > 0 {
          reply := Delisted(failures);
        }
      }
      if failures >= 7 && owner == None {
        forums, affected := T.AutoDeleteUnowned(forums, domain).0, T.AutoDeleteUnowned(forums, domain).1;
        if affected > 0 {
          reply := AutoDeleted(failures);
        }
      }
    }

    // Owners delete their own forum only.
    method HandleDelete(domain: string, user: string) returns (deleted: bool)
      modifies this
      ensures forums == Step(old(forums), Delete(domain, user)).0
      ensures deleted <==> domain in old(forums) && old(forums)[domain].owner == Some(user)
    {
      if domain !in forums || forums[domain].owner != Some(user) {
        return false;
      }
      forums := T.DeleteOwned(forums, domain, user).0;
      deleted := true;
    }
  }

  // ----- Runs -----

  function Exec(run: seq<Request>): T.Table {
    if run == [] then map[] else Step(Exec(run[..|run| - 1]), run[|run| - 1]).0
  }

  // A run goes on by one request at a time, from an empty directory.
  lemma RunsGoOn(run: seq<Request>, r: Request)
    ensures Exec([]) == map[] && Exec(run + [r]) == Step(Exec(run), r).0
  {
    assert (run + [r])[..|run|] == run;
  }

  // Registration and discovery of a new domain create its row, with no failures and not listed; a deletion removes the
  // user's own.
  lemma OtherRequestsEffect(t: T.Table, r: Request)
    requires !r.Report?
    ensures var u := Step(t, r).0;
      match r
      case Register(domain, id, info, owner) =>
        u == if domain in t then t else t[domain := T.Forum(id, info, Some(owner), false, 0)]
      case Discover(domain, id, info) =>
        u == if domain !in t then t[domain := T.Forum(id, info, None, false, 0)]
             else if t[domain].approved then t
             else t[domain := t[domain].(info := info)]
      case Delete(domain, user) =>
        u == if domain in t && t[domain].owner == Some(user) then t - {domain} else t
  {
  }

  predicate ListedIsSound(f: T.Forum) {
    && (f.approved ==> f.owner.Some? && f.failures < 3)
    && (f.owner == None ==> f.failures < 7)
  }

  predicate Sound(t: T.Table) {
    forall d :: d in t ==> ListedIsSound(t[d])
  }

  // Everything but the reported forum stays, and the report does what the thresholds say.
  lemma ReportFailureEffect(t: T.Table, domain: string)
    requires Sound(t)
    ensures var (u, reply) := ReportFailure(t, domain);
      if domain !in t || t[domain].failures >= 0x7FFF_FFFF then u == t && reply == NotFound
      else
        var n := t[domain].failures + 1;
        if n >= 7 && t[domain].owner == None then u == t - {domain} && reply == AutoDeleted(n) && !t[domain].approved
        else
          && u == t[domain := t[domain].(failures := n, approved := t[domain].approved && n < 3)]
          && reply == (if t[domain].approved && n == 3 then Delisted(3) else FailureRecorded(n))
  {
    if domain in t {
      assert ListedIsSound(t[domain]);
      var t1 := T.IncrementFailures(t, domain).0;
      assert t1.Keys == t.Keys;
      if t[domain].failures < T.MAX_INT32 && t[domain].failures + 1 >= 7 && t[domain].owner == None {
        assert t1 - {domain} == t - {domain};
      }
    }
  }

  // A healthy report on a known forum sets its failures to zero and, if it has an owner, lists it again; everything
  // else stays. On an unknown one it changes nothing.
  lemma HealthyReportEffect(t: T.Table, domain: string)
    ensures var (u, reply) := Step(t, Report(domain, true));
      if domain !in t then u == t && reply == NotFound
      else
        && u == t[domain := t[domain].(failures := 0,
                                       approved := t[domain].approved || t[domain].owner.Some?)]
        && reply == Healthy
  {
  }

  lemma StepKeepsSound(t: T.Table, r: Request)
    requires Sound(t)
    ensures Sound(Step(t, r).0)
  {
    if r.Report? && !r.healthy {
      ReportFailureEffect(t, r.domain);
    }
  }

  // In every reachable directory an approved forum has an owner and fewer than three failures in a row, and a forum
  // without an owner fewer than seven.
  lemma {:induction false} DirectoryIsSound(run: seq<Request>)
    ensures Sound(Exec(run))
    ensures forall d :: d in Exec(run) ==>
      && (Exec(run)[d].approved ==> Exec(run)[d].owner.Some? && Exec(run)[d].failures < 3)
      && (Exec(run)[d].owner == None ==> Exec(run)[d].failures < 7)
    decreases |run|
  {
    if run != [] {
      DirectoryIsSound(run[..|run| - 1]);
      StepKeepsSound(Exec(run[..|run| - 1]), run[|run| - 1]);
    }
  }

  // Unhealthy reports about the domain since the last healthy one or since its row was created.
  function Streak(run: seq<Request>, domain: string): nat {
    if run == [] then 0
    else
      var n := |run| - 1;
      var earlier := Streak(run[..n], domain);
      match run[n]
      case Report(d, healthy) => if d != domain then earlier else if healthy then 0 else earlier + 1
      case Register(d, _, _, _) => if d == domain && d !in Exec(run[..n]) then 0 else earlier
      case Discover(d, _, _) => if d == domain && d !in Exec(run[..n]) then 0 else earlier
      case Delete(_, _) => earlier
  }

  // The counter column is that number, as far as 32 bits go.
  lemma {:induction false} FailuresCountTheStreak(run: seq<Request>, domain: string)
    requires domain in Exec(run)
    ensures Exec(run)[domain].failures
      == if Streak(run, domain) < 0x7FFF_FFFF then Streak(run, domain) else 0x7FFF_FFFF
    decreases |run|
  {
    var n := |run| - 1;
    var t := Exec(run[..n]);
    DirectoryIsSound(run[..n]);
    if run[n].Report? && !run[n].healthy {
      ReportFailureEffect(t, run[n].domain);
    }
    if domain in t {
      FailuresCountTheStreak(run[..n], domain);
    }
  }

  // ----- Delistings -----

  function DelistedReplies(run: seq<Request>): nat {
    if run == [] then 0
    else
      var n := |run| - 1;
      DelistedReplies(run[..n]) + (if Step(Exec(run[..n]), run[n]).1.Delisted? then 1 else 0)
  }

  // A health report took the forum off the list.
  predicate LeavesList(t: T.Table, r: Request) {
    var u := Step(t, r).0;
    r.Report? && r.domain in t && t[r.domain].approved && (r.domain !in u || !u[r.domain].approved)
  }

  function ListLeavings(run: seq<Request>): nat {
    if run == [] then 0
    else
      var n := |run| - 1;
      ListLeavings(run[..n]) + (if LeavesList(Exec(run[..n]), run[n]) then 1 else 0)
  }

  // Over every run, "delisted" is replied exactly as often as a report takes an approved forum off the list.
  lemma {:induction false} DelistedRepliesCountLeavings(run: seq<Request>)
    ensures DelistedReplies(run) == ListLeavings(run)
    decreases |run|
  {
    if run != [] {
      var n := |run| - 1;
      DelistedRepliesCountLeavings(run[..n]);
      DirectoryIsSound(run[..n]);
      ReportFailureEffect(Exec(run[..n]), run[n].domain);
    }
  }
}
