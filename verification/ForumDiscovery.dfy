// Discovery of a forum by its domain while other requests run between its statements.
module ForumDiscovery {
  import opened Wrappers
  import T = ForumTable

  // Where a discovery stands: it has returned the forum of its first lookup, or goes on to fetch the manifest, to
  // upsert, and if the upsert gave no id to look again.
  datatype Stage =
    | Looking
    | Fetching
    | Upserting(info: T.Info)
    | LookingAgain
    | Resolved(id: nat)
    | NoManifest
    | FailedToResolve

  datatype Discovery = Discovery(domain: string, stage: Stage)

  datatype State = State(forums: T.Table, discoveries: seq<Discovery>)

  // One statement of some discovery, or one statement of another request. `newId` is the id the database generates.
  datatype Step =
    | Begin(domain: string)
    | Look(k: nat)
    | Fetch(k: nat, manifest: Option<T.Info>)
    | UpsertForum(k: nat, newId: nat)
    | LookAgain(k: nat)
    | RegisterForum(domain: string, newId: nat, info: T.Info, owner: string)
    | MarkHealthy(domain: string)
    | Reapprove(domain: string)
    | IncrementFailures(domain: string)
    | Delist(domain: string)
    | Delete(domain: string, owner: string)
    | AutoDelete(domain: string)

  predicate At(s: State, k: nat, stage: Stage) {
    k < |s.discoveries| && s.discoveries[k].stage == stage
  }

  // Generated ids are new and not the zero id.
  predicate FreshId(t: T.Table, id: nat) {
    id != T.NO_FORUM && forall d :: d in t ==> t[d].id != id
  }

  predicate Enabled(s: State, step: Step) {
    match step
    case Look(k) => At(s, k, Looking)
    case Fetch(k, _) => At(s, k, Fetching)
    case UpsertForum(k, newId) =>
      k < |s.discoveries| && s.discoveries[k].stage.Upserting? && FreshId(s.forums, newId)
    case LookAgain(k) => At(s, k, LookingAgain)
    case RegisterForum(_, newId, _, _) => FreshId(s.forums, newId)
    case _ => true
  }

  function Goto(s: State, k: nat, stage: Stage): State
    requires k < |s.discoveries|
  {
    s.(discoveries := s.discoveries[k := s.discoveries[k].(stage := stage)])
  }

  function Do(s: State, step: Step): State
    requires Enabled(s, step)
  {
    match step
    case Begin(domain) => s.(discoveries := s.discoveries + [Discovery(domain, Looking)])
    case Look(k) =>
      var id := T.GetForumIDByDomain(s.forums, s.discoveries[k].domain);
      Goto(s, k, if id != T.NO_FORUM then Resolved(id) else Fetching)
    case Fetch(k, manifest) => Goto(s, k, if manifest.Some? then Upserting(manifest.value) else NoManifest)
    case UpsertForum(k, newId) =>
      var d := s.discoveries[k];
      var (forums, id) := T.Upsert(s.forums, d.domain, newId, d.stage.info);
      Goto(s.(forums := forums), k, if id.Some? then Resolved(id.value) else LookingAgain)
    case LookAgain(k) =>
      var id := T.GetForumIDByDomain(s.forums, s.discoveries[k].domain);
      Goto(s, k, if id != T.NO_FORUM then Resolved(id) else FailedToResolve)
    case RegisterForum(domain, newId, info, owner) =>
      var t := T.Register(s.forums, domain, newId, info, owner);
      s.(forums := if t.Some? then t.value else s.forums)
    case MarkHealthy(domain) => s.(forums := T.MarkHealthy(s.forums, domain).0)
    case Reapprove(domain) => s.(forums := T.Reapprove(s.forums, domain))
    case IncrementFailures(domain) => s.(forums := T.IncrementFailures(s.forums, domain).0)
    case Delist(domain) => s.(forums := T.Delist(s.forums, domain).0)
    case Delete(domain, owner) => s.(forums := T.DeleteOwned(s.forums, domain, owner).0)
    case AutoDelete(domain) => s.(forums := T.AutoDeleteUnowned(s.forums, domain).0)
  }

  // The request as the program has it, with nothing running between its statements.
  class ForumService {
    var forums: T.Table

    constructor ()
      ensures forums == map[]
    {
      forums := map[];
    }

    // A known domain answers with its forum, whatever the manifest says; otherwise a good manifest creates the
    // forum and its id is the answer. The two failures are a missing manifest, and an id that cannot be found.
    method ResolveOrDiscoverForum(domain: string, manifest: Option<T.Info>, newId: nat)
      returns (r: Result<nat, string>)
      requires FreshId(forums, newId) && NoZeroIds(forums)
      modifies this
      ensures domain in old(forums) ==> r == Ok(old(forums)[domain].id) && forums == old(forums)
      ensures domain !in old(forums) && manifest == None ==> r.Err? && forums == old(forums)
      ensures domain !in old(forums) && manifest.Some? ==>
        r == Ok(newId) && forums == old(forums)[domain := T.Forum(newId, manifest.value, None, false, 0)]
    {
      var forumID := T.GetForumIDByDomain(forums, domain);
      if forumID != T.NO_FORUM {
        return Ok(forumID);
      }
      if manifest == None {
        return Err("manifest not available");
      }
      var upserted := T.Upsert(forums, domain, newId, manifest.value);
      forums := upserted.0;
      forumID := if upserted.1.Some? then upserted.1.value else T.NO_FORUM;
      if forumID == T.NO_FORUM {
        forumID := T.GetForumIDByDomain(forums, domain);
      }
      if forumID == T.NO_FORUM {
        return Err("failed to resolve forum");
      }
      r := Ok(forumID);
    }
  }

  // ----- Runs -----

  predicate NoZeroIds(t: T.Table) {
    forall d :: d in t ==> t[d].id != T.NO_FORUM
  }

  predicate UniqueIds(t: T.Table) {
    forall d, e :: d in t && e in t && d != e ==> t[d].id != t[e].id
  }

  const START := State(map[], [])

  ghost predicate IsRun(steps: seq<Step>)
    decreases |steps|, 0
  {
    steps == [] ||
    var n := |steps| - 1;
    IsRun(steps[..n]) && Enabled(End(steps[..n]), steps[n])
  }

  ghost function End(steps: seq<Step>): State
    requires IsRun(steps)
    decreases |steps|, 1
  {
    if steps == [] then START
    else
      var n := |steps| - 1;
      Do(End(steps[..n]), steps[n])
  }

  predicate IsDeletion(step: Step) {
    step.Delete? || step.AutoDelete?
  }

  // What the statements of a discovery do, each on its own: a known domain resolves at the first lookup; a new row, or
  // one that is not approved, at the upsert; an approved one at the second lookup.
  lemma StatementsExactly(s: State, step: Step, k: nat)
    requires Enabled(s, step) && NoZeroIds(s.forums) && k < |s.discoveries|
    requires step in {Look(k), LookAgain(k)} || (step.Fetch? && step.k == k) || (step.UpsertForum? && step.k == k)
    ensures var t, domain, forums := Do(s, step), s.discoveries[k].domain, s.forums;
      && |t.discoveries| == |s.discoveries| && t.discoveries[k].domain == domain
      && (forall i :: 0 <= i < |s.discoveries| && i != k ==> t.discoveries[i] == s.discoveries[i])
      && match step
         case Look(_) =>
           && t.forums == forums
           && t.discoveries[k].stage == if domain in forums then Resolved(forums[domain].id) else Fetching
         case Fetch(_, manifest) =>
           && t.forums == forums
           && t.discoveries[k].stage == if manifest.Some? then Upserting(manifest.value) else NoManifest
         case UpsertForum(_, newId) =>
           && s.discoveries[k].stage.Upserting?
           && var info := s.discoveries[k].stage.info;
           if domain !in forums then
             && t.forums == forums[domain := T.Forum(newId, info, None, false, 0)]
             && t.discoveries[k].stage == Resolved(newId)
           else if forums[domain].approved then
             t.forums == forums && t.discoveries[k].stage == LookingAgain
           else
             && t.forums == forums[domain := forums[domain].(info := info)]
             && t.discoveries[k].stage == Resolved(forums[domain].id)
         case LookAgain(_) =>
           && t.forums == forums
           && t.discoveries[k].stage == if domain in forums then Resolved(forums[domain].id) else FailedToResolve
         case _ => true
  {
  }

  // What a discovery may rely on: after its upsert the domain has a row, and the id it returned is that row's.
  predicate WellPlaced(t: T.Table, d: Discovery) {
    match d.stage
    case LookingAgain => d.domain in t
    case Resolved(id) => d.domain in t && t[d.domain].id == id
    case FailedToResolve => false
    case _ => true
  }

  predicate Good(s: State) {
    && NoZeroIds(s.forums)
    && UniqueIds(s.forums)
    && forall k :: 0 <= k < |s.discoveries| ==> WellPlaced(s.forums, s.discoveries[k])
  }

  // Statements that delete nothing keep every row and its id.
  predicate KeepsRows(t: T.Table, u: T.Table) {
    forall d :: d in t ==> d in u && u[d].id == t[d].id
  }

  lemma StatementKeepsRows(s: State, step: Step)
    requires Enabled(s, step) && !IsDeletion(step)
    ensures KeepsRows(s.forums, Do(s, step).forums)
  {
  }

  lemma StatementKeepsIds(s: State, step: Step)
    requires Enabled(s, step) && NoZeroIds(s.forums) && UniqueIds(s.forums)
    ensures NoZeroIds(Do(s, step).forums) && UniqueIds(Do(s, step).forums)
  {
  }

  lemma StepKeepsGood(s: State, step: Step)
    requires Good(s) && Enabled(s, step) && !IsDeletion(step)
    ensures Good(Do(s, step))
  {
    StatementKeepsIds(s, step);
    StatementKeepsRows(s, step);
    var s' := Do(s, step);
    forall k | 0 <= k < |s'.discoveries| ensures WellPlaced(s'.forums, s'.discoveries[k]) {
      if k < |s.discoveries| {
        assert WellPlaced(s.forums, s.discoveries[k]);
      }
    }
  }

  lemma {:induction false} RunKeepsGood(steps: seq<Step>)
    requires IsRun(steps) && forall i :: 0 <= i < |steps| ==> !IsDeletion(steps[i])
    ensures Good(End(steps))
    decreases |steps|
  {
    if steps != [] {
      var n := |steps| - 1;
      RunKeepsGood(steps[..n]);
      StepKeepsGood(End(steps[..n]), steps[n]);
    }
  }

  // However the statements of discoveries, registrations and health reports interleave, as long as nothing is
  // deleted: no discovery fails to resolve, and each that returned an id returned that of the one row of its domain.
  lemma DiscoveryResolves(steps: seq<Step>, k: nat)
    requires IsRun(steps) && forall i :: 0 <= i < |steps| ==> !IsDeletion(steps[i])
    requires k < |End(steps).discoveries|
    ensures var s := End(steps);
      var d := s.discoveries[k];
      && d.stage != FailedToResolve
      && (d.stage.Resolved? ==>
            (d.domain in s.forums
             && forall e :: e in s.forums ==> (s.forums[e].id == d.stage.id <==> e == d.domain)))
  {
    var s := End(steps);
    RunKeepsGood(steps);
    assert WellPlaced(s.forums, s.discoveries[k]);
  }

  // ----- What discovery leaves alone -----

  predicate IsDiscovery(step: Step) {
    step.Begin? || step.Look? || step.Fetch? || step.UpsertForum? || step.LookAgain?
  }

  predicate LeftAlone(t: T.Table, u: T.Table) {
    forall d :: d in t ==>
      && d in u
      && u[d].id == t[d].id && u[d].owner == t[d].owner && u[d].approved == t[d].approved
      && u[d].failures == t[d].failures
      && (t[d].approved ==> u[d] == t[d])
  }

  lemma DiscoveryStepLeavesRowsAlone(s: State, step: Step)
    requires Enabled(s, step) && IsDiscovery(step)
    ensures LeftAlone(s.forums, Do(s, step).forums)
  {
    if step.UpsertForum? {
      var d := s.discoveries[step.k];
      T.UpsertRespectsExistingRows(s.forums, d.domain, step.newId, d.stage.info);
    }
  }

  // However many discoveries run through each other from some moment of a run on, no approved row changes, and no row
  // its id, owner, approval or failure count.
  lemma {:induction false} DiscoveriesLeaveRowsAlone(steps: seq<Step>, from: nat)
    requires from <= |steps| && IsRun(steps) && IsRun(steps[..from])
    requires forall i :: from <= i < |steps| ==> IsDiscovery(steps[i])
    ensures LeftAlone(End(steps[..from]).forums, End(steps).forums)
    ensures var t, u := End(steps[..from]).forums, End(steps).forums;
      forall d :: d in t ==>
        && d in u && u[d].id == t[d].id && u[d].owner == t[d].owner && u[d].approved == t[d].approved
        && u[d].failures == t[d].failures && (t[d].approved ==> u[d] == t[d])
    decreases |steps|
  {
    if from == |steps| {
      assert steps[..from] == steps;
    } else {
      var init := steps[..|steps| - 1];
      assert init[..from] == steps[..from];
      DiscoveriesLeaveRowsAlone(init, from);
      DiscoveryStepLeavesRowsAlone(End(init), steps[|steps| - 1]);
      LeftAloneTransitive(End(steps[..from]).forums, End(init).forums, End(steps).forums);
    }
  }

  lemma LeftAloneTransitive(t: T.Table, u: T.Table, v: T.Table)
    requires LeftAlone(t, u) && LeftAlone(u, v)
    ensures LeftAlone(t, v)
  {
  }

  // ----- When a discovery fails to resolve -----

  // The upsert of discovery `k` met an approved row.
  predicate Refused(s: State, step: Step, k: nat) {
    step.UpsertForum? && step.k == k && k < |s.discoveries|
    && s.discoveries[k].domain in s.forums && s.forums[s.discoveries[k].domain].approved
  }

  // The statement removes the row of the domain, or creates one.
  predicate RemovesRow(s: State, step: Step, domain: string) {
    && domain in s.forums
    && match step
       case Delete(d, owner) => d == domain && s.forums[domain].owner == Some(owner)
       case AutoDelete(d) => d == domain && s.forums[domain].owner == None
       case _ => false
  }

  predicate CreatesRow(s: State, step: Step, domain: string) {
    && domain !in s.forums
    && match step
       case RegisterForum(d, _, _, _) => d == domain
       case UpsertForum(k, _) => k < |s.discoveries| && s.discoveries[k].domain == domain
       case _ => false
  }

  lemma RowComesAndGoes(s: State, step: Step, domain: string)
    requires Enabled(s, step)
    ensures domain in Do(s, step).forums
      <==> (domain in s.forums && !RemovesRow(s, step, domain)) || CreatesRow(s, step, domain)
  {
  }

  // A discovery keeps its domain; it comes to a failure only by a second lookup that finds nothing, and to its second
  // lookup only by a refused upsert.
  lemma DiscoveryStep(s: State, step: Step, k: nat)
    requires Enabled(s, step) && NoZeroIds(s.forums) && k < |Do(s, step).discoveries|
    ensures var d := Do(s, step).discoveries[k];
      && (k < |s.discoveries| ==> d.domain == s.discoveries[k].domain)
      && (d.stage == FailedToResolve ==>
            At(s, k, FailedToResolve) || (step == LookAgain(k) && At(s, k, LookingAgain) && d.domain !in s.forums))
      && (d.stage == LookingAgain ==> At(s, k, LookingAgain) || Refused(s, step, k))
  {
  }

  lemma {:induction false} RunPrefix(steps: seq<Step>, n: nat)
    requires IsRun(steps) && n <= |steps|
    ensures IsRun(steps[..n])
    decreases |steps|
  {
    if n < |steps| {
      var init := steps[..|steps| - 1];
      RunPrefix(init, n);
      assert init[..n] == steps[..n];
    } else {
      assert steps[..n] == steps;
    }
  }

  lemma NextState(steps: seq<Step>, n: nat)
    requires IsRun(steps) && n < |steps|
    ensures IsRun(steps[..n]) && IsRun(steps[..n + 1]) && Enabled(End(steps[..n]), steps[n])
    ensures End(steps[..n + 1]) == Do(End(steps[..n]), steps[n])
  {
    RunPrefix(steps, n);
    RunPrefix(steps, n + 1);
    assert steps[..n + 1][..n] == steps[..n];
  }

  ghost predicate RefusedAt(steps: seq<Step>, n: nat, k: nat) {
    n < |steps| && IsRun(steps[..n]) && Refused(End(steps[..n]), steps[n], k)
  }

  ghost predicate RemovesAt(steps: seq<Step>, n: nat, domain: string) {
    n < |steps| && IsRun(steps[..n]) && RemovesRow(End(steps[..n]), steps[n], domain)
  }

  ghost predicate CreatesAt(steps: seq<Step>, n: nat, domain: string) {
    n < |steps| && IsRun(steps[..n]) && CreatesRow(End(steps[..n]), steps[n], domain)
  }

  // Between its refused upsert `u` and its second lookup `l` the domain of discovery `k` was deleted, at `d`, and not
  // inserted again.
  ghost predicate GoneInBetween(steps: seq<Step>, k: nat, u: nat, d: nat, l: nat)
    requires IsRun(steps) && k < |End(steps).discoveries|
  {
    && u < d < l < |steps|
    && RefusedAt(steps, u, k)
    && steps[l] == LookAgain(k)
    && Gone(steps, End(steps).discoveries[k].domain, d, l)
  }

  ghost predicate Gone(steps: seq<Step>, domain: string, d: nat, l: nat)
    requires d < l <= |steps|
  {
    RemovesAt(steps, d, domain) && forall m: nat :: d < m < l ==> !CreatesAt(steps, m, domain)
  }

  lemma RowAt(steps: seq<Step>, domain: string, n: nat)
    requires IsRun(steps) && n < |steps|
    ensures IsRun(steps[..n]) && IsRun(steps[..n + 1])
    ensures domain in End(steps[..n + 1]).forums
      <==> (domain in End(steps[..n]).forums && !RemovesAt(steps, n, domain)) || CreatesAt(steps, n, domain)
    ensures RemovesAt(steps, n, domain) ==> domain in End(steps[..n]).forums && !CreatesAt(steps, n, domain)
  {
    NextState(steps, n);
    RowComesAndGoes(End(steps[..n]), steps[n], domain);
  }

  lemma DiscoveryAt(steps: seq<Step>, k: nat, n: nat)
    requires IsRun(steps) && n < |steps|
    ensures IsRun(steps[..n]) && IsRun(steps[..n + 1])
    ensures var s, t := End(steps[..n]), End(steps[..n + 1]);
      k < |t.discoveries| ==>
        && (k < |s.discoveries| ==> t.discoveries[k].domain == s.discoveries[k].domain)
        && (At(t, k, FailedToResolve) ==>
              At(s, k, FailedToResolve)
              || (steps[n] == LookAgain(k) && At(s, k, LookingAgain) && s.discoveries[k].domain !in s.forums))
        && (At(t, k, LookingAgain) ==> At(s, k, LookingAgain) || RefusedAt(steps, n, k))
  {
    NextState(steps, n);
    IdsAreGood(steps[..n]);
    if k < |End(steps[..n + 1]).discoveries| {
      DiscoveryStep(End(steps[..n]), steps[n], k);
    }
  }

  lemma {:induction false} IdsAreGood(steps: seq<Step>)
    requires IsRun(steps)
    ensures NoZeroIds(End(steps).forums) && UniqueIds(End(steps).forums)
    decreases |steps|
  {
    if steps != [] {
      var n := |steps| - 1;
      IdsAreGood(steps[..n]);
      StatementKeepsIds(End(steps[..n]), steps[n]);
    }
  }

  lemma {:induction false} GoneMeansAbsent(steps: seq<Step>, domain: string, d: nat, l: nat)
    requires IsRun(steps) && d < l <= |steps| && Gone(steps, domain, d, l)
    ensures IsRun(steps[..l]) && domain !in End(steps[..l]).forums
    decreases l
  {
    RowAt(steps, domain, l - 1);
    if l > d + 1 {
      assert !CreatesAt(steps, l - 1, domain) && Gone(steps, domain, d, l - 1);
      GoneMeansAbsent(steps, domain, d, l - 1);
    }
  }

  lemma StillGone(steps: seq<Step>, domain: string, d: nat, l: nat)
    requires d < l < |steps| && Gone(steps, domain, d, l) && !CreatesAt(steps, l, domain)
    ensures Gone(steps, domain, d, l + 1)
  {
  }

  // A row that was there and is there no more was removed at some moment, and not created since.
  lemma {:induction false} FindRemoval(steps: seq<Step>, domain: string, from: nat, l: nat) returns (d: nat)
    requires IsRun(steps) && from <= l <= |steps| && IsRun(steps[..from]) && IsRun(steps[..l])
    requires domain in End(steps[..from]).forums && domain !in End(steps[..l]).forums
    ensures from <= d < l && Gone(steps, domain, d, l)
    decreases l
  {
    RowAt(steps, domain, l - 1);
    if domain in End(steps[..l - 1]).forums {
      d := l - 1;
    } else {
      d := FindRemoval(steps, domain, from, l - 1);
      StillGone(steps, domain, d, l - 1);
    }
  }

  // A discovery stands before its second lookup since an upsert that was refused.
  lemma {:induction false} FindRefusal(steps: seq<Step>, k: nat, l: nat) returns (u: nat)
    requires IsRun(steps) && l <= |steps| && IsRun(steps[..l]) && At(End(steps[..l]), k, LookingAgain)
    ensures u < l && RefusedAt(steps, u, k)
    ensures End(steps[..u]).discoveries[k].domain == End(steps[..l]).discoveries[k].domain
    decreases l
  {
    DiscoveryAt(steps, k, l - 1);
    if At(End(steps[..l - 1]), k, LookingAgain) {
      u := FindRefusal(steps, k, l - 1);
    } else {
      u := l - 1;
    }
  }

  // A discovery that has failed did so at a second lookup that found no row.
  lemma {:induction false} FindLookAgain(steps: seq<Step>, k: nat, n: nat) returns (l: nat)
    requires IsRun(steps) && n <= |steps| && IsRun(steps[..n]) && At(End(steps[..n]), k, FailedToResolve)
    ensures l < n && steps[l] == LookAgain(k) && IsRun(steps[..l]) && At(End(steps[..l]), k, LookingAgain)
    ensures End(steps[..l]).discoveries[k].domain == End(steps[..n]).discoveries[k].domain
    ensures End(steps[..l]).discoveries[k].domain !in End(steps[..l]).forums
    decreases n
  {
    DiscoveryAt(steps, k, n - 1);
    if At(End(steps[..n - 1]), k, FailedToResolve) {
      l := FindLookAgain(steps, k, n - 1);
    } else {
      l := n - 1;
    }
  }

  lemma FailureStaysOnce(s: State, step: Step, k: nat)
    requires Enabled(s, step) && k < |s.discoveries|
    ensures k < |Do(s, step).discoveries| && Do(s, step).discoveries[k].domain == s.discoveries[k].domain
    ensures At(s, k, FailedToResolve) ==> At(Do(s, step), k, FailedToResolve)
  {
  }

  // What a discovery has come to stays: its domain, and a failure to resolve.
  lemma {:induction false} FailureStays(steps: seq<Step>, k: nat, n: nat)
    requires IsRun(steps) && n <= |steps| && IsRun(steps[..n]) && k < |End(steps[..n]).discoveries|
    ensures k < |End(steps).discoveries|
    ensures End(steps).discoveries[k].domain == End(steps[..n]).discoveries[k].domain
    ensures At(End(steps[..n]), k, FailedToResolve) ==> At(End(steps), k, FailedToResolve)
    decreases |steps|
  {
    if n == |steps| {
      assert steps[..n] == steps;
    } else {
      var init := steps[..|steps| - 1];
      assert init[..n] == steps[..n];
      FailureStays(init, k, n);
      FailureStaysOnce(End(init), steps[|steps| - 1], k);
    }
  }

  // In every run, deletions included: a discovery has failed to resolve if and only if its domain was deleted after its
  // refused upsert and not inserted again before its second lookup.
  lemma DiscoveryFailsExactly(steps: seq<Step>, k: nat)
    requires IsRun(steps) && k < |End(steps).discoveries|
    ensures At(End(steps), k, FailedToResolve) <==> exists u, d, l :: GoneInBetween(steps, k, u, d, l)
  {
    assert steps[..|steps|] == steps;
    if At(End(steps), k, FailedToResolve) {
      var l := FindLookAgain(steps, k, |steps|);
      var u := FindRefusal(steps, k, l);
      NextState(steps, u);
      var domain := End(steps).discoveries[k].domain;
      var d := FindRemoval(steps, domain, u + 1, l);
      assert GoneInBetween(steps, k, u, d, l);
    }
    if u, d, l :| GoneInBetween(steps, k, u, d, l) {
      GoneFails(steps, k, u, d, l);
    }
  }

  lemma GoneFails(steps: seq<Step>, k: nat, u: nat, d: nat, l: nat)
    requires IsRun(steps) && k < |End(steps).discoveries| && GoneInBetween(steps, k, u, d, l)
    ensures At(End(steps), k, FailedToResolve)
  {
    GoneMeansAbsent(steps, End(steps).discoveries[k].domain, d, l);
    LookAgainFails(steps, k, l);
    FailureStays(steps, k, l);
    FailureStays(steps, k, l + 1);
  }

  lemma LookAgainFails(steps: seq<Step>, k: nat, l: nat)
    requires IsRun(steps) && l < |steps| && steps[l] == LookAgain(k)
    ensures IsRun(steps[..l]) && IsRun(steps[..l + 1]) && k < |End(steps[..l]).discoveries|
    ensures End(steps[..l]).discoveries[k].domain !in End(steps[..l]).forums ==>
      At(End(steps[..l + 1]), k, FailedToResolve)
  {
    NextState(steps, l);
  }

  // ----- It can happen -----

  ghost predicate Reaches(steps: seq<Step>, s: State) {
    IsRun(steps) && End(steps) == s
  }

  lemma Extend(steps: seq<Step>, s: State, step: Step)
    requires Reaches(steps, s) && Enabled(s, step)
    ensures Reaches(steps + [step], Do(s, step))
  {
    assert (steps + [step])[..|steps|] == steps;
  }

  // From the empty directory: while a discovery fetches the manifest somebody registers the domain, a health report
  // approves it, and the owner deletes it between the discovery's upsert and its second lookup.
  lemma DeleteCanMakeDiscoveryFail(domain: string, info: T.Info, owner: string) returns (steps: seq<Step>)
    ensures IsRun(steps) && At(End(steps), 0, FailedToResolve)
  {
    var row := T.Forum(1, info, Some(owner), true, 0);
    var listed: T.Table := map[domain := row];
    steps := RegisteredMeanwhile(domain, info, owner);
    var s := State(listed, [Discovery(domain, Upserting(info))]);
    Extend(steps, s, UpsertForum(0, 2));
    steps := steps + [UpsertForum(0, 2)];
    var again := [Discovery(domain, LookingAgain)];
    assert Do(s, UpsertForum(0, 2)) == State(listed, again);
    Extend(steps, State(listed, again), Delete(domain, owner));
    steps := steps + [Delete(domain, owner)];
    assert listed - {domain} == map[];
    Extend(steps, State(map[], again), LookAgain(0));
    steps := steps + [LookAgain(0)];
  }

  lemma RegisteredMeanwhile(domain: string, info: T.Info, owner: string) returns (steps: seq<Step>)
    ensures var row := T.Forum(1, info, Some(owner), true, 0);
      Reaches(steps, State(map[domain := row], [Discovery(domain, Upserting(info))]))
  {
    steps := [];
    assert Reaches(steps, START);
    Extend(steps, START, Begin(domain));
    steps := steps + [Begin(domain)];
    var looking, fetching := [Discovery(domain, Looking)], [Discovery(domain, Fetching)];
    var upserting := [Discovery(domain, Upserting(info))];
    assert Do(START, Begin(domain)) == State(map[], looking);
    Extend(steps, State(map[], looking), Look(0));
    steps := steps + [Look(0)];
    assert Do(State(map[], looking), Look(0)) == State(map[], fetching);
    Extend(steps, State(map[], fetching), Fetch(0, Some(info)));
    steps := steps + [Fetch(0, Some(info))];
    assert Do(State(map[], fetching), Fetch(0, Some(info))) == State(map[], upserting);
    var pending: T.Table := map[domain := T.Forum(1, info, Some(owner), false, 0)];
    Extend(steps, State(map[], upserting), RegisterForum(domain, 1, info, owner));
    steps := steps + [RegisterForum(domain, 1, info, owner)];
    assert Do(State(map[], upserting), RegisterForum(domain, 1, info, owner)) == State(pending, upserting);
    Extend(steps, State(pending, upserting), Reapprove(domain));
    steps := steps + [Reapprove(domain)];
    var listed: T.Table := map[domain := T.Forum(1, info, Some(owner), true, 0)];
    assert Do(State(pending, upserting), Reapprove(domain)).forums == listed;
  }
}
