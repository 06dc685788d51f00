// The quota of five forums per owner: registration counts first and inserts later, so concurrent registrations of
// one owner can overshoot it, by as many as are between the two.
module ForumQuota {
  import opened Wrappers
  import T = ForumTable

  const QUOTA: nat := 5

  datatype RegisterError = Invalid | QuotaReached | DomainTaken

  // `pending` are the registrations that have counted and not yet inserted, by request number.
  datatype State = State(forums: T.Table, pending: map<nat, string>)

  datatype Step =
    | Count(request: nat, owner: string)
    | Insert(request: nat, domain: string, id: nat, info: T.Info)
    | GiveUp(request: nat)
    | Remove(domain: string)
    | Discover(domain: string, id: nat, info: T.Info)

  function Owned(t: T.Table, owner: string): nat {
    |T.OwnedBy(t, owner)|
  }

  function PendingOf(pending: map<nat, string>, owner: string): set<nat> {
    set r | r in pending && pending[r] == owner
  }

  function Pending(pending: map<nat, string>, owner: string): nat {
    |PendingOf(pending, owner)|
  }

  predicate Enabled(s: State, step: Step) {
    match step
    case Count(r, _) => r !in s.pending
    case Insert(r, _, _, _) => r in s.pending
    case GiveUp(r) => r in s.pending
    case _ => true
  }

  function Do(s: State, step: Step): State
    requires Enabled(s, step)
  {
    match step
    case Count(r, owner) => if Owned(s.forums, owner) >= QUOTA then s else s.(pending := s.pending[r := owner])
    case Insert(r, domain, id, info) =>
      var t := T.Register(s.forums, domain, id, info, s.pending[r]);
      State(if t.Some? then t.value else s.forums, s.pending - {r})
    case GiveUp(r) => s.(pending := s.pending - {r})
    case Remove(domain) => s.(forums := s.forums - {domain})
    case Discover(domain, id, info) => s.(forums := T.Upsert(s.forums, domain, id, info).0)
  }

  // The request as the program has it. The answers of the two format checks and the generated id are inputs.
  class Registration {
    var forums: T.Table

    constructor ()
      ensures forums == map[]
    {
      forums := map[];
    }

    method RegisterForum(owner: string, domain: string, info: T.Info, domainOk: bool, urlsOk: bool, id: nat)
      returns (r: Result<nat, RegisterError>)
      modifies this
      ensures r.Err? ==> forums == old(forums)
      ensures r.Ok? ==> r.value == id && forums == old(forums)[domain := T.Forum(id, info, Some(owner), false, 0)]
      ensures r.Ok? <==> domain != "" && info.name != "" && info.apiBase != "" && info.webBase != ""
                         && domainOk && urlsOk && Owned(old(forums), owner) < 5 && domain !in old(forums)
      ensures r.Ok? ==> Owned(forums, owner) <= 5
      ensures r == Err(Invalid) <==>
        domain == "" || info.name == "" || info.apiBase == "" || info.webBase == "" || !domainOk || !urlsOk
      ensures r == Err(QuotaReached) ==> Owned(old(forums), owner) >= 5
      ensures r == Err(DomainTaken) ==> Owned(old(forums), owner) < 5 && domain in old(forums)
    {
      if domain == "" || info.name == "" || info.apiBase == "" || info.webBase == "" || !domainOk || !urlsOk {
        return Err(Invalid);
      }
      var count := |T.OwnedBy(forums, owner)|;
      if count >= QUOTA {
        return Err(QuotaReached);
      }
      if domain in forums {
        return Err(DomainTaken);
      }
      OneMoreOwned(forums, domain, T.Forum(id, info, Some(owner), false, 0), owner);
      forums := T.Register(forums, domain, id, info, owner).value;
      r := Ok(id);
    }
  }

  // ----- Runs -----

  function Exec(s: State, steps: seq<Step>): Option<State> {
    if steps == [] then Some(s)
    else
      var before :- Exec(s, steps[..|steps| - 1]);
      if Enabled(before, steps[|steps| - 1]) then Some(Do(before, steps[|steps| - 1])) else None
  }

  const START := State(map[], map[])

  // A registration passes its check exactly if the owner has fewer than five forums; anybody else may remove or
  // discover a forum at any moment.
  lemma StepsExactly(s: State, step: Step)
    ensures Enabled(s, step) <==>
      && (step.Count? ==> step.request !in s.pending)
      && (step.Insert? || step.GiveUp? ==> step.request in s.pending)
    ensures step.Count? && Enabled(s, step) ==>
      Do(s, step).forums == s.forums && Do(s, step).pending
      == if |T.OwnedBy(s.forums, step.owner)| < 5 then s.pending[step.request := step.owner] else s.pending
    ensures step.Insert? && Enabled(s, step) ==>
      && Do(s, step).pending == s.pending - {step.request}
      && Do(s, step).forums
         == if step.domain in s.forums then s.forums
            else s.forums[step.domain := T.Forum(step.id, step.info, Some(s.pending[step.request]), false, 0)]
    ensures step.GiveUp? && Enabled(s, step) ==> Do(s, step) == State(s.forums, s.pending - {step.request})
    ensures step.Remove? ==> Do(s, step) == State(s.forums - {step.domain}, s.pending)
  {
  }

  lemma OwnedExactly(t: T.Table, owner: string, domain: string)
    ensures domain in T.OwnedBy(t, owner) <==> domain in t && t[domain].owner == Some(owner)
  {
  }

  // At no moment are more than `k` registrations of the owner between count and insert.
  ghost predicate AtMost(steps: seq<Step>, owner: string, k: nat) {
    forall n :: 0 <= n <= |steps| ==>
      Exec(START, steps[..n]).Some? && Pending(Exec(START, steps[..n]).value.pending, owner) <= k
  }

  lemma OneMoreOwned(t: T.Table, domain: string, f: T.Forum, owner: string)
    requires domain !in t
    ensures Owned(t[domain := f], owner) == Owned(t, owner) + (if f.owner == Some(owner) then 1 else 0)
  {
    var before, after := T.OwnedBy(t, owner), T.OwnedBy(t[domain := f], owner);
    if f.owner == Some(owner) {
      assert after == before + {domain};
    } else {
      assert after == before;
    }
  }

  lemma RemovedOwned(t: T.Table, domain: string, owner: string)
    ensures Owned(t - {domain}, owner) <= Owned(t, owner)
  {
    var before, after := T.OwnedBy(t, owner), T.OwnedBy(t - {domain}, owner);
    assert after == before - {domain};
    CardinalityMonotone(after, before);
  }

  lemma CardinalityMonotone<T>(a: set<T>, b: set<T>)
    requires a <= b
    ensures |a| <= |b|
  {
    assert b == a + (b - a);
  }

  lemma DiscoverKeepsOwned(t: T.Table, domain: string, id: nat, info: T.Info, owner: string)
    ensures Owned(T.Upsert(t, domain, id, info).0, owner) == Owned(t, owner)
  {
    assert T.OwnedBy(T.Upsert(t, domain, id, info).0, owner) == T.OwnedBy(t, owner);
  }

  lemma PendingLess(pending: map<nat, string>, r: nat, owner: string)
    requires r in pending
    ensures Pending(pending - {r}, owner) == Pending(pending, owner) - (if pending[r] == owner then 1 else 0)
  {
    assert PendingOf(pending - {r}, owner) == PendingOf(pending, owner) - {r};
  }

  lemma StepKeepsBound(s: State, step: Step, owner: string, k: nat)
    requires Enabled(s, step)
    requires Pending(Do(s, step).pending, owner) <= k
    requires Owned(s.forums, owner) + Pending(s.pending, owner) <= QUOTA - 1 + k
    ensures Owned(Do(s, step).forums, owner) + Pending(Do(s, step).pending, owner) <= QUOTA - 1 + k
  {
    match step {
      case Count(r, o) =>
        if o != owner {
          assert PendingOf(s.pending[r := o], owner) == PendingOf(s.pending, owner);
        }
      case Insert(r, domain, id, info) =>
        PendingLess(s.pending, r, owner);
        if domain !in s.forums {
          OneMoreOwned(s.forums, domain, T.Forum(id, info, Some(s.pending[r]), false, 0), owner);
        }
      case GiveUp(r) => PendingLess(s.pending, r, owner);
      case Remove(domain) => RemovedOwned(s.forums, domain, owner);
      case Discover(domain, id, info) => DiscoverKeepsOwned(s.forums, domain, id, info, owner);
    }
  }

  lemma {:induction false} OwnedAndPendingBounded(steps: seq<Step>, owner: string, k: nat)
    requires AtMost(steps, owner, k)
    ensures Exec(START, steps).Some?
    ensures var s := Exec(START, steps).value;
      Owned(s.forums, owner) + Pending(s.pending, owner) <= QUOTA - 1 + k
    decreases |steps|
  {
    assert steps[..|steps|] == steps;
    if steps == [] {
      assert T.OwnedBy(START.forums, owner) == {};
      assert PendingOf(START.pending, owner) == {};
    } else {
      var n := |steps| - 1;
      forall m | 0 <= m <= n ensures steps[..n][..m] == steps[..m] {}
      OwnedAndPendingBounded(steps[..n], owner, k);
      assert Pending(Exec(START, steps).value.pending, owner) <= k;
      StepKeepsBound(Exec(START, steps[..n]).value, steps[n], owner, k);
    }
  }

  // With at most `k` registrations of one owner between count and insert at a time, the owner never has more than
  // 4 + k forums; with one at a time, never more than five.
  lemma QuotaWithRaces(steps: seq<Step>, owner: string, k: nat)
    requires AtMost(steps, owner, k)
    ensures Exec(START, steps).Some?
    ensures Owned(Exec(START, steps).value.forums, owner) <= 4 + k
    ensures k == 1 ==> Owned(Exec(START, steps).value.forums, owner) <= 5
  {
    OwnedAndPendingBounded(steps, owner, k);
  }

  // ----- The bound is reached -----

  function Name(i: nat): string {
    seq(i + 1, _ => 'a')
  }

  function FirstForums(owner: string, info: T.Info, n: nat): T.Table {
    if n == 0 then map[]
    else FirstForums(owner, info, n - 1)[Name(n - 1) := T.Forum(n, info, Some(owner), false, 0)]
  }

  lemma {:induction false} FirstForumsOwned(owner: string, info: T.Info, n: nat)
    ensures Owned(FirstForums(owner, info, n), owner) == n
    ensures forall m: nat :: Name(m) in FirstForums(owner, info, n) <==> m < n
    decreases n
  {
    if n == 0 {
      assert T.OwnedBy(FirstForums(owner, info, 0), owner) == {};
    } else {
      FirstForumsOwned(owner, info, n - 1);
      OneMoreOwned(FirstForums(owner, info, n - 1), Name(n - 1), T.Forum(n, info, Some(owner), false, 0), owner);
      forall m: nat | Name(m) == Name(n - 1) ensures m == n - 1 {
        assert |Name(m)| == m + 1;
      }
    }
  }

  function Requests(owner: string, lo: nat, hi: nat): (m: map<nat, string>)
    ensures forall r: nat :: r in m <==> lo <= r < hi
    ensures forall r :: r in m ==> m[r] == owner
    decreases hi
  {
    if lo >= hi then map[] else Requests(owner, lo, hi - 1)[hi - 1 := owner]
  }

  // `n` forums registered, and the requests from `lo` up to `hi` pending.
  function Racing(owner: string, info: T.Info, n: nat, lo: nat, hi: nat): State {
    State(FirstForums(owner, info, n), Requests(owner, lo, hi))
  }

  lemma {:induction false} RacingPending(owner: string, info: T.Info, n: nat, lo: nat, hi: nat)
    requires lo <= hi
    ensures Pending(Racing(owner, info, n, lo, hi).pending, owner) == hi - lo
    decreases hi - lo
  {
    var pending := Racing(owner, info, n, lo, hi).pending;
    if lo == hi {
      assert PendingOf(pending, owner) == {};
    } else {
      RacingPending(owner, info, n, lo + 1, hi);
      assert pending - {lo} == Racing(owner, info, n, lo + 1, hi).pending;
      PendingLess(pending, lo, owner);
    }
  }

  ghost predicate Reaches(steps: seq<Step>, owner: string, k: nat, s: State) {
    AtMost(steps, owner, k) && Exec(START, steps) == Some(s)
  }

  lemma Extend(steps: seq<Step>, step: Step, owner: string, k: nat, s: State)
    requires Reaches(steps, owner, k, s)
    requires Enabled(s, step) && Pending(Do(s, step).pending, owner) <= k
    ensures Reaches(steps + [step], owner, k, Do(s, step))
  {
    var more := steps + [step];
    assert more[..|steps|] == steps && more[..|more|] == more;
    forall n | 0 <= n <= |steps| ensures more[..n] == steps[..n] {}
  }

  lemma CountOne(steps: seq<Step>, owner: string, info: T.Info, n: nat, lo: nat, hi: nat, k: nat)
    requires n < QUOTA && lo <= hi && hi + 1 - lo <= k
    requires Reaches(steps, owner, k, Racing(owner, info, n, lo, hi))
    ensures Reaches(steps + [Count(hi, owner)], owner, k, Racing(owner, info, n, lo, hi + 1))
  {
    var s := Racing(owner, info, n, lo, hi);
    FirstForumsOwned(owner, info, n);
    assert Do(s, Count(hi, owner)) == Racing(owner, info, n, lo, hi + 1);
    RacingPending(owner, info, n, lo, hi + 1);
    Extend(steps, Count(hi, owner), owner, k, s);
  }

  lemma InsertFirst(owner: string, info: T.Info, n: nat, lo: nat, hi: nat)
    requires lo < hi
    ensures Do(Racing(owner, info, n, lo, hi), Insert(lo, Name(n), n + 1, info))
            == Racing(owner, info, n + 1, lo + 1, hi)
  {
    FirstForumsOwned(owner, info, n);
    assert Requests(owner, lo, hi) - {lo} == Requests(owner, lo + 1, hi);
  }

  lemma InsertOne(steps: seq<Step>, owner: string, info: T.Info, n: nat, lo: nat, hi: nat, k: nat)
    requires lo < hi && hi - lo <= k
    requires Reaches(steps, owner, k, Racing(owner, info, n, lo, hi))
    ensures Reaches(steps + [Insert(lo, Name(n), n + 1, info)], owner, k, Racing(owner, info, n + 1, lo + 1, hi))
  {
    InsertFirst(owner, info, n, lo, hi);
    RacingPending(owner, info, n + 1, lo + 1, hi);
    Extend(steps, Insert(lo, Name(n), n + 1, info), owner, k, Racing(owner, info, n, lo, hi));
  }

  lemma {:induction false} RegisterOneByOne(owner: string, info: T.Info, n: nat, k: nat) returns (steps: seq<Step>)
    requires n < QUOTA && k >= 1
    ensures Reaches(steps, owner, k, Racing(owner, info, n, n, n))
    decreases n
  {
    if n == 0 {
      steps := [];
      RacingPending(owner, info, 0, 0, 0);
    } else {
      steps := RegisterOneByOne(owner, info, n - 1, k);
      CountOne(steps, owner, info, n - 1, n - 1, n - 1, k);
      steps := steps + [Count(n - 1, owner)];
      InsertOne(steps, owner, info, n - 1, n - 1, n, k);
      steps := steps + [Insert(n - 1, Name(n - 1), n, info)];
    }
  }

  lemma {:induction false} CountAll(owner: string, info: T.Info, j: nat, k: nat) returns (steps: seq<Step>)
    requires k >= 1 && j <= k
    ensures Reaches(steps, owner, k, Racing(owner, info, 4, 4, 4 + j))
    decreases j
  {
    if j == 0 {
      steps := RegisterOneByOne(owner, info, 4, k);
    } else {
      steps := CountAll(owner, info, j - 1, k);
      CountOne(steps, owner, info, 4, 4, 4 + j - 1, k);
      steps := steps + [Count(4 + j - 1, owner)];
    }
  }

  lemma {:induction false} InsertAll(owner: string, info: T.Info, j: nat, k: nat) returns (steps: seq<Step>)
    requires k >= 1 && j <= k
    ensures Reaches(steps, owner, k, Racing(owner, info, 4 + j, 4 + j, 4 + k))
    decreases j
  {
    if j == 0 {
      steps := CountAll(owner, info, k, k);
    } else {
      steps := InsertAll(owner, info, j - 1, k);
      InsertOne(steps, owner, info, 4 + j - 1, 4 + j - 1, 4 + k, k);
      steps := steps + [Insert(4 + j - 1, Name(4 + j - 1), 4 + j, info)];
    }
  }

  // Four registrations one by one, then `k` that all count before any inserts: 4 + k forums, so the bound is exact.
  lemma QuotaBoundIsReached(owner: string, info: T.Info, k: nat)
    requires k >= 1
    ensures exists steps :: AtMost(steps, owner, k) && Exec(START, steps).Some?
                            && Owned(Exec(START, steps).value.forums, owner) == 4 + k
  {
    var steps := InsertAll(owner, info, k, k);
    FirstForumsOwned(owner, info, 4 + k);
  }
}
