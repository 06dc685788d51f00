// One-time authorization codes: an in-memory store with a sweeper that runs whenever it likes.
module AuthCodes {
  import opened Wrappers

  datatype AuthCode = AuthCode(userInfo: string, redirectURI: string, expiresAt: int)

  type Codes = map<string, AuthCode>

  // What can happen to the store, each under its lock. The clock is read by redemptions and by the sweeper.
  datatype Op =
    | Store(code: string, ac: AuthCode)
    | Consume(code: string, redirectURI: string, now: int)
    | Sweep(now: int)

  // Without the codes that have expired. A code is still good at the very moment of its expiry.
  function Swept(s: Codes, now: int): Codes {
    map k | k in s && now <= s[k].expiresAt :: s[k]
  }

  // The answer to a redemption.
  function Redeem(s: Codes, code: string, redirectURI: string, now: int): Option<AuthCode> {
    if code in s && now <= s[code].expiresAt && s[code].redirectURI == redirectURI then Some(s[code]) else None
  }

  function Do(s: Codes, op: Op): Codes {
    match op
    case Store(code, ac) => s[code := ac]
    case Consume(code, _, _) => s - {code}
    case Sweep(now) => Swept(s, now)
  }

  // ----- The program -----

  class CodeStore {
    var codes: Codes

    constructor ()
      ensures codes == map[]
    {
      codes := map[];
    }

    method Store(code: string, ac: AuthCode)
      modifies this
      ensures codes == Do(old(codes), Op.Store(code, ac))
    {
      codes := codes[code := ac];
    }

    method Consume(code: string, redirectURI: string, now: int) returns (answer: Option<AuthCode>)
      modifies this
      ensures answer == Redeem(old(codes), code, redirectURI, now)
      ensures codes == Do(old(codes), Op.Consume(code, redirectURI, now))
    {
      if code !in codes || now > codes[code].expiresAt {
        codes := codes - {code};
        return None;
      }
      var ac := codes[code];
      if ac.redirectURI != redirectURI {
        codes := codes - {code};
        return None;
      }
      codes := codes - {code};
      return Some(ac);
    }

    // The sweeper goes through the codes in no particular order.
    method Sweep(now: int)
      modifies this
      ensures codes == Do(old(codes), Op.Sweep(now))
    {
      var before := codes;
      var todo := codes.Keys;
      while todo != {}
        invariant todo <= before.Keys
        invariant forall k :: k in codes <==> k in before && (k in todo || now <= before[k].expiresAt)
        invariant forall k :: k in codes ==> codes[k] == before[k]
        decreases |todo|
      {
        var k :| k in todo;
        todo := todo - {k};
        if now > codes[k].expiresAt {
          codes := codes - {k};
        }
      }
    }
  }

  // ----- Runs -----

  function After(ops: seq<Op>): Codes {
    if ops == [] then map[] else Do(After(ops[..|ops| - 1]), ops[|ops| - 1])
  }

  // The same run with a store that is never swept.
  function Unswept(ops: seq<Op>): Codes {
    if ops == [] then map[]
    else
      var s, op := Unswept(ops[..|ops| - 1]), ops[|ops| - 1];
      if op.Sweep? then s else Do(s, op)
  }

  ghost predicate ClockNeverGoesBack(ops: seq<Op>) {
    forall i, j :: 0 <= i < j < |ops| && !ops[i].Store? && !ops[j].Store? ==> ops[i].now <= ops[j].now
  }

  predicate Touches(op: Op, code: string) {
    !op.Sweep? && op.code == code
  }

  // The code was issued as `ac` at moment `j`, and since then neither issued again nor presented, with or without
  // success.
  ghost predicate IssuedAt(ops: seq<Op>, j: nat, code: string, ac: AuthCode) {
    && j < |ops|
    && ops[j] == Store(code, ac)
    && forall i :: j < i < |ops| ==> !Touches(ops[i], code)
  }

  ghost predicate Outstanding(ops: seq<Op>, code: string, ac: AuthCode) {
    exists j: nat :: IssuedAt(ops, j, code, ac)
  }

  lemma OutstandingStep(ops: seq<Op>, op: Op, code: string, ac: AuthCode)
    ensures Outstanding(ops + [op], code, ac) <==>
      if Touches(op, code) then op == Store(code, ac) else Outstanding(ops, code, ac)
  {
    var more := ops + [op];
    if op == Store(code, ac) {
      assert IssuedAt(more, |ops|, code, ac);
    }
    if Outstanding(more, code, ac) {
      var j: nat :| IssuedAt(more, j, code, ac);
      assert more[|ops|] == op;
      if j < |ops| {
        assert forall i :: 0 <= i < |ops| ==> more[i] == ops[i];
        assert IssuedAt(ops, j, code, ac);
      }
    }
    if Outstanding(ops, code, ac) && !Touches(op, code) {
      var j: nat :| IssuedAt(ops, j, code, ac);
      assert IssuedAt(more, j, code, ac);
    }
  }

  // The store that is never swept holds exactly the codes outstanding.
  lemma {:induction false} UnsweptIsOutstanding(ops: seq<Op>, code: string, ac: AuthCode)
    ensures code in Unswept(ops) && Unswept(ops)[code] == ac <==> Outstanding(ops, code, ac)
  {
    if ops != [] {
      var init, last := ops[..|ops| - 1], ops[|ops| - 1];
      assert ops == init + [last];
      UnsweptIsOutstanding(init, code, ac);
      OutstandingStep(init, last, code, ac);
    }
  }

  // Two stores that agree on the codes good at time `now`.
  ghost predicate AgreeAt(s: Codes, t: Codes, now: int) {
    && (forall k :: k in s && now <= s[k].expiresAt ==> k in t && t[k] == s[k])
    && (forall k :: k in t && now <= t[k].expiresAt ==> k in s && s[k] == t[k])
  }

  lemma StepKeepsAgreement(s: Codes, t: Codes, op: Op, now: int)
    requires AgreeAt(s, t, now) && (!op.Store? ==> op.now <= now)
    ensures AgreeAt(Do(s, op), if op.Sweep? then t else Do(t, op), now)
  {
  }

  // The sweeper has removed nothing but codes that had expired when the clock was last read.
  lemma {:induction false} SweepingRemovesTheExpired(ops: seq<Op>, now: int)
    requires forall i :: 0 <= i < |ops| && !ops[i].Store? ==> ops[i].now <= now
    ensures AgreeAt(After(ops), Unswept(ops), now)
  {
    if ops != [] {
      var n := |ops| - 1;
      SweepingRemovesTheExpired(ops[..n], now);
      StepKeepsAgreement(After(ops[..n]), Unswept(ops[..n]), ops[n], now);
    }
  }

  ghost predicate Answered(ops: seq<Op>, k: nat, ac: AuthCode) {
    && k < |ops| && ops[k].Consume?
    && Redeem(After(ops[..k]), ops[k].code, ops[k].redirectURI, ops[k].now) == Some(ac)
  }

  lemma ClockPrefix(ops: seq<Op>, k: nat)
    requires k < |ops| && !ops[k].Store? && ClockNeverGoesBack(ops)
    ensures forall i :: 0 <= i < k && !ops[..k][i].Store? ==> ops[..k][i].now <= ops[k].now
  {
  }

  // Sweeping makes no difference to any redemption, whenever the sweeper runs.
  lemma SweepsAreInvisible(ops: seq<Op>, k: nat)
    requires k < |ops| && ops[k].Consume? && ClockNeverGoesBack(ops)
    ensures Redeem(After(ops[..k]), ops[k].code, ops[k].redirectURI, ops[k].now)
      == Redeem(Unswept(ops[..k]), ops[k].code, ops[k].redirectURI, ops[k].now)
  {
    ClockPrefix(ops, k);
    SweepingRemovesTheExpired(ops[..k], ops[k].now);
  }

  // A redemption yields `ac` exactly if the code was issued as `ac` and not presented since, it has not expired, and
  // the redirect URI is its own.
  lemma RedemptionExact(ops: seq<Op>, k: nat, ac: AuthCode)
    requires k < |ops| && ops[k].Consume? && ClockNeverGoesBack(ops)
    ensures Answered(ops, k, ac) <==>
      Outstanding(ops[..k], ops[k].code, ac) && ops[k].now <= ac.expiresAt && ops[k].redirectURI == ac.redirectURI
  {
    SweepsAreInvisible(ops, k);
    UnsweptIsOutstanding(ops[..k], ops[k].code, ac);
  }

  ghost predicate EachCodeIssuedOnce(ops: seq<Op>) {
    forall i, j :: 0 <= i < j < |ops| && ops[i].Store? && ops[j].Store? ==> ops[i].code != ops[j].code
  }

  // When codes are not reused, only the first attempt with a code, from the moment it is issued, can succeed: every
  // attempt uses it up, whether or not it succeeds.
  lemma OnlyTheFirstAttempt(ops: seq<Op>, i: nat, k: nat, ac: AuthCode)
    requires ClockNeverGoesBack(ops) && EachCodeIssuedOnce(ops)
    requires i < k < |ops| && ops[i].Consume? && ops[k].Consume? && ops[i].code == ops[k].code
    requires exists j: nat :: j < i && ops[j].Store? && ops[j].code == ops[i].code
    ensures !Answered(ops, k, ac)
  {
    RedemptionExact(ops, k, ac);
    var code := ops[k].code;
    forall j: nat ensures !IssuedAt(ops[..k], j, code, ac) {
      if j < k && ops[j] == Store(code, ac) {
        assert j < i && Touches(ops[..k][i], code);
      }
    }
  }
}
