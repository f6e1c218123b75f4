/**
 The P2P credentials an agent honours (crates/nession-agent/src/p2p_credentials.rs).

 The store sweeps on write and forgets on read.  The log beside it never forgets: it lists
 every accepted grant in order, and it is what the store has to agree with.
 */
module Credentials {
  import opened Wrappers

  datatype Scope = Scope(terminal: Option<string>, terminalAllSessions: bool, sessions: bool, files: bool)

  datatype Granted = Granted(agentId: string, sessionId: string, scope: Scope, expiresAt: int)

  /** A grant as it arrives; an unreadable deadline is `None`. */
  datatype P2pGrant = P2pGrant(credential: string, agentId: string, sessionId: string, scope: Scope, expiresAt: Option<int>)

  datatype Refusal = Unknown | Expired | WrongAgent

  datatype Authority = Authority(credential: string, agentId: string, sessionId: string, scope: Scope, expiresAt: int)

  type Held = map<string, Granted>

  const CONFIGURED_SECONDS: int := 3650 * 86400

  function AuthorityOf(credential: string, g: Granted): Authority {
    Authority(credential, g.agentId, g.sessionId, g.scope, g.expiresAt)
  }

  function GrantedOf(grant: P2pGrant): Granted
    requires grant.expiresAt.Some?
  {
    Granted(grant.agentId, grant.sessionId, grant.scope, grant.expiresAt.value)
  }

  predicate Accepts(thisAgent: string, grant: P2pGrant) {
    grant.agentId == thisAgent && grant.expiresAt.Some?
  }

  // ---------- the log ----------

  datatype Accepted = Accepted(credential: string, granted: Granted)

  /** The last grant accepted for a credential. */
  function Last(log: seq<Accepted>, c: string): Option<Granted> {
    if log == [] then None
    else if log[|log| - 1].credential == c then Some(log[|log| - 1].granted)
    else Last(log[..|log| - 1], c)
  }

  /** The `i`-th acceptance is of `g` for `c`, and no later one is for `c`. */
  predicate IsLastAt(log: seq<Accepted>, c: string, g: Granted, i: nat) {
    && i < |log| && log[i] == Accepted(c, g)
    && forall j :: i < j < |log| ==> log[j].credential != c
  }

  lemma IsLastAtAppend(init: seq<Accepted>, last: Accepted, c: string, g: Granted, i: nat)
    ensures IsLastAt(init + [last], c, g, i)
       <==> (i == |init| && last == Accepted(c, g)) || (last.credential != c && IsLastAt(init, c, g, i))
  {
    var log := init + [last];
    assert forall j :: 0 <= j < |init| ==> log[j] == init[j];
    if i < |init| && last.credential == c {
      assert log[|init|].credential == c;
    }
  }

  /** The last grant, said with positions. */
  lemma {:induction false} LastIsLast(log: seq<Accepted>, c: string, g: Granted)
    ensures Last(log, c) == Some(g) <==> exists i :: IsLastAt(log, c, g, i)
  {
    if log != [] {
      var init, last := log[..|log| - 1], log[|log| - 1];
      assert log == init + [last];
      LastIsLast(init, c, g);
      forall i: nat
        ensures IsLastAt(log, c, g, i)
           <==> (i == |init| && last == Accepted(c, g)) || (last.credential != c && IsLastAt(init, c, g, i))
      {
        IsLastAtAppend(init, last, c, g, i);
      }
      assert last == Accepted(c, g) ==> IsLastAt(log, c, g, |init|);
    }
  }

  lemma LastAppend(log: seq<Accepted>, a: Accepted, c: string)
    ensures Last(log + [a], c) == if a.credential == c then Some(a.granted) else Last(log, c)
  {
    assert (log + [a])[..|log|] == log;
  }

  /** What a never-forgetting store would answer. */
  function LogAnswer(log: seq<Accepted>, c: string, now: int): Option<Authority> {
    match Last(log, c)
    case None => None
    case Some(g) => if g.expiresAt >= now then Some(AuthorityOf(c, g)) else None
  }

  /**
   The store holds only last grants, and, up to what has expired, all of them.
   `now` is the latest time anything looked at the store.
   */
  ghost predicate Agrees(held: Held, log: seq<Accepted>, now: int) {
    && (forall c :: c in held ==> Last(log, c) == Some(held[c]))
    && (forall c :: Last(log, c).Some? && Last(log, c).value.expiresAt >= now ==> c in held)
  }

  // ---------- one step each ----------

  function Swept(held: Held, now: int): Held {
    map c | c in held && held[c].expiresAt >= now :: held[c]
  }

  lemma GrantKeeps(held: Held, log: seq<Accepted>, before: int, now: int, grant: P2pGrant)
    requires Agrees(held, log, before) && before <= now && grant.expiresAt.Some?
    ensures Agrees(Swept(held, now)[grant.credential := GrantedOf(grant)],
                   log + [Accepted(grant.credential, GrantedOf(grant))], now)
  {
    var a := Accepted(grant.credential, GrantedOf(grant));
    forall c
      ensures Last(log + [a], c) == if a.credential == c then Some(a.granted) else Last(log, c)
    {
      LastAppend(log, a, c);
    }
  }

  lemma ForgetKeeps(held: Held, log: seq<Accepted>, before: int, now: int, c: string)
    requires Agrees(held, log, before) && before <= now
    requires c in held && held[c].expiresAt < now
    ensures Agrees(held - {c}, log, now)
  {}

  // ---------- one call each ----------

  function GrantStep(thisAgent: string, held: Held, grant: P2pGrant, now: int): (Held, Result<string, Refusal>) {
    if grant.agentId != thisAgent then (held, Err(WrongAgent))
    else if grant.expiresAt.None? then (held, Err(Unknown))
    else (Swept(held, now)[grant.credential := GrantedOf(grant)], Ok(grant.credential))
  }

  function AuthorizeStep(held: Held, credential: string, now: int): (Held, Result<Authority, Refusal>) {
    if credential !in held then (held, Err(Unknown))
    else if held[credential].expiresAt >= now then (held, Ok(AuthorityOf(credential, held[credential])))
    else (held - {credential}, Err(Expired))
  }

  // ---------- the store ----------

  class P2pCredentials {
    var held: Held
    ghost var log: seq<Accepted>
    ghost var clock: int

    ghost predicate Valid()
      reads this
    {
      Agrees(held, log, clock)
    }

    constructor (ghost now: int)
      ensures Valid() && log == [] && clock == now
    {
      held := map[];
      log := [];
      clock := now;
    }

    /** `grant`: a refused grant changes nothing. */
    method Grant(thisAgent: string, grant: P2pGrant, now: int) returns (r: Result<string, Refusal>)
      requires Valid() && clock <= now
      modifies this
      ensures Valid() && clock == now
      ensures (held, r) == GrantStep(thisAgent, old(held), grant, now)
      ensures r.Ok? <==> Accepts(thisAgent, grant)
      ensures r.Ok? ==> log == old(log) + [Accepted(grant.credential, GrantedOf(grant))]
      ensures r.Err? ==> log == old(log) && held == old(held)
      ensures r.Err? ==> (r.error == WrongAgent <==> grant.agentId != thisAgent) && r.error != Expired
    {
      clock := now;
      if grant.agentId != thisAgent {
        return Err(WrongAgent);
      }
      if grant.expiresAt.None? {
        return Err(Unknown);
      }
      GrantKeeps(held, log, old(clock), now, grant);
      held := Swept(held, now);
      held := held[grant.credential := GrantedOf(grant)];
      log := log + [Accepted(grant.credential, GrantedOf(grant))];
      return Ok(grant.credential);
    }

    /** `grant_configured`: the operator's own token, ten years ahead. */
    method GrantConfigured(thisAgent: string, credential: string, scope: Scope, now: int)
      returns (r: Result<string, Refusal>)
      requires Valid() && clock <= now
      modifies this
      ensures Valid() && clock == now && r.Ok?
      ensures LogAnswer(log, credential, now)
           == Some(Authority(credential, thisAgent, thisAgent, scope, now + CONFIGURED_SECONDS))
      ensures forall c :: c != credential ==> Last(log, c) == Last(old(log), c)
    {
      var grant := P2pGrant(credential, thisAgent, thisAgent, scope, Some(now + CONFIGURED_SECONDS));
      r := Grant(thisAgent, grant, now);
      forall c
        ensures Last(log, c) == if c == credential then Some(GrantedOf(grant)) else Last(old(log), c)
      {
        LastAppend(old(log), Accepted(credential, GrantedOf(grant)), c);
      }
    }

    /**
     `authorize`: what is honoured is the log's to say, although the store may have swept or
     forgotten; a refusal says whether the credential was still held, and then forgets it.
     */
    method Authorize(credential: string, now: int) returns (r: Result<Authority, Refusal>)
      requires Valid() && clock <= now
      modifies this
      ensures Valid() && clock == now && log == old(log)
      ensures (held, r) == AuthorizeStep(old(held), credential, now)
      ensures match LogAnswer(log, credential, now)
              case Some(a) => r == Ok(a) && held == old(held)
              case None =>
                && r == Err(if credential in old(held) then Expired else Unknown)
                && held == old(held) - {credential}
    {
      clock := now;
      if credential in held && held[credential].expiresAt >= now {
        return Ok(AuthorityOf(credential, held[credential]));
      }
      if credential in held {
        ForgetKeeps(held, log, old(clock), now, credential);
        held := held - {credential};
        return Err(Expired);
      }
      return Err(Unknown);
    }
  }

  // ---------- whole sequential runs ----------

  datatype Op = DoGrant(grant: P2pGrant, at: int) | DoAuthorize(credential: string, at: int)

  datatype Answer = GrantAnswer(granted: Result<string, Refusal>) | AuthorizeAnswer(authorized: Result<Authority, Refusal>)

  /** One call, as the store serves it. */
  function StoreStep(thisAgent: string, held: Held, op: Op): (Held, Answer) {
    match op
    case DoGrant(grant, at) =>
      var (held', r) := GrantStep(thisAgent, held, grant, at);
      (held', GrantAnswer(r))
    case DoAuthorize(c, at) =>
      var (held', r) := AuthorizeStep(held, c, at);
      (held', AuthorizeAnswer(r))
  }

  /** What the store holds after a history of calls. */
  function StoreAfter(thisAgent: string, past: seq<Op>): Held {
    if past == [] then map[]
    else StoreStep(thisAgent, StoreAfter(thisAgent, past[..|past| - 1]), past[|past| - 1]).0
  }

  /** The grants a history of calls had accepted. */
  function LogAfter(thisAgent: string, past: seq<Op>): seq<Accepted> {
    if past == [] then []
    else
      var op := past[|past| - 1];
      LogAfter(thisAgent, past[..|past| - 1])
      + if IsGrant(thisAgent, op) then [Accepted(op.grant.credential, GrantedOf(op.grant))] else []
  }

  predicate IsGrant(thisAgent: string, op: Op) {
    op.DoGrant? && Accepts(thisAgent, op.grant)
  }

  predicate GrantsOf(thisAgent: string, op: Op, c: string) {
    IsGrant(thisAgent, op) && op.grant.credential == c
  }

  /** A call that takes an expired entry of `c` away: any accepted grant, or `c` presented. */
  predicate Clears(thisAgent: string, op: Op, c: string) {
    IsGrant(thisAgent, op) || (op.DoAuthorize? && op.credential == c)
  }

  /** The `i`-th call granted `g` to `c`, and no later call granted `c` again or cleared it expired. */
  ghost predicate HeldSince(thisAgent: string, past: seq<Op>, c: string, g: Granted, i: nat) {
    && i < |past| && GrantsOf(thisAgent, past[i], c) && GrantedOf(past[i].grant) == g
    && forall j :: i < j < |past| ==>
                     !GrantsOf(thisAgent, past[j], c) && (Clears(thisAgent, past[j], c) ==> past[j].at <= g.expiresAt)
  }

  lemma HeldSinceNext(thisAgent: string, init: seq<Op>, last: Op, c: string, g: Granted, i: nat)
    ensures HeldSince(thisAgent, init + [last], c, g, i)
       <==> if GrantsOf(thisAgent, last, c) then i == |init| && GrantedOf(last.grant) == g
            else HeldSince(thisAgent, init, c, g, i) && (Clears(thisAgent, last, c) ==> last.at <= g.expiresAt)
  {
    var past := init + [last];
    assert past[|init|] == last;
    assert forall j :: 0 <= j < |init| ==> past[j] == init[j];
  }

  /** Exactly what is held, said of the calls alone, for any clock. */
  lemma {:induction false} HeldExactly(thisAgent: string, past: seq<Op>, c: string, g: Granted)
    ensures (c in StoreAfter(thisAgent, past) && StoreAfter(thisAgent, past)[c] == g)
       <==> exists i :: HeldSince(thisAgent, past, c, g, i)
    decreases |past|
  {
    if past != [] {
      var init, last := past[..|past| - 1], past[|past| - 1];
      assert past == init + [last];
      HeldExactly(thisAgent, init, c, g);
      forall i: nat
        ensures HeldSince(thisAgent, past, c, g, i)
           <==> if GrantsOf(thisAgent, last, c) then i == |init| && GrantedOf(last.grant) == g
                else HeldSince(thisAgent, init, c, g, i) && (Clears(thisAgent, last, c) ==> last.at <= g.expiresAt)
      {
        HeldSinceNext(thisAgent, init, last, c, g, i);
      }
      if GrantsOf(thisAgent, last, c) && GrantedOf(last.grant) == g {
        assert HeldSince(thisAgent, past, c, g, |init|);
      }
    }
  }

  /** The reference: a log that never forgets says what is honoured, and the calls why not. */
  ghost function Verdict(thisAgent: string, past: seq<Op>, c: string, now: int): Result<Authority, Refusal> {
    match LogAnswer(LogAfter(thisAgent, past), c, now)
    case Some(authority) => Ok(authority)
    case None => if exists g, i :: HeldSince(thisAgent, past, c, g, i) then Err(Expired) else Err(Unknown)
  }

  ghost function Expected(thisAgent: string, past: seq<Op>, op: Op): Answer {
    match op
    case DoGrant(grant, _) =>
      GrantAnswer(if Accepts(thisAgent, grant) then Ok(grant.credential)
                  else if grant.agentId != thisAgent then Err(WrongAgent) else Err(Unknown))
    case DoAuthorize(c, at) => AuthorizeAnswer(Verdict(thisAgent, past, c, at))
  }

  /** The clock does not go back. */
  ghost predicate ClockForward(ops: seq<Op>) {
    forall i, j :: 0 <= i < j < |ops| ==> ops[i].at <= ops[j].at
  }

  lemma StepAgrees(thisAgent: string, held: Held, log: seq<Accepted>, before: int, op: Op)
    requires Agrees(held, log, before) && before <= op.at
    ensures Agrees(StoreStep(thisAgent, held, op).0,
                   log + if IsGrant(thisAgent, op) then [Accepted(op.grant.credential, GrantedOf(op.grant))] else [],
                   op.at)
  {
    assert log + [] == log;
    match op
    case DoGrant(grant, at) =>
      if Accepts(thisAgent, grant) {
        GrantKeeps(held, log, before, at, grant);
      }
    case DoAuthorize(c, at) =>
      if c in held && held[c].expiresAt < at {
        ForgetKeeps(held, log, before, at, c);
      }
  }

  lemma {:induction false} HistoryAgrees(thisAgent: string, past: seq<Op>, now: int)
    requires ClockForward(past) && forall i :: 0 <= i < |past| ==> past[i].at <= now
    ensures Agrees(StoreAfter(thisAgent, past), LogAfter(thisAgent, past), now)
    decreases |past|
  {
    if past != [] {
      var init, last := past[..|past| - 1], past[|past| - 1];
      HistoryAgrees(thisAgent, init, last.at);
      StepAgrees(thisAgent, StoreAfter(thisAgent, init), LogAfter(thisAgent, init), last.at, last);
    }
  }

  /**
   Over every run with a clock that does not go back, every answer of the store is the reference's:
   a credential is honoured exactly when the never-forgetting log has a live last grant for it,
   and is called expired rather than unknown exactly while nothing has cleared it.
   */
  lemma StoreRefinesLog(thisAgent: string, past: seq<Op>, op: Op)
    requires ClockForward(past + [op])
    ensures StoreStep(thisAgent, StoreAfter(thisAgent, past), op).1 == Expected(thisAgent, past, op)
  {
    if op.DoAuthorize? {
      var held := StoreAfter(thisAgent, past);
      var c := op.credential;
      forall i | 0 <= i < |past|
        ensures past[i].at <= op.at
      {
        assert (past + [op])[i].at <= (past + [op])[|past|].at;
      }
      assert forall i :: 0 <= i < |past| ==> (past + [op])[i] == past[i];
      HistoryAgrees(thisAgent, past, op.at);
      if c in held {
        HeldExactly(thisAgent, past, c, held[c]);
      }
      forall g: Granted, i: nat | HeldSince(thisAgent, past, c, g, i)
        ensures c in held
      {
        HeldExactly(thisAgent, past, c, g);
      }
    }
  }

  // ---------- what an honoured credential proves ----------

  /** The `i`-th call is the last that granted `c` to this agent with a deadline that can be read. */
  ghost predicate LastGranting(thisAgent: string, past: seq<Op>, c: string, i: nat) {
    && i < |past| && Granting(thisAgent, past[i], c)
    && forall j :: i < j < |past| ==> !Granting(thisAgent, past[j], c)
  }

  predicate Granting(thisAgent: string, op: Op, c: string) {
    op.DoGrant? && op.grant.credential == c && op.grant.agentId == thisAgent && op.grant.expiresAt.Some?
  }

  /** What was granted, field by field. */
  predicate Proves(a: Authority, thisAgent: string, grant: P2pGrant) {
    && a.credential == grant.credential
    && a.agentId == grant.agentId == thisAgent
    && a.sessionId == grant.sessionId
    && a.scope == grant.scope
    && Some(a.expiresAt) == grant.expiresAt
  }

  /**
   Over every run, by any clock: what a presented credential proves is what the last grant
   accepted for it said, while its deadline has not passed.
   */
  lemma HonouredProves(thisAgent: string, past: seq<Op>, c: string, now: int) returns (i: nat)
    requires AuthorizeStep(StoreAfter(thisAgent, past), c, now).1.Ok?
    ensures LastGranting(thisAgent, past, c, i)
    ensures var a := AuthorizeStep(StoreAfter(thisAgent, past), c, now).1.value;
            a.credential == c && Proves(a, thisAgent, past[i].grant) && a.expiresAt >= now
  {
    var held := StoreAfter(thisAgent, past);
    HeldExactly(thisAgent, past, c, held[c]);
    i :| HeldSince(thisAgent, past, c, held[c], i);
    forall j | i < j < |past|
      ensures !Granting(thisAgent, past[j], c)
    {
      assert !GrantsOf(thisAgent, past[j], c);
    }
  }

  /** And while the clock does not go back, every such credential is honoured. */
  lemma LiveIsHonoured(thisAgent: string, past: seq<Op>, c: string, now: int, i: nat)
    requires ClockForward(past + [DoAuthorize(c, now)]) && LastGranting(thisAgent, past, c, i)
    requires past[i].grant.expiresAt.value >= now
    ensures AuthorizeStep(StoreAfter(thisAgent, past), c, now).1.Ok?
  {
    var g := GrantedOf(past[i].grant);
    var all := past + [DoAuthorize(c, now)];
    forall j | i < j < |past|
      ensures !GrantsOf(thisAgent, past[j], c) && past[j].at <= g.expiresAt
    {
      assert !Granting(thisAgent, past[j], c);
      assert all[j] == past[j] && all[j].at <= all[|past|].at;
    }
    assert HeldSince(thisAgent, past, c, g, i);
    HeldExactly(thisAgent, past, c, g);
  }
}
