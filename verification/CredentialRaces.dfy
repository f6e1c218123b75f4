/**
 The credential store under concurrent callers (crates/nession-agent/src/p2p_credentials.rs).

 `authorize` is three steps: it takes the time, copies the entry under the read lock, and
 later forgets an expired entry under the write lock.  A grant is one step.  Any number of
 calls may be between their steps.
 */
module CredentialRaces {
  import opened Credentials
  import opened Wrappers

  datatype Call =
    | Started(credential: string, at: int)
    | Copied(credential: string, at: int, found: Option<Granted>, seen: nat)

  /** `log` and `seen` (the length of the log when a call copied its entry) are only observed. */
  datatype State = State(held: Held, calls: map<nat, Call>, clock: int, log: seq<Accepted>)

  datatype Action =
    | GrantArrives(grant: P2pGrant, at: int)
    | Start(call: nat, credential: string, at: int)
    | Copy(call: nat)
    | Finish(call: nat)

  predicate Honours(call: Call) {
    call.Copied? && call.found.Some? && call.found.value.expiresAt >= call.at
  }

  /** The copied entry had expired: the call will forget whatever the store then holds. */
  predicate FoundExpired(call: Call) {
    call.Copied? && call.found.Some? && !Honours(call)
  }

  /** What the call returns. */
  function AnswerOf(call: Call): Result<Authority, Refusal>
    requires call.Copied?
  {
    if Honours(call) then Ok(AuthorityOf(call.credential, call.found.value))
    else if FoundExpired(call) then Err(Expired)
    else Err(Unknown)
  }

  predicate Enabled(s: State, a: Action) {
    match a
    case GrantArrives(_, at) => s.clock <= at
    case Start(call, _, at) => call !in s.calls && s.clock <= at
    case Copy(call) => call in s.calls && s.calls[call].Started?
    case Finish(call) => call in s.calls && s.calls[call].Copied?
  }

  function Act(thisAgent: string, s: State, a: Action): State
    requires Enabled(s, a)
  {
    match a
    case GrantArrives(grant, at) =>
      if Accepts(thisAgent, grant) then
        s.(held := GrantStep(thisAgent, s.held, grant, at).0, clock := at,
           log := s.log + [Accepted(grant.credential, GrantedOf(grant))])
      else s.(clock := at)
    case Start(call, c, at) => s.(calls := s.calls[call := Started(c, at)], clock := at)
    case Copy(call) =>
      var c := s.calls[call].credential;
      var found := if c in s.held then Some(s.held[c]) else None;
      s.(calls := s.calls[call := Copied(c, s.calls[call].at, found, |s.log|)])
    case Finish(call) =>
      var done := s.calls[call];
      s.(held := if FoundExpired(done) then s.held - {done.credential} else s.held,
         calls := s.calls - {call})
  }

  const EMPTY: State := State(map[], map[], 0, [])

  /** The state an interleaving leads to from the empty store; none when it cannot happen. */
  function Run(thisAgent: string, actions: seq<Action>): Option<State> {
    if actions == [] then Some(EMPTY)
    else
      match Run(thisAgent, actions[..|actions| - 1])
      case None => None
      case Some(before) =>
        if Enabled(before, actions[|actions| - 1]) then Some(Act(thisAgent, before, actions[|actions| - 1]))
        else None
  }

  // ---------- what every interleaving keeps ----------

  ghost predicate CallFits(s: State, call: Call) {
    && call.at <= s.clock
    && (call.Copied? ==>
          && call.seen <= |s.log|
          && (call.found.Some? ==> Last(s.log[..call.seen], call.credential) == call.found))
  }

  ghost predicate Inv(thisAgent: string, s: State) {
    && (forall c :: c in s.held ==> Last(s.log, c) == Some(s.held[c]))
    && (forall i :: 0 <= i < |s.log| ==> s.log[i].granted.agentId == thisAgent)
    && (forall k :: k in s.calls ==> CallFits(s, s.calls[k]))
  }

  lemma GrantKeepsInv(thisAgent: string, s: State, grant: P2pGrant, at: int)
    requires Inv(thisAgent, s) && s.clock <= at && Accepts(thisAgent, grant)
    ensures Inv(thisAgent, Act(thisAgent, s, GrantArrives(grant, at)))
  {
    var s' := Act(thisAgent, s, GrantArrives(grant, at));
    forall c
      ensures Last(s'.log, c) == if grant.credential == c then Some(GrantedOf(grant)) else Last(s.log, c)
    {
      LastAppend(s.log, Accepted(grant.credential, GrantedOf(grant)), c);
    }
    forall k | k in s'.calls
      ensures CallFits(s', s'.calls[k])
    {
      assert CallFits(s, s.calls[k]);
      if s.calls[k].Copied? {
        assert s'.log[..s.calls[k].seen] == s.log[..s.calls[k].seen];
      }
    }
  }

  lemma ActKeepsInv(thisAgent: string, s: State, a: Action)
    requires Inv(thisAgent, s) && Enabled(s, a)
    ensures Inv(thisAgent, Act(thisAgent, s, a))
  {
    var s' := Act(thisAgent, s, a);
    assert s.log[..|s.log|] == s.log;
    if a.GrantArrives? && Accepts(thisAgent, a.grant) {
      GrantKeepsInv(thisAgent, s, a.grant, a.at);
    } else {
      forall k | k in s'.calls
        ensures CallFits(s', s'.calls[k])
      {
        assert k in s.calls ==> CallFits(s, s.calls[k]);
      }
    }
  }

  lemma {:induction false} RunsKeepInv(thisAgent: string, actions: seq<Action>, s: State)
    requires Run(thisAgent, actions) == Some(s)
    ensures Inv(thisAgent, s)
    decreases |actions|
  {
    if actions != [] {
      var before := Run(thisAgent, actions[..|actions| - 1]).value;
      RunsKeepInv(thisAgent, actions[..|actions| - 1], before);
      ActKeepsInv(thisAgent, before, actions[|actions| - 1]);
    }
  }

  /**
   Safety, over every interleaving: a call that is honoured presents a grant that was accepted
   for this agent, was the last for its credential when it was read, and had not expired when
   the call began.
   */
  lemma HonouredMeansGranted(thisAgent: string, actions: seq<Action>, s: State, k: nat)
    requires Run(thisAgent, actions) == Some(s) && k in s.calls && Honours(s.calls[k])
    ensures var call := s.calls[k];
            && call.seen <= |s.log|
            && Last(s.log[..call.seen], call.credential) == call.found
            && call.found.value.agentId == thisAgent
            && call.found.value.expiresAt >= call.at
            && AnswerOf(call) == Ok(AuthorityOf(call.credential, call.found.value))
  {
    RunsKeepInv(thisAgent, actions, s);
    var call := s.calls[k];
    assert CallFits(s, call);
    LastIsLast(s.log[..call.seen], call.credential, call.found.value);
  }

  // ---------- what an honoured call proves ----------

  /** A grant of `c` to this agent arrives, with a deadline that can be read. */
  predicate Arrives(thisAgent: string, a: Action, c: string) {
    a.GrantArrives? && a.grant.credential == c && a.grant.agentId == thisAgent && a.grant.expiresAt.Some?
  }

  /** What is held is what the last grant of the string said. */
  lemma {:induction false} HeldFrom(thisAgent: string, actions: seq<Action>, s: State, c: string) returns (n: nat)
    requires Run(thisAgent, actions) == Some(s) && c in s.held
    ensures n < |actions| && Arrives(thisAgent, actions[n], c) && s.held[c] == GrantedOf(actions[n].grant)
    ensures forall j :: n < j < |actions| ==> !Arrives(thisAgent, actions[j], c)
    decreases |actions|
  {
    var init, last := actions[..|actions| - 1], actions[|actions| - 1];
    if Arrives(thisAgent, last, c) {
      n := |actions| - 1;
    } else {
      n := HeldFrom(thisAgent, init, Run(thisAgent, init).value, c);
    }
  }

  /** A call holds what the store held when it copied. */
  lemma {:induction false} CopiedFrom(thisAgent: string, actions: seq<Action>, s: State, k: nat)
    returns (m: nat, t: State)
    requires Run(thisAgent, actions) == Some(s) && k in s.calls && s.calls[k].Copied?
    ensures m < |actions| && actions[m] == Copy(k) && Run(thisAgent, actions[..m]) == Some(t)
    ensures var call := s.calls[k];
            call.found == if call.credential in t.held then Some(t.held[call.credential]) else None
    decreases |actions|
  {
    var init, last := actions[..|actions| - 1], actions[|actions| - 1];
    var before := Run(thisAgent, init).value;
    if last == Copy(k) {
      m, t := |actions| - 1, before;
    } else {
      m, t := CopiedFrom(thisAgent, init, before, k);
      assert init[..m] == actions[..m];
    }
  }

  /**
   Over every interleaving: what an honoured call answers with is, field by field, what the
   last grant that had arrived for its credential when it copied the entry said.
   */
  lemma HonouredProvesGrant(thisAgent: string, actions: seq<Action>, s: State, k: nat) returns (n: nat, m: nat)
    requires Run(thisAgent, actions) == Some(s) && k in s.calls && Honours(s.calls[k])
    ensures n < m < |actions| && actions[m] == Copy(k)
    ensures Arrives(thisAgent, actions[n], s.calls[k].credential)
    ensures forall j :: n < j < m ==> !Arrives(thisAgent, actions[j], s.calls[k].credential)
    ensures AnswerOf(s.calls[k]).Ok? && Proves(AnswerOf(s.calls[k]).value, thisAgent, actions[n].grant)
    ensures AnswerOf(s.calls[k]).value.expiresAt >= s.calls[k].at
  {
    var c, t := s.calls[k].credential, s;
    m, t := CopiedFrom(thisAgent, actions, s, k);
    n := HeldFrom(thisAgent, actions[..m], t, c);
    forall j | n < j < m
      ensures !Arrives(thisAgent, actions[j], c)
    {
      assert actions[..m][j] == actions[j];
    }
  }

  /**
   And what every other call answers with: unknown when the store did not hold the string when
   it was copied, expired when it did and the deadline had passed as the call began.
   */
  lemma RefusalSays(thisAgent: string, actions: seq<Action>, s: State, k: nat) returns (m: nat, t: State)
    requires Run(thisAgent, actions) == Some(s) && k in s.calls && s.calls[k].Copied?
    ensures m < |actions| && actions[m] == Copy(k) && Run(thisAgent, actions[..m]) == Some(t)
    ensures var c, at, answer := s.calls[k].credential, s.calls[k].at, AnswerOf(s.calls[k]);
            && (answer == Err(Unknown) <==> c !in t.held)
            && (answer == Err(Expired) <==> c in t.held && t.held[c].expiresAt < at)
            && (answer.Ok? <==> c in t.held && t.held[c].expiresAt >= at)
  {
    m, t := CopiedFrom(thisAgent, actions, s, k);
  }

  // ---------- when interleaved calls agree with the log ----------

  /**
   The race: the call found an expired entry, and the string has been granted again since it
   copied that entry, in the `i`-th acceptance, which is still the last and still live.
   */
  ghost predicate Overtaken(s: State, call: Call) {
    && FoundExpired(call)
    && exists g, i :: call.seen <= i && LiveLast(s, call.credential, g, i)
  }

  ghost predicate LiveLast(s: State, c: string, g: Granted, i: nat) {
    IsLastAt(s.log, c, g, i) && g.expiresAt >= s.clock
  }

  /** The log's last grant is at one place, so what is known of it there is known of it. */
  lemma LastThere(log: seq<Accepted>, c: string, g: Granted, i: nat)
    requires IsLastAt(log, c, g, i)
    ensures Last(log, c) == Some(g)
  {
    LastIsLast(log, c, g);
  }

  lemma LastSomewhere(log: seq<Accepted>, c: string) returns (i: nat)
    requires Last(log, c).Some?
    ensures IsLastAt(log, c, Last(log, c).value, i)
  {
    LastIsLast(log, c, Last(log, c).value);
    i :| IsLastAt(log, c, Last(log, c).value, i);
  }

  /** A live last grant was accepted after an expired one was copied, never before. */
  lemma LiveIsLater(thisAgent: string, s: State, k: nat, g: Granted, i: nat)
    requires Inv(thisAgent, s) && k in s.calls && FoundExpired(s.calls[k])
    requires LiveLast(s, s.calls[k].credential, g, i)
    ensures s.calls[k].seen <= i
  {
    var call := s.calls[k];
    assert CallFits(s, call);
    if i < call.seen {
      assert IsLastAt(s.log[..call.seen], call.credential, g, i);
      LastThere(s.log[..call.seen], call.credential, g, i);
      assert false;
    }
  }

  /** Finishing a call breaks the agreement with the log exactly in that race. */
  lemma FinishAgreesExactly(thisAgent: string, s: State, k: nat)
    requires Inv(thisAgent, s) && Agrees(s.held, s.log, s.clock) && Enabled(s, Finish(k))
    ensures var s' := Act(thisAgent, s, Finish(k));
            Agrees(s'.held, s'.log, s'.clock) <==> !Overtaken(s, s.calls[k])
  {
    var call := s.calls[k];
    var s' := Act(thisAgent, s, Finish(k));
    if Overtaken(s, call) {
      var g, i :| call.seen <= i && LiveLast(s, call.credential, g, i);
      LastThere(s.log, call.credential, g, i);
    } else if FoundExpired(call) {
      forall c | Last(s.log, c).Some? && Last(s.log, c).value.expiresAt >= s.clock
        ensures c in s'.held
      {
        if c == call.credential {
          var g := Last(s.log, c).value;
          var i := LastSomewhere(s.log, c);
          LiveIsLater(thisAgent, s, k, g, i);
          assert call.seen <= i && LiveLast(s, call.credential, g, i);
          assert Overtaken(s, call);
        }
      }
    }
  }

  /** No other step breaks it. */
  lemma OthersAgree(thisAgent: string, s: State, a: Action)
    requires Agrees(s.held, s.log, s.clock) && Enabled(s, a) && !a.Finish?
    ensures var s' := Act(thisAgent, s, a); Agrees(s'.held, s'.log, s'.clock)
  {
    if a.GrantArrives? && Accepts(thisAgent, a.grant) {
      GrantKeeps(s.held, s.log, s.clock, a.at, a.grant);
    }
  }

  ghost predicate AgreesAt(thisAgent: string, actions: seq<Action>, n: nat)
    requires n <= |actions|
  {
    var t := Run(thisAgent, actions[..n]);
    t.Some? && Agrees(t.value.held, t.value.log, t.value.clock)
  }

  ghost predicate OvertakenAt(thisAgent: string, actions: seq<Action>, n: nat)
    requires n < |actions|
  {
    var t := Run(thisAgent, actions[..n]);
    && actions[n].Finish? && t.Some? && actions[n].call in t.value.calls
    && Overtaken(t.value, t.value.calls[actions[n].call])
  }

  /** Over every interleaving: the store agrees with the log throughout exactly when no call is overtaken. */
  lemma {:induction false} RunAgreesExactly(thisAgent: string, actions: seq<Action>, s: State)
    requires Run(thisAgent, actions) == Some(s)
    ensures (forall n :: 0 <= n <= |actions| ==> AgreesAt(thisAgent, actions, n))
       <==> (forall n :: 0 <= n < |actions| ==> !OvertakenAt(thisAgent, actions, n))
    decreases |actions|
  {
    if actions == [] {
      forall n | 0 <= n <= |actions|
        ensures AgreesAt(thisAgent, actions, n)
      {
        assert actions[..n] == [];
      }
    } else {
      var m := |actions| - 1;
      var init := actions[..m];
      RunAgreesExactly(thisAgent, init, Run(thisAgent, init).value);
      AgreesUpTo(thisAgent, actions);
      OvertakenUpTo(thisAgent, actions);
      assert init[..m] == init;
      if AgreesAt(thisAgent, init, m) {
        LastStepAgrees(thisAgent, actions, Run(thisAgent, init).value, s);
      }
    }
  }

  lemma AgreesUpTo(thisAgent: string, actions: seq<Action>)
    requires actions != []
    ensures var m := |actions| - 1;
            (forall n :: 0 <= n <= m + 1 ==> AgreesAt(thisAgent, actions, n))
            <==> (forall n :: 0 <= n <= m ==> AgreesAt(thisAgent, actions[..m], n)) && AgreesAt(thisAgent, actions, m + 1)
  {
    var m := |actions| - 1;
    forall n: nat | n <= m
      ensures AgreesAt(thisAgent, actions, n) == AgreesAt(thisAgent, actions[..m], n)
    {
      assert actions[..m][..n] == actions[..n];
    }
  }

  lemma OvertakenUpTo(thisAgent: string, actions: seq<Action>)
    requires actions != []
    ensures var m := |actions| - 1;
            (forall n :: 0 <= n < m + 1 ==> !OvertakenAt(thisAgent, actions, n))
            <==> (forall n :: 0 <= n < m ==> !OvertakenAt(thisAgent, actions[..m], n)) && !OvertakenAt(thisAgent, actions, m)
  {
    var m := |actions| - 1;
    forall n: nat | n < m
      ensures OvertakenAt(thisAgent, actions, n) == OvertakenAt(thisAgent, actions[..m], n)
    {
      assert actions[..m][..n] == actions[..n];
    }
  }

  lemma LastStepAgrees(thisAgent: string, actions: seq<Action>, before: State, s: State)
    requires actions != [] && Run(thisAgent, actions[..|actions| - 1]) == Some(before)
    requires Run(thisAgent, actions) == Some(s)
    requires Agrees(before.held, before.log, before.clock)
    ensures AgreesAt(thisAgent, actions, |actions|) <==> !OvertakenAt(thisAgent, actions, |actions| - 1)
  {
    assert actions[..|actions|] == actions;
    var a := actions[|actions| - 1];
    RunsKeepInv(thisAgent, actions[..|actions| - 1], before);
    if a.Finish? {
      FinishAgreesExactly(thisAgent, before, a.call);
    } else {
      OthersAgree(thisAgent, before, a);
    }
  }

  // ---------- what is still lost at the end ----------

  /**
   The `n`-th step forgot the `i`-th acceptance, of `g` for `c`, which in the end is still the
   last for `c` and still live.
   */
  ghost predicate LostAt(thisAgent: string, actions: seq<Action>, n: nat, s: State, c: string, g: Granted, i: nat) {
    && n < |actions| && actions[n].Finish?
    && var t := Run(thisAgent, actions[..n]);
    && t.Some? && actions[n].call in t.value.calls
    && var call := t.value.calls[actions[n].call];
    && FoundExpired(call) && call.credential == c && call.seen <= i < |t.value.log|
    && LiveLast(s, c, g, i)
  }

  lemma {:induction false} LogGrows(thisAgent: string, actions: seq<Action>, n: nat, s: State)
    requires n <= |actions| && Run(thisAgent, actions) == Some(s)
    ensures Run(thisAgent, actions[..n]).Some? && Run(thisAgent, actions[..n]).value.log <= s.log
    decreases |actions|
  {
    if n == |actions| {
      assert actions[..n] == actions;
    } else {
      var init := actions[..|actions| - 1];
      LogGrows(thisAgent, init, n, Run(thisAgent, init).value);
      assert init[..n] == actions[..n];
    }
  }

  /** A last grant before the last step is either still the last, or the last step granted the string again. */
  lemma LiveBefore(thisAgent: string, before: State, a: Action, c: string, g: Granted, i: nat)
    requires Enabled(before, a) && (a.Start? || a.GrantArrives? || a.Copy? || a.Finish?)
    requires LiveLast(Act(thisAgent, before, a), c, g, i)
    ensures if i < |before.log| then LiveLast(before, c, g, i) && !(a.GrantArrives? && Accepts(thisAgent, a.grant) && a.grant.credential == c)
            else a.GrantArrives? && Accepts(thisAgent, a.grant) && a.grant.credential == c && GrantedOf(a.grant) == g
  {
    if a.GrantArrives? && Accepts(thisAgent, a.grant) {
      IsLastAtAppend(before.log, Accepted(a.grant.credential, GrantedOf(a.grant)), c, g, i);
    }
  }

  /**
   At the end of every interleaving: a live last grant is missing from the store exactly when a
   call that had found an earlier, expired one forgot it.
   */
  lemma {:induction false} MissingExactly(thisAgent: string, actions: seq<Action>, s: State, c: string, g: Granted, i: nat)
    requires Run(thisAgent, actions) == Some(s) && LiveLast(s, c, g, i)
    ensures c !in s.held <==> exists n :: LostAt(thisAgent, actions, n, s, c, g, i)
    decreases |actions|
  {
    if actions != [] {
      var m := |actions| - 1;
      var init, a := actions[..m], actions[m];
      var before := Run(thisAgent, init).value;
      RunsKeepInv(thisAgent, init, before);
      LiveBefore(thisAgent, before, a, c, g, i);
      if i < |before.log| {
        MissingExactly(thisAgent, init, before, c, g, i);
        LastThere(before.log, c, g, i);
        forall n: nat | n < m
          ensures LostAt(thisAgent, actions, n, s, c, g, i) <==> LostAt(thisAgent, init, n, before, c, g, i)
        {
          assert init[..n] == actions[..n];
        }
        if a.Finish? && FoundExpired(before.calls[a.call]) && before.calls[a.call].credential == c {
          LiveIsLater(thisAgent, before, a.call, g, i);
          assert LostAt(thisAgent, actions, m, s, c, g, i);
        }
      } else {
        forall n: nat | n < |actions|
          ensures !LostAt(thisAgent, actions, n, s, c, g, i)
        {
          LogGrows(thisAgent, init, n, before);
          assert init[..n] == actions[..n];
        }
      }
    }
  }

  /** So a run ends in agreement with the log exactly when nothing is lost for good. */
  lemma EndAgreesExactly(thisAgent: string, actions: seq<Action>, s: State)
    requires Run(thisAgent, actions) == Some(s)
    ensures Agrees(s.held, s.log, s.clock) <==> !exists n, c, g, i :: LostAt(thisAgent, actions, n, s, c, g, i)
  {
    RunsKeepInv(thisAgent, actions, s);
    forall n, c, g, i | LostAt(thisAgent, actions, n, s, c, g, i)
      ensures !Agrees(s.held, s.log, s.clock)
    {
      MissingExactly(thisAgent, actions, s, c, g, i);
      LastThere(s.log, c, g, i);
    }
    forall c | c !in s.held && Last(s.log, c).Some? && Last(s.log, c).value.expiresAt >= s.clock
      ensures exists n, g, i :: LostAt(thisAgent, actions, n, s, c, g, i)
    {
      var i := LastSomewhere(s.log, c);
      MissingExactly(thisAgent, actions, s, c, Last(s.log, c).value, i);
    }
  }

  /** No credential string is granted twice. */
  ghost predicate NoRegrant(log: seq<Accepted>) {
    forall i, j :: 0 <= i < j < |log| ==> log[i].credential != log[j].credential
  }

  lemma GrantedOnce(log: seq<Accepted>, c: string, i: nat, j: nat)
    requires NoRegrant(log) && i < |log| && j < |log|
    requires log[i].credential == c && log[j].credential == c
    ensures i == j
  {}

  /** With credentials that are never granted twice, every interleaving agrees with the log. */
  lemma FreshCredentialsAgree(thisAgent: string, actions: seq<Action>, s: State)
    requires Run(thisAgent, actions) == Some(s) && NoRegrant(s.log)
    ensures Agrees(s.held, s.log, s.clock)
  {
    forall n: nat, c: string, g: Granted, i: nat
      ensures !LostAt(thisAgent, actions, n, s, c, g, i)
    {
      if LostAt(thisAgent, actions, n, s, c, g, i) {
        var t := Run(thisAgent, actions[..n]).value;
        var call := t.calls[actions[n].call];
        LogGrows(thisAgent, actions, n, s);
        RunsKeepInv(thisAgent, actions[..n], t);
        assert CallFits(t, call);
        var j := LastSomewhere(t.log[..call.seen], c);
        GrantedOnce(s.log, c, i, j);
      }
    }
    EndAgreesExactly(thisAgent, actions, s);
  }

  lemma RunStep(thisAgent: string, actions: seq<Action>, s: State, a: Action)
    requires Run(thisAgent, actions) == Some(s) && Enabled(s, a)
    ensures Run(thisAgent, actions + [a]) == Some(Act(thisAgent, s, a))
  {
    assert (actions + [a])[..|actions|] == actions;
  }

  /**
   Without that, the agreement can fail: a call that copied an expired entry forgets the entry
   a second grant has put in its place meanwhile.
   */
  lemma RegrantCanBeLost(thisAgent: string, scope: Scope) returns (actions: seq<Action>, s: State)
    ensures Run(thisAgent, actions) == Some(s)
    ensures "c" !in s.held && LogAnswer(s.log, "c", s.clock).Some?
  {
    var older := Granted(thisAgent, "s", scope, 1);
    var fresher := Granted(thisAgent, "s", scope, 9);
    actions, s := [], EMPTY;
    actions, s := Extend(thisAgent, actions, s, GrantArrives(P2pGrant("c", thisAgent, "s", scope, Some(1)), 0));
    assert s.held["c"] == older;
    actions, s := Extend(thisAgent, actions, s, Start(0, "c", 5));
    actions, s := Extend(thisAgent, actions, s, Copy(0));
    assert s.calls[0] == Copied("c", 5, Some(older), |s.log|);
    var log := s.log;
    actions, s := Extend(thisAgent, actions, s, GrantArrives(P2pGrant("c", thisAgent, "s", scope, Some(9)), 5));
    assert s.log == log + [Accepted("c", fresher)];
    LastAppend(log, Accepted("c", fresher), "c");
    actions, s := Extend(thisAgent, actions, s, Finish(0));
  }

  lemma Extend(thisAgent: string, actions: seq<Action>, s: State, a: Action)
    returns (actions': seq<Action>, s': State)
    requires Run(thisAgent, actions) == Some(s) && Enabled(s, a)
    ensures actions' == actions + [a] && s' == Act(thisAgent, s, a)
    ensures Run(thisAgent, actions') == Some(s')
  {
    RunStep(thisAgent, actions, s, a);
    actions', s' := actions + [a], Act(thisAgent, s, a);
  }
}
