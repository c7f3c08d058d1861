/** `ModelInstance._round_robin_invoke`: failover over the configurations of a load
    balancing manager. */
module Failover {
  import opened LbConfigs
  import opened LoadBalancer
  import opened Rotation
  import opened Wrappers

  // ---------- _round_robin_invoke ----------

  /** What invoking the model with the credentials of a configuration comes to. */
  datatype Outcome =
    | Success(value: string)
    | RateLimitError(message: string)
    | AuthorizationError(message: string)
    | ConnectionError(message: string)
    | OtherError(message: string)

  predicate Recoverable(o: Outcome) {
    o.RateLimitError? || o.AuthorizationError? || o.ConnectionError?
  }

  /** One round of the failover loop. */
  datatype Round = Refused(config: Config) | Invoked(config: Config, outcome: Outcome)

  datatype Reply = Return(value: string) | Raise(outcome: Outcome) | NotInitialized | DivisionByZero

  /** The replies that end the loop at once, and those at its end. */
  predicate Final(r: Reply) {
    r.Return? || (r.Raise? && !Recoverable(r.outcome))
  }

  predicate GivesUp(r: Reply) {
    r.NotInitialized? || (r.Raise? && Recoverable(r.outcome))
  }

  predicate Continues(r: Round) {
    r.Invoked? ==> Recoverable(r.outcome)
  }

  function Penalty(r: Round): nat {
    if r.Invoked? && (r.outcome.AuthorizationError? || r.outcome.ConnectionError?) then 10 else 60
  }

  /** The cooldowns after rounds that all continued. */
  function Penalised(cooldowns: map<string, int>, now: int, log: seq<Round>): map<string, int> {
    if log == [] then cooldowns
    else
      var last := log[|log| - 1];
      Penalised(cooldowns, now, log[..|log| - 1])[last.config.id := now + Penalty(last)]
  }

  /** What the loop raises when no configuration is left. */
  function LastFailure(log: seq<Round>): Reply {
    if log == [] then NotInitialized
    else if log[|log| - 1].Invoked? then Raise(log[|log| - 1].outcome)
    else LastFailure(log[..|log| - 1])
  }

  /** The log says what the policies and the model say. */
  ghost predicate Truthful(outcome: Config -> Outcome, policy: string -> bool, recheck: string -> bool, log: seq<Round>) {
    forall k :: 0 <= k < |log| ==>
      (&& Complies(policy, log[k].config)
       && (log[k].Refused? <==> !Complies(recheck, log[k].config))
       && (log[k].Invoked? ==> log[k].outcome == outcome(log[k].config)))
  }

  ghost predicate AllContinue(log: seq<Round>) {
    forall k :: 0 <= k < |log| ==> Continues(log[k])
  }

  function TriedIds(log: seq<Round>): set<string> {
    if log == [] then {} else TriedIds(log[..|log| - 1]) + {log[|log| - 1].config.id}
  }

  /** Every configuration tried is one of the list and was not cooling to begin with,
      and none was tried before. */
  ghost predicate Fresh(configs: seq<Config>, cooldowns: map<string, int>, now: int, log: seq<Round>) {
    log == [] ||
    (var front, config := log[..|log| - 1], log[|log| - 1].config;
     && Fresh(configs, cooldowns, now, front)
     && config in configs && !Cooling(cooldowns, now, config)
     && config.id !in TriedIds(front))
  }

  lemma {:induction false} TriedAt(log: seq<Round>, id: string)
    ensures id in TriedIds(log) <==> exists k :: 0 <= k < |log| && log[k].config.id == id
  {
    if log != [] {
      TriedAt(log[..|log| - 1], id);
      if id in TriedIds(log) {
        if id == log[|log| - 1].config.id {
        } else {
          var k :| 0 <= k < |log| - 1 && log[..|log| - 1][k].config.id == id;
          assert log[k].config.id == id;
        }
      }
      if exists k :: 0 <= k < |log| && log[k].config.id == id {
        var k :| 0 <= k < |log| && log[k].config.id == id;
        assert k < |log| - 1 ==> log[..|log| - 1][k].config.id == id;
      }
    }
  }

  /** Each configuration is tried at most once. */
  lemma {:induction false} FreshTriesOnce(configs: seq<Config>, cooldowns: map<string, int>, now: int, log: seq<Round>)
    requires Fresh(configs, cooldowns, now, log)
    ensures forall k, l :: 0 <= k < l < |log| ==> log[k].config.id != log[l].config.id
  {
    if log != [] {
      var front := log[..|log| - 1];
      FreshTriesOnce(configs, cooldowns, now, front);
      TriedAt(front, log[|log| - 1].config.id);
      forall k, l | 0 <= k < l < |log| ensures log[k].config.id != log[l].config.id {
        assert log[k] == front[k];
        if l < |front| {
          assert log[l] == front[l];
        }
      }
    }
  }

  function Ids(configs: seq<Config>): set<string> {
    set c | c in configs :: c.id
  }

  lemma {:induction false} IdsSize(configs: seq<Config>)
    ensures |Ids(configs)| <= |configs|
  {
    if configs != [] {
      var front := configs[..|configs| - 1];
      IdsSize(front);
      assert configs == front + [configs[|configs| - 1]];
      assert Ids(configs) == Ids(front) + {configs[|configs| - 1].id};
    }
  }

  lemma {:induction false} TriedSize(configs: seq<Config>, cooldowns: map<string, int>, now: int, log: seq<Round>)
    requires Fresh(configs, cooldowns, now, log)
    ensures |TriedIds(log)| == |log|
    ensures TriedIds(log) <= Ids(configs)
  {
    if log != [] {
      TriedSize(configs, cooldowns, now, log[..|log| - 1]);
    }
  }

  lemma SubsetSize<T>(a: set<T>, b: set<T>)
    requires a <= b
    ensures |a| <= |b|
  {
    assert b == a + (b - a);
  }

  /** No configuration twice: at most as many rounds as configurations. */
  lemma FreshBound(configs: seq<Config>, cooldowns: map<string, int>, now: int, log: seq<Round>)
    requires Fresh(configs, cooldowns, now, log)
    ensures |log| <= |configs|
  {
    TriedSize(configs, cooldowns, now, log);
    IdsSize(configs);
    SubsetSize(TriedIds(log), Ids(configs));
  }

  /** Cooling now is what was cooling before, and what was tried. */
  lemma {:induction false} PenalisedCools(cooldowns: map<string, int>, now: int, log: seq<Round>, c: Config)
    ensures Cooling(Penalised(cooldowns, now, log), now, c)
       <==> Cooling(cooldowns, now, c) || c.id in TriedIds(log)
  {
    if log != [] {
      PenalisedCools(cooldowns, now, log[..|log| - 1], c);
    }
  }

  lemma {:induction false} FreshMembers(configs: seq<Config>, cooldowns: map<string, int>, now: int, log: seq<Round>)
    requires Fresh(configs, cooldowns, now, log)
    ensures forall k :: 0 <= k < |log| ==> log[k].config in configs
  {
    if log != [] {
      var front := log[..|log| - 1];
      FreshMembers(configs, cooldowns, now, front);
      forall k | 0 <= k < |log| ensures log[k].config in configs {
        if k < |front| {
          assert log[k] == front[k];
        }
      }
    }
  }

  /** Every configuration is accounted for when the loop gives up. */
  ghost predicate Accounted(configs: seq<Config>, cooldowns: map<string, int>, now: int,
                            policy: string -> bool, log: seq<Round>) {
    forall i :: 0 <= i < |configs| ==>
      || Cooling(cooldowns, now, configs[i])
      || !Complies(policy, configs[i])
      || exists k :: 0 <= k < |log| && log[k].config == configs[i]
  }

  /** From counter value v the rounds make that many increments, each round taking the
      first configuration in rotation order that was available at that moment. */
  ghost predicate InRotation(configs: seq<Config>, v: nat, cooldowns: map<string, int>, now: int,
                             policy: string -> bool, log: seq<Round>, increments: nat)
    requires configs != []
  {
    if log == [] then increments == 0
    else
      var front, last := log[..|log| - 1], log[|log| - 1];
      exists before: nat, j: nat ::
        && InRotation(configs, v, cooldowns, now, policy, front, before)
        && FirstAvailable(configs, Nth(v, before), j, Penalised(cooldowns, now, front), now, policy)
        && last.config == Candidate(configs, Nth(v, before), j) && increments == before + j + 1
  }

  lemma RotationGoesOn(configs: seq<Config>, v: nat, cooldowns: map<string, int>, now: int,
                       policy: string -> bool, log: seq<Round>, before: nat, j: nat, r: Round)
    requires configs != [] && InRotation(configs, v, cooldowns, now, policy, log, before)
    requires FirstAvailable(configs, Nth(v, before), j, Penalised(cooldowns, now, log), now, policy)
    requires r.config == Candidate(configs, Nth(v, before), j)
    ensures InRotation(configs, v, cooldowns, now, policy, log + [r], before + j + 1)
  {
    hide FirstAvailable, Penalised, Candidate, Nth;
    assert (log + [r])[..|log + [r]| - 1] == log;
  }

  lemma CandidateLater(configs: seq<Config>, v: nat, i: nat, j: nat)
    requires configs != []
    ensures Candidate(configs, Nth(v, i), j) == Candidate(configs, v, i + j)
  {
    VisitedLater(v, i, j, |configs|);
    hide Visited;
  }

  lemma NoneBeforeLater(configs: seq<Config>, v: nat, i: nat, j: nat,
                        cooldowns: map<string, int>, now: int, policy: string -> bool)
    requires configs != []
    requires NoneBefore(configs, v, i, cooldowns, now, policy)
    requires NoneBefore(configs, Nth(v, i), j, cooldowns, now, policy)
    ensures NoneBefore(configs, v, i + j, cooldowns, now, policy)
  {
    forall k | 0 <= k < i + j ensures !Available(cooldowns, now, policy, Candidate(configs, v, k)) {
      if k >= i {
        CandidateLater(configs, v, i, k - i);
      }
    }
  }

  /** What the rounds have passed over stays unavailable, and so does what they tried:
      the policy is fixed and cooldowns only come on top. */
  lemma {:induction false} SweptByRounds(configs: seq<Config>, v: nat, cooldowns: map<string, int>, now: int,
                                         policy: string -> bool, log: seq<Round>, increments: nat)
    requires configs != [] && InRotation(configs, v, cooldowns, now, policy, log, increments)
    ensures NoneBefore(configs, v, increments, Penalised(cooldowns, now, log), now, policy)
  {
    if log != [] {
      var front, last := log[..|log| - 1], log[|log| - 1];
      var before: nat, j: nat :|
        && InRotation(configs, v, cooldowns, now, policy, front, before)
        && FirstAvailable(configs, Nth(v, before), j, Penalised(cooldowns, now, front), now, policy)
        && last.config == Candidate(configs, Nth(v, before), j) && increments == before + j + 1;
      SweptByRounds(configs, v, cooldowns, now, policy, front, before);
      NoneBeforeLater(configs, v, before, j, Penalised(cooldowns, now, front), now, policy);
      CandidateLater(configs, v, before, j);
      hide InRotation, FirstAvailable, Candidate, Nth;
      forall k | 0 <= k < increments
        ensures !Available(Penalised(cooldowns, now, log), now, policy, Candidate(configs, v, k))
      {
        PenalisedCools(cooldowns, now, front, Candidate(configs, v, k));
        PenalisedCools(cooldowns, now, log, Candidate(configs, v, k));
        hide Penalised, Cooling;
        if k < before + j {
          assert !Available(Penalised(cooldowns, now, front), now, policy, Candidate(configs, v, k));
        }
      }
    }
  }

  /** All tries of a call fall within its first n increments, if these are undisturbed:
      they reach every configuration, and none is available twice. */
  lemma TriesWithinOneTurn(configs: seq<Config>, v: nat, cooldowns: map<string, int>, now: int,
                           policy: string -> bool, log: seq<Round>, increments: nat)
    requires configs != [] && Undisturbed(v, |configs|)
    requires InRotation(configs, v, cooldowns, now, policy, log, increments)
    ensures increments <= |configs|
  {
    if log != [] {
      var front, last := log[..|log| - 1], log[|log| - 1];
      var p := Penalised(cooldowns, now, front);
      var before: nat, j: nat :|
        && InRotation(configs, v, cooldowns, now, policy, front, before)
        && FirstAvailable(configs, Nth(v, before), j, p, now, policy)
        && last.config == Candidate(configs, Nth(v, before), j) && increments == before + j + 1;
      SweptByRounds(configs, v, cooldowns, now, policy, front, before);
      NoneBeforeLater(configs, v, before, j, p, now, policy);
      ChosenIsFresh(configs, Nth(v, before), j, cooldowns, now, policy, front);
      assert Available(p, now, policy, last.config);
      if before + j >= |configs| {
        CoveredUnavailable(configs, v, p, now, policy);
      }
    }
  }

  /** How a call that found nothing more ends: a whole fruitless turn after the tries. */
  ghost predicate Exhausted(configs: seq<Config>, v: nat, cooldowns: map<string, int>, now: int,
                            policy: string -> bool, log: seq<Round>, increments: nat)
    requires configs != []
  {
    && increments >= |configs|
    && InRotation(configs, v, cooldowns, now, policy, log, increments - |configs|)
    && NoneBefore(configs, Nth(v, increments - |configs|), |configs|, Penalised(cooldowns, now, log), now, policy)
  }

  lemma ExhaustedAccounts(configs: seq<Config>, v: nat, cooldowns: map<string, int>, now: int,
                          policy: string -> bool, log: seq<Round>, increments: nat)
    requires configs != [] && UniqueIds(configs) && Undisturbed(v, |configs|)
    requires Fresh(configs, cooldowns, now, log)
    requires Exhausted(configs, v, cooldowns, now, policy, log, increments)
    ensures Accounted(configs, cooldowns, now, policy, log) && increments <= 2 * |configs|
  {
    var p, tries := Penalised(cooldowns, now, log), increments - |configs|;
    TriesWithinOneTurn(configs, v, cooldowns, now, policy, log, tries);
    SweptByRounds(configs, v, cooldowns, now, policy, log, tries);
    NoneBeforeLater(configs, v, tries, |configs|, p, now, policy);
    CoveredUnavailable(configs, v, p, now, policy);
    FreshMembers(configs, cooldowns, now, log);
    hide InRotation, NoneBefore, Undisturbed, Fresh, Penalised;
    forall i | 0 <= i < |configs| && !Cooling(cooldowns, now, configs[i]) && Complies(policy, configs[i])
      ensures exists k :: 0 <= k < |log| && log[k].config == configs[i]
    {
      assert !Available(p, now, policy, configs[i]);
      PenalisedCools(cooldowns, now, log, configs[i]);
      TriedAt(log, configs[i].id);
      var k :| 0 <= k < |log| && log[k].config.id == configs[i].id;
      assert log[k].config in configs;
    }
  }

  ghost predicate AccountsAlways(configs: seq<Config>, v: nat)
    requires configs != []
  {
    forall cooldowns: map<string, int>, now: int, policy: string -> bool, log: seq<Round>, increments: nat ::
      Fresh(configs, cooldowns, now, log) && Exhausted(configs, v, cooldowns, now, policy, log, increments) ==>
        Accounted(configs, cooldowns, now, policy, log)
  }

  /** Failover from counter value v is complete, whatever the cooldowns, the policy and
      the failures, if and only if the first n increments are undisturbed by the wrap. */
  lemma CompleteExactly(configs: seq<Config>, v: nat)
    requires configs != [] && UniqueIds(configs)
    ensures AccountsAlways(configs, v) <==> Undisturbed(v, |configs|)
  {
    if Undisturbed(v, |configs|) {
      forall cooldowns: map<string, int>, now: int, policy: string -> bool, log: seq<Round>, increments: nat
        | Fresh(configs, cooldowns, now, log) && Exhausted(configs, v, cooldowns, now, policy, log, increments)
        ensures Accounted(configs, cooldowns, now, policy, log)
      {
        ExhaustedAccounts(configs, v, cooldowns, now, policy, log, increments);
      }
    }
    if AccountsAlways(configs, v) {
      forall cooldowns: map<string, int>, now: int, policy: string -> bool
        | NoneBefore(configs, v, |configs|, cooldowns, now, policy)
        ensures AllUnavailable(configs, cooldowns, now, policy)
      {
        assert Exhausted(configs, v, cooldowns, now, policy, [], |configs|);
        assert Fresh(configs, cooldowns, now, []);
        assert Accounted(configs, cooldowns, now, policy, []);
      }
      assert TellsTheTruth(configs, v);
      UnavailableMeansAll(configs, v);
    }
  }

  // ---------- what a call promises, said without the functions above ----------

  /** Every configuration tried was allowed; it is refused exactly if the second look at the
      policy refuses it, and otherwise invoked. */
  ghost predicate Consults(outcome: Config -> Outcome, policy: string -> bool, recheck: string -> bool, log: seq<Round>) {
    forall k :: 0 <= k < |log| ==>
      var c := log[k].config;
      && (c.credentialId != "" ==> policy(c.credentialId))
      && (log[k].Refused? <==> c.credentialId != "" && !recheck(c.credentialId))
      && (log[k].Invoked? ==> log[k].outcome == outcome(c))
  }

  /** A configuration cools for a minute when it was refused or met its rate limit, for ten
      seconds when authorization or connection failed, and otherwise as before. */
  ghost predicate CoolsDown(before: map<string, int>, after: map<string, int>, now: int, log: seq<Round>) {
    && (forall k :: 0 <= k < |log| && (log[k].Refused? || log[k].outcome.RateLimitError?) ==>
          log[k].config.id in after && after[log[k].config.id] == now + 60)
    && (forall k :: 0 <= k < |log| && log[k].Invoked?
                    && (log[k].outcome.AuthorizationError? || log[k].outcome.ConnectionError?) ==>
          log[k].config.id in after && after[log[k].config.id] == now + 10)
    && (forall id :: Unharmed(log, id) ==>
          (id in before <==> id in after) && (id in after ==> after[id] == before[id]))
  }

  ghost predicate Unharmed(log: seq<Round>, id: string) {
    forall k :: 0 <= k < |log| && log[k].config.id == id ==>
      log[k].Invoked? && (log[k].outcome.Success? || log[k].outcome.OtherError?)
  }

  /** The round neither answered nor failed for good. */
  ghost predicate WentOn(r: Round) {
    r.Refused? || r.outcome.RateLimitError? || r.outcome.AuthorizationError? || r.outcome.ConnectionError?
  }

  /** An answer or an unknown error comes from the last round and only from there; without one
      the last invocation's error is raised, or the not-initialised error if there was none. */
  ghost predicate Replies(r: Reply, log: seq<Round>) {
    match r
    case Return(value) => EndsWith(log, Success(value))
    case Raise(OtherError(message)) => EndsWith(log, OtherError(message))
    case Raise(o) =>
      && (forall k :: 0 <= k < |log| ==> WentOn(log[k]))
      && exists k :: 0 <= k < |log| && log[k].Invoked? && log[k].outcome == o
                     && forall l :: k < l < |log| ==> log[l].Refused?
    case NotInitialized => forall k :: 0 <= k < |log| ==> log[k].Refused?
    case DivisionByZero => log == []
  }

  ghost predicate EndsWith(log: seq<Round>, o: Outcome) {
    && log != [] && log[|log| - 1].Invoked? && log[|log| - 1].outcome == o
    && forall k :: 0 <= k < |log| - 1 ==> WentOn(log[k])
  }

  lemma {:induction false} PenalisedAt(configs: seq<Config>, cooldowns: map<string, int>, now: int, log: seq<Round>, k: nat)
    requires Fresh(configs, cooldowns, now, log) && k < |log|
    ensures var after := Penalised(cooldowns, now, log);
            log[k].config.id in after && after[log[k].config.id] == now + Penalty(log[k])
    decreases |log|
  {
    if k < |log| - 1 {
      FreshTriesOnce(configs, cooldowns, now, log);
      PenalisedAt(configs, cooldowns, now, log[..|log| - 1], k);
    }
  }

  lemma {:induction false} PenalisedElse(cooldowns: map<string, int>, now: int, log: seq<Round>, id: string)
    requires forall k :: 0 <= k < |log| ==> log[k].config.id != id
    ensures var after := Penalised(cooldowns, now, log);
            (id in cooldowns <==> id in after) && (id in after ==> after[id] == cooldowns[id])
  {
    if log != [] {
      PenalisedElse(cooldowns, now, log[..|log| - 1], id);
    }
  }

  /** The rounds up to k are over; k is the length of the log, or one less when the last
      round ended the call. */
  lemma RoundsCoolDown(configs: seq<Config>, cooldowns: map<string, int>, now: int, log: seq<Round>, k: nat)
    requires k <= |log| <= k + 1 && Fresh(configs, cooldowns, now, log[..k]) && AllContinue(log[..k])
    requires k < |log| ==> log[k].Invoked? && (log[k].outcome.Success? || log[k].outcome.OtherError?)
    ensures CoolsDown(cooldowns, Penalised(cooldowns, now, log[..k]), now, log)
  {
    hide Fresh, Penalised, AllContinue, Continues, Penalty;
    var front := log[..k];
    forall i | 0 <= i < k ensures CoolsAt(Penalised(cooldowns, now, front), now, log[i]) {
      assert front[i] == log[i];
      PenalisedAt(configs, cooldowns, now, front, i);
      PenaltyCools(Penalised(cooldowns, now, front), now, front, i);
    }
    forall id | Unharmed(log, id)
      ensures var after := Penalised(cooldowns, now, front);
              (id in cooldowns <==> id in after) && (id in after ==> after[id] == cooldowns[id])
    {
      forall i | 0 <= i < |front| ensures front[i].config.id != id {
        assert front[i] == log[i] && CoolsAt(Penalised(cooldowns, now, front), now, log[i]);
      }
      PenalisedElse(cooldowns, now, front, id);
    }
  }

  ghost predicate CoolsAt(after: map<string, int>, now: int, r: Round) {
    && WentOn(r) && r.config.id in after
    && after[r.config.id] == now + if r.Refused? || r.outcome.RateLimitError? then 60 else 10
  }

  lemma PenaltyCools(after: map<string, int>, now: int, log: seq<Round>, k: nat)
    requires k < |log| && AllContinue(log)
    requires log[k].config.id in after && after[log[k].config.id] == now + Penalty(log[k])
    ensures CoolsAt(after, now, log[k])
  {
    assert Continues(log[k]);
  }

  lemma PenalisedCoolsDown(configs: seq<Config>, cooldowns: map<string, int>, now: int, log: seq<Round>)
    requires Fresh(configs, cooldowns, now, log) && AllContinue(log)
    ensures CoolsDown(cooldowns, Penalised(cooldowns, now, log), now, log)
  {
    hide CoolsDown, Fresh, AllContinue, Penalised;
    assert log[..|log|] == log;
    RoundsCoolDown(configs, cooldowns, now, log, |log|);
  }

  lemma FinalCoolsDown(configs: seq<Config>, cooldowns: map<string, int>, now: int, log: seq<Round>)
    requires log != [] && Fresh(configs, cooldowns, now, log) && AllContinue(log[..|log| - 1])
    requires log[|log| - 1].Invoked? && (log[|log| - 1].outcome.Success? || log[|log| - 1].outcome.OtherError?)
    ensures CoolsDown(cooldowns, Penalised(cooldowns, now, log[..|log| - 1]), now, log)
  {
    hide CoolsDown, AllContinue, Penalised;
    RoundsCoolDown(configs, cooldowns, now, log, |log| - 1);
  }

  lemma {:induction false} LastInvoked(log: seq<Round>) returns (k: int)
    ensures -1 <= k < |log| && forall l :: k < l < |log| ==> log[l].Refused?
    ensures if k == -1 then LastFailure(log) == NotInitialized
            else log[k].Invoked? && LastFailure(log) == Raise(log[k].outcome)
  {
    if log == [] {
      k := -1;
    } else if log[|log| - 1].Invoked? {
      k := |log| - 1;
    } else {
      var front := log[..|log| - 1];
      k := LastInvoked(front);
      assert forall l :: 0 <= l < |front| ==> log[l] == front[l];
    }
  }

  lemma LastFailureReplies(log: seq<Round>)
    requires AllContinue(log)
    ensures Replies(LastFailure(log), log)
  {
    var k := LastInvoked(log);
    hide LastFailure;
    assert forall l :: 0 <= l < |log| ==> Continues(log[l]);
  }

  lemma TruthfulConsults(outcome: Config -> Outcome, policy: string -> bool, recheck: string -> bool, log: seq<Round>)
    requires Truthful(outcome, policy, recheck, log)
    ensures Consults(outcome, policy, recheck, log)
  {
  }

  lemma GaveUp(configs: seq<Config>, cooldowns: map<string, int>, now: int, outcome: Config -> Outcome,
               policy: string -> bool, recheck: string -> bool, log: seq<Round>)
    requires Fresh(configs, cooldowns, now, log) && Truthful(outcome, policy, recheck, log) && AllContinue(log)
    ensures Consults(outcome, policy, recheck, log) && Replies(LastFailure(log), log)
    ensures CoolsDown(cooldowns, Penalised(cooldowns, now, log), now, log)
  {
    hide Consults, Replies, CoolsDown, Fresh, Truthful, AllContinue, Penalised, LastFailure;
    TruthfulConsults(outcome, policy, recheck, log);
    LastFailureReplies(log);
    PenalisedCoolsDown(configs, cooldowns, now, log);
  }

  lemma Answered(configs: seq<Config>, cooldowns: map<string, int>, now: int, outcome: Config -> Outcome,
                 policy: string -> bool, recheck: string -> bool, log: seq<Round>, r: Reply)
    requires Fresh(configs, cooldowns, now, log) && Truthful(outcome, policy, recheck, log)
    requires log != [] && AllContinue(log[..|log| - 1]) && log[|log| - 1].Invoked?
    requires (r.Return? && log[|log| - 1].outcome == Success(r.value))
          || (r.Raise? && r.outcome.OtherError? && log[|log| - 1].outcome == r.outcome)
    ensures Consults(outcome, policy, recheck, log) && Replies(r, log)
    ensures CoolsDown(cooldowns, Penalised(cooldowns, now, log[..|log| - 1]), now, log)
  {
    TruthfulConsults(outcome, policy, recheck, log);
    FinalReplies(log, log[|log| - 1].outcome);
    FinalCoolsDown(configs, cooldowns, now, log);
    hide CoolsDown, Consults, EndsWith;
  }

  lemma FinalReplies(log: seq<Round>, o: Outcome)
    requires log != [] && AllContinue(log[..|log| - 1])
    requires log[|log| - 1].Invoked? && log[|log| - 1].outcome == o
    ensures EndsWith(log, o)
  {
    var front := log[..|log| - 1];
    assert forall k :: 0 <= k < |front| ==> front[k] == log[k] && Continues(front[k]);
  }

  class ModelInstance {
    const manager: LBModelManager

    constructor (manager: LBModelManager)
      ensures this.manager == manager
    {
      this.manager := manager;
    }

    /** The failover loop, with the clock standing still. `policy` is what `fetch_next`
        sees of the credential policy, `recheck` what the loop itself sees; `outcome`
        is what each configuration would answer. The log lists the rounds. */
    method RoundRobinInvoke(outcome: Config -> Outcome, policy: string -> bool, recheck: string -> bool)
      returns (r: Reply, log: seq<Round>, increments: nat)
      requires UniqueIds(manager.configs)
      modifies manager.store`counter, manager.store`counterExpires, manager.store`cooldowns
      ensures Fresh(manager.configs, old(manager.store.cooldowns), manager.store.now, log)
      ensures |log| <= |manager.configs|
      ensures Consults(outcome, policy, recheck, log) && Replies(r, log)
      ensures CoolsDown(old(manager.store.cooldowns), manager.store.cooldowns, manager.store.now, log)
      ensures r.DivisionByZero? <==> manager.configs == []
      ensures manager.store.counterExpires == Some(manager.store.now + 3600)
      ensures !r.DivisionByZero? ==> manager.store.LiveCounter() == Nth(old(manager.store.LiveCounter()), increments)
      // every round takes the first configuration of the rotation that is available
      ensures Final(r) ==>
                InRotation(manager.configs, old(manager.store.LiveCounter()), old(manager.store.cooldowns),
                           manager.store.now, policy, log, increments)
      ensures GivesUp(r) ==>
                Exhausted(manager.configs, old(manager.store.LiveCounter()), old(manager.store.cooldowns),
                          manager.store.now, policy, log, increments)
      // one turn for the tries and one to find that nothing is left
      ensures !r.DivisionByZero? && Undisturbed(old(manager.store.LiveCounter()), |manager.configs|) ==>
                && increments <= (if GivesUp(r) then 2 * |manager.configs| else |manager.configs|)
                && (GivesUp(r) ==>
                      Accounted(manager.configs, old(manager.store.cooldowns), manager.store.now, policy, log))
    {
      hide Underway, LastFailure, Undisturbed, NoneBefore, FirstAvailable, Nth, Accounted, Candidate, InRotation,
        Consults, Replies, CoolsDown, Serves, PassesOver, Cooling, Fresh, Exhausted;
      var store, n := manager.store, |manager.configs|;
      ghost var v, before := store.LiveCounter(), store.cooldowns;
      log, increments := [], 0;
      NothingNoted(manager.configs, v, before, store.now, outcome, policy, recheck);
      var lastFailure: Option<Outcome> := None;
      while true
        invariant Underway(manager.configs, outcome, policy, recheck, v, before, store.now, log, store.cooldowns, increments)
        invariant LastFailure(log) == if lastFailure.None? then NotInitialized else Raise(lastFailure.value)
        invariant lastFailure.Some? ==> Recoverable(lastFailure.value)
        invariant |log| <= n && store.LiveCounter() == Nth(v, increments)
        decreases n - |log|
      {
        var fetched, rounds := manager.FetchNext(policy);
        if fetched.ZeroDivision? {
          NothingTried(outcome, policy, recheck, v, before, store.now, log, store.cooldowns, increments);
          return DivisionByZero, log, increments;
        }
        ghost var tries := increments;
        increments := increments + rounds;
        NthNth(v, tries, rounds);
        if fetched.Unavailable? {
          OutOfRounds(manager.configs, outcome, policy, recheck, v, before, store.now, log, store.cooldowns, tries);
          if lastFailure.None? {
            return NotInitialized, log, increments;
          } else {
            return Raise(lastFailure.value), log, increments;
          }
        }
        var config := fetched.config;
        if config.credentialId != "" && !recheck(config.credentialId) {
          NextRound(manager.configs, outcome, policy, recheck, v, before, store.now, log, store.cooldowns, tries, rounds,
                    Refused(config));
          manager.Cooldown(config, 60);
          log := log + [Refused(config)];
          continue;
        }
        var o := outcome(config);
        NextRound(manager.configs, outcome, policy, recheck, v, before, store.now, log, store.cooldowns, tries, rounds,
                  Invoked(config, o));
        match o {
          case Success(value) =>
            log := log + [Invoked(config, o)];
            return Return(value), log, increments;
          case RateLimitError(_) =>
            manager.Cooldown(config, 60);
            lastFailure := Some(o);
          case AuthorizationError(_) =>
            manager.Cooldown(config, 10);
            lastFailure := Some(o);
          case ConnectionError(_) =>
            manager.Cooldown(config, 10);
            lastFailure := Some(o);
          case OtherError(_) =>
            log := log + [Invoked(config, o)];
            return Raise(o), log, increments;
        }
        log := log + [Invoked(config, o)];
      }
    }
  }

  // ---------- the state of the loop ----------

  ghost predicate Underway(configs: seq<Config>, outcome: Config -> Outcome, policy: string -> bool, recheck: string -> bool,
                           v: nat, before: map<string, int>, now: int, log: seq<Round>, cooldowns: map<string, int>,
                           increments: nat) {
    && Fresh(configs, before, now, log) && AllContinue(log) && Truthful(outcome, policy, recheck, log)
    && cooldowns == Penalised(before, now, log)
    && (configs != [] ==> InRotation(configs, v, before, now, policy, log, increments))
  }

  /** One more round, after which the loop goes on or is through. */
  lemma NextRound(configs: seq<Config>, outcome: Config -> Outcome, policy: string -> bool, recheck: string -> bool,
                  v: nat, before: map<string, int>, now: int, log: seq<Round>, cooldowns: map<string, int>,
                  increments: nat, rounds: nat, r: Round)
    requires configs != [] && rounds >= 1
    requires Underway(configs, outcome, policy, recheck, v, before, now, log, cooldowns, increments)
    requires FirstAvailable(configs, Nth(v, increments), rounds - 1, cooldowns, now, policy)
    requires r.config == Candidate(configs, Nth(v, increments), rounds - 1)
    requires r.Refused? <==> r.config.credentialId != "" && !recheck(r.config.credentialId)
    requires r.Invoked? ==> r.outcome == outcome(r.config)
    ensures |log| + 1 <= |configs|
    ensures LastFailure(log + [r]) == if r.Invoked? then Raise(r.outcome) else LastFailure(log)
    ensures Continues(r) ==>
              Underway(configs, outcome, policy, recheck, v, before, now, log + [r],
                       cooldowns[r.config.id := now + Penalty(r)], increments + rounds)
    ensures !Continues(r) ==>
              && Fresh(configs, before, now, log + [r]) && Consults(outcome, policy, recheck, log + [r])
              && CoolsDown(before, cooldowns, now, log + [r])
              && Replies(if r.outcome.Success? then Return(r.outcome.value) else Raise(r.outcome), log + [r])
              && InRotation(configs, v, before, now, policy, log + [r], increments + rounds)
              && (Undisturbed(v, |configs|) ==> increments + rounds <= |configs|)
  {
    hide Fresh, Penalised, Truthful, AllContinue, LastFailure, TriedIds, Undisturbed, NoneBefore, FirstAvailable, Nth,
      Candidate, InRotation, Consults, Replies, CoolsDown, Cooling;
    ChosenIsFresh(configs, Nth(v, increments), rounds - 1, before, now, policy, log);
    Noting(configs, before, now, outcome, policy, recheck, log, r);
    RotationGoesOn(configs, v, before, now, policy, log, increments, rounds - 1, r);
    if !Continues(r) {
      var reply := if r.outcome.Success? then Return(r.outcome.value) else Raise(r.outcome);
      Answered(configs, before, now, outcome, policy, recheck, log + [r], reply);
      if Undisturbed(v, |configs|) {
        TriesWithinOneTurn(configs, v, before, now, policy, log + [r], increments + rounds);
      }
    }
  }

  lemma OutOfRounds(configs: seq<Config>, outcome: Config -> Outcome, policy: string -> bool, recheck: string -> bool,
                    v: nat, before: map<string, int>, now: int, log: seq<Round>, cooldowns: map<string, int>,
                    increments: nat)
    requires configs != [] && UniqueIds(configs)
    requires Underway(configs, outcome, policy, recheck, v, before, now, log, cooldowns, increments)
    requires NoneBefore(configs, Nth(v, increments), |configs|, cooldowns, now, policy)
    ensures Fresh(configs, before, now, log) && Consults(outcome, policy, recheck, log)
    ensures CoolsDown(before, cooldowns, now, log) && Replies(LastFailure(log), log)
    ensures Exhausted(configs, v, before, now, policy, log, increments + |configs|)
    ensures Undisturbed(v, |configs|) ==>
              Accounted(configs, before, now, policy, log) && increments + |configs| <= 2 * |configs|
  {
    hide Fresh, Penalised, Truthful, AllContinue, LastFailure, Undisturbed, NoneBefore, Nth, InRotation, Consults, Replies,
      CoolsDown, Accounted, UniqueIds;
    GaveUp(configs, before, now, outcome, policy, recheck, log);
    if Undisturbed(v, |configs|) {
      ExhaustedAccounts(configs, v, before, now, policy, log, increments + |configs|);
    }
  }

  /** On an empty list nothing is tried. */
  lemma NothingTried(outcome: Config -> Outcome, policy: string -> bool, recheck: string -> bool, v: nat,
                     before: map<string, int>, now: int, log: seq<Round>, cooldowns: map<string, int>, increments: nat)
    requires Underway([], outcome, policy, recheck, v, before, now, log, cooldowns, increments) && |log| <= 0
    ensures Fresh([], before, now, log) && Consults(outcome, policy, recheck, log)
    ensures CoolsDown(before, cooldowns, now, log) && Replies(DivisionByZero, log)
  {
    GaveUp([], before, now, outcome, policy, recheck, log);
  }

  lemma NothingNoted(configs: seq<Config>, v: nat, cooldowns: map<string, int>, now: int,
                     outcome: Config -> Outcome, policy: string -> bool, recheck: string -> bool)
    ensures Underway(configs, outcome, policy, recheck, v, cooldowns, now, [], cooldowns, 0)
    ensures LastFailure([]) == NotInitialized && Nth(v, 0) == v
  {
  }

  /** What one more round does to everything said about the log. */
  lemma Noting(configs: seq<Config>, cooldowns: map<string, int>, now: int, outcome: Config -> Outcome,
               policy: string -> bool, recheck: string -> bool, log: seq<Round>, r: Round)
    requires Fresh(configs, cooldowns, now, log) && AllContinue(log) && Truthful(outcome, policy, recheck, log)
    requires r.config in configs && !Cooling(Penalised(cooldowns, now, log), now, r.config)
    requires Complies(policy, r.config) && (r.Refused? <==> !Complies(recheck, r.config))
    requires r.Invoked? ==> r.outcome == outcome(r.config)
    ensures (log + [r])[..|log|] == log && (log + [r])[|log|] == r
    ensures Fresh(configs, cooldowns, now, log + [r]) && |log| + 1 <= |configs|
    ensures Truthful(outcome, policy, recheck, log + [r])
    ensures Continues(r) ==> AllContinue(log + [r])
    ensures Penalised(cooldowns, now, log + [r])
         == Penalised(cooldowns, now, log)[r.config.id := now + Penalty(r)]
    ensures LastFailure(log + [r]) == if r.Invoked? then Raise(r.outcome) else LastFailure(log)
  {
    hide Fresh, Cooling, TriedIds;
    FrontOf(log, r);
    NotingFresh(configs, cooldowns, now, log, r);
  }

  lemma FrontOf(log: seq<Round>, r: Round)
    ensures (log + [r])[..|log|] == log && (log + [r])[|log|] == r
  {
  }

  lemma NotingFresh(configs: seq<Config>, cooldowns: map<string, int>, now: int, log: seq<Round>, r: Round)
    requires Fresh(configs, cooldowns, now, log)
    requires r.config in configs && !Cooling(Penalised(cooldowns, now, log), now, r.config)
    ensures Fresh(configs, cooldowns, now, log + [r]) && |log| + 1 <= |configs|
  {
    assert (log + [r])[..|log|] == log;
    PenalisedCools(cooldowns, now, log, r.config);
    hide Penalised, Cooling, TriedIds;
    assert Fresh(configs, cooldowns, now, log + [r]);
    FreshBound(configs, cooldowns, now, log + [r]);
  }

  lemma ChosenIsFresh(configs: seq<Config>, w: nat, j: nat, cooldowns: map<string, int>, now: int,
                      policy: string -> bool, log: seq<Round>)
    requires configs != []
    requires FirstAvailable(configs, w, j, Penalised(cooldowns, now, log), now, policy)
    ensures var config := Candidate(configs, w, j);
            config in configs && Complies(policy, config) && !Cooling(Penalised(cooldowns, now, log), now, config)
  {
  }
}
