/** `LBModelManager` as one client runs it: the shared counter with its expiry, the
    cooldown keys, and the search for the next configuration. */
module LoadBalancer {
  import opened LbConfigs
  import opened Rotation
  import opened Wrappers

  // ---------- the shared store ----------

  /** The keys of one provider and model: the counter, and a cooldown key for each
      configuration id. A key whose time has come does not exist any more. */
  class Store {
    var now: int
    var counter: nat
    var counterExpires: Option<int>
    var cooldowns: map<string, int>

    constructor ()
      ensures counter == 0 && counterExpires == None && cooldowns == map[]
    {
      now, counter, counterExpires, cooldowns := 0, 0, None, map[];
    }

    predicate Expired()
      reads this
    {
      counterExpires.Some? && counterExpires.value <= now
    }

    function LiveCounter(): nat
      reads this
    {
      if Expired() then 0 else counter
    }

    /** `incr`; a missing key counts as zero and comes without an expiry. */
    method Incr() returns (v: nat)
      modifies `counter, `counterExpires
      ensures v == old(LiveCounter()) + 1 == LiveCounter()
      ensures counterExpires == if old(Expired()) then None else old(counterExpires)
    {
      if Expired() {
        counter, counterExpires := 0, None;
      }
      counter := counter + 1;
      v := counter;
    }

    /** `set` clears the expiry. */
    method Set(v: nat)
      modifies `counter, `counterExpires
      ensures LiveCounter() == v && counterExpires == None
    {
      counter, counterExpires := v, None;
    }

    /** `expire`, which does nothing to a missing key. */
    method Expire(seconds: nat)
      requires seconds > 0
      modifies `counterExpires
      ensures LiveCounter() == old(LiveCounter())
      ensures counterExpires == if old(Expired()) then old(counterExpires) else Some(now + seconds)
    {
      if !Expired() {
        counterExpires := Some(now + seconds);
      }
    }
  }

  predicate Cooling(cooldowns: map<string, int>, now: int, c: Config) {
    c.id in cooldowns && now < cooldowns[c.id]
  }

  /** `check_credential_policy_compliance` raises for the ids the policy refuses. */
  predicate Complies(policy: string -> bool, c: Config) {
    c.credentialId == "" || policy(c.credentialId)
  }

  predicate Available(cooldowns: map<string, int>, now: int, policy: string -> bool, c: Config) {
    !Cooling(cooldowns, now, c) && Complies(policy, c)
  }

  ghost predicate UniqueIds(configs: seq<Config>) {
    forall i, j :: 0 <= i < j < |configs| ==> configs[i].id != configs[j].id
  }

  // ---------- fetch_next ----------

  datatype Fetched = Chosen(config: Config) | Unavailable | ZeroDivision

  function Candidate(configs: seq<Config>, v: nat, j: nat): Config
    requires configs != []
  {
    configs[Visited(v, j, |configs|)]
  }

  /** The rotation from counter value v finds its first available candidate at step j. */
  ghost predicate FirstAvailable(configs: seq<Config>, v: nat, j: nat,
                                 cooldowns: map<string, int>, now: int, policy: string -> bool)
    requires configs != []
  {
    && Available(cooldowns, now, policy, Candidate(configs, v, j))
    && NoneBefore(configs, v, j, cooldowns, now, policy)
  }

  ghost predicate NoneBefore(configs: seq<Config>, v: nat, j: nat,
                             cooldowns: map<string, int>, now: int, policy: string -> bool)
    requires configs != []
  {
    forall i :: 0 <= i < j ==> !Available(cooldowns, now, policy, Candidate(configs, v, i))
  }

  /** The slot of the j-th increment picks a configuration that is still cooling, or that has
      a credential the policy refuses. */
  ghost predicate PassesOver(configs: seq<Config>, v: nat, j: nat, cooldowns: map<string, int>, now: int,
                             policy: string -> bool)
    requires configs != []
  {
    var c := configs[(Nth(v, j + 1) - 1) % |configs|];
    || (c.id in cooldowns && now < cooldowns[c.id])
    || (c.credentialId != "" && !policy(c.credentialId))
  }

  /** The slot of the j-th increment picks the configuration, which does not cool, and whose
      credential, if it has one, the policy allows. */
  ghost predicate Serves(configs: seq<Config>, v: nat, j: nat, config: Config, cooldowns: map<string, int>, now: int,
                         policy: string -> bool)
    requires configs != []
  {
    && 1 <= Nth(v, j + 1) <= 9_999_999
    && config == configs[(Nth(v, j + 1) - 1) % |configs|]
    && (config.id in cooldowns ==> cooldowns[config.id] <= now)
    && (config.credentialId != "" ==> policy(config.credentialId))
  }

  /** The counter counts up to 9,999,999 and starts again at 1. */
  lemma NthCounts(v: nat, j: nat)
    ensures Nth(v, j + 1) == if Nth(v, j) < 9_999_999 then Nth(v, j) + 1 else 1
  {
  }

  lemma NthStart(v: nat)
    ensures Nth(v, 0) == v
  {
  }

  lemma NonePassed(configs: seq<Config>, v: nat, cooldowns: map<string, int>, now: int, policy: string -> bool)
    requires configs != []
    ensures NoneBefore(configs, v, 0, cooldowns, now, policy)
  {
  }

  /** One more candidate: it serves, or it is passed over. */
  lemma Passing(configs: seq<Config>, v: nat, j: nat, cooldowns: map<string, int>, now: int, policy: string -> bool)
    requires configs != [] && NoneBefore(configs, v, j, cooldowns, now, policy)
    ensures var c := Candidate(configs, v, j);
            if Available(cooldowns, now, policy, c) then
              && Serves(configs, v, j, c, cooldowns, now, policy) && FirstAvailable(configs, v, j, cooldowns, now, policy)
            else
              NoneBefore(configs, v, j + 1, cooldowns, now, policy)
    ensures forall i: nat :: i < j ==> PassesOver(configs, v, i, cooldowns, now, policy)
    ensures !Available(cooldowns, now, policy, Candidate(configs, v, j)) ==> PassesOver(configs, v, j, cooldowns, now, policy)
  {
    CandidateAt(configs, v, j);
    assert Nth(v, j + 1) == Next(Nth(v, j));
    hide Nth, Candidate;
    forall i: nat | i < j ensures PassesOver(configs, v, i, cooldowns, now, policy) {
      CandidateAt(configs, v, i);
      assert !Available(cooldowns, now, policy, Candidate(configs, v, i));
    }
  }

  lemma CandidateAt(configs: seq<Config>, v: nat, j: nat)
    requires configs != []
    ensures (Nth(v, j + 1) - 1) % |configs| < |configs|
    ensures Candidate(configs, v, j) == configs[(Nth(v, j + 1) - 1) % |configs|]
  {
    assert Nth(v, j + 1) == Next(Nth(v, j));
    hide Nth, Next;
  }

  class LBModelManager {
    const store: Store
    var configs: seq<Config>

    constructor (store: Store, loadBalancingConfigs: seq<Config>, managed: Credentials)
      ensures this.store == store && configs == Prepared(loadBalancingConfigs, managed)
    {
      this.store := store;
      configs := [];
      new;
      configs := Prepare(loadBalancingConfigs, managed);
    }

    /** `in_cooldown` */
    predicate InCooldown(c: Config)
      reads this, store
    {
      Cooling(store.cooldowns, store.now, c)
    }

    /** `cooldown` */
    method Cooldown(c: Config, expire: nat)
      requires expire > 0
      modifies store`cooldowns
      ensures store.cooldowns == old(store.cooldowns)[c.id := store.now + expire]
    {
      store.cooldowns := store.cooldowns[c.id := store.now + expire];
    }

    /** One undisturbed call. `rounds` is the number of increments it made. */
    method FetchNext(policy: string -> bool) returns (r: Fetched, rounds: nat)
      modifies store`counter, store`counterExpires
      ensures store.counterExpires == Some(store.now + 3600)
      ensures configs == [] <==> r.ZeroDivision?
      ensures configs != [] ==> 1 <= rounds <= |configs|
      ensures configs != [] ==> store.LiveCounter() == Nth(old(store.LiveCounter()), rounds)
      ensures r.Chosen? ==>
                && r.config == Candidate(configs, old(store.LiveCounter()), rounds - 1)
                && FirstAvailable(configs, old(store.LiveCounter()), rounds - 1, store.cooldowns, store.now, policy)
      ensures r.Unavailable? ==>
                && rounds == |configs|
                && NoneBefore(configs, old(store.LiveCounter()), rounds, store.cooldowns, store.now, policy)
      ensures r.Chosen? ==> Serves(configs, old(store.LiveCounter()), rounds - 1, r.config, store.cooldowns, store.now, policy)
      ensures configs != [] ==>
                forall j: nat :: j < (if r.Chosen? then rounds - 1 else rounds) ==>
                  PassesOver(configs, old(store.LiveCounter()), j, store.cooldowns, store.now, policy)
    {
      hide Nth, NextPick, Visited, RealIndex, PythonIndex, NoneBefore, Serves, PassesOver;
      ghost var v := store.LiveCounter();
      var cooling: seq<Config> := [];
      var maxIndex := |configs|;
      rounds := 0;
      NthStart(v);
      if configs != [] {
        NonePassed(configs, v, store.cooldowns, store.now, policy);
      }
      while true
        invariant rounds == |cooling|
        invariant configs != [] ==> |cooling| < |configs|
        invariant store.LiveCounter() == Nth(v, rounds)
        invariant configs != [] ==> NoneBefore(configs, v, rounds, store.cooldowns, store.now, policy)
        decreases |configs| - |cooling|
      {
        var index := store.Incr();
        rounds := rounds + 1;
        if index >= 10_000_000 {
          index := 1;
          store.Set(index);
        }
        store.Expire(3600);
        if maxIndex == 0 {
          return ZeroDivision, rounds;
        }
        SlotPicks(v, rounds, maxIndex);
        var config := configs[PythonIndex(RealIndex(index, maxIndex), maxIndex)];
        assert config == Candidate(configs, v, rounds - 1);
        Passing(configs, v, rounds - 1, store.cooldowns, store.now, policy);
        if InCooldown(config) {
          cooling := cooling + [config];
          if |cooling| >= |configs| {
            return Unavailable, rounds;
          }
          continue;
        }
        if config.credentialId != "" && !policy(config.credentialId) {
          cooling := cooling + [config];
          if |cooling| >= |configs| {
            return Unavailable, rounds;
          }
          continue;
        }
        return Chosen(config), rounds;
      }
    }
  }

  /** "Nothing available" is the truth about the whole list for every state of the
      cooldowns and the policy if and only if the call was undisturbed by the wrap. */
  lemma UnavailableMeansAll(configs: seq<Config>, v: nat)
    requires configs != []
    requires UniqueIds(configs)
    ensures Undisturbed(v, |configs|) <==> TellsTheTruth(configs, v)
  {
    CoversExactly(v, |configs|);
    if Undisturbed(v, |configs|) {
      forall cooldowns: map<string, int>, now: int, policy: string -> bool
        | NoneBefore(configs, v, |configs|, cooldowns, now, policy)
        ensures AllUnavailable(configs, cooldowns, now, policy)
      {
        CoveredUnavailable(configs, v, cooldowns, now, policy);
      }
    } else {
      var u: nat :| u < |configs| && !Reached(v, |configs|, u);
      var cooldowns := map c | c in configs && c != configs[u] :: c.id := 1;
      var policy := (s: string) => true;
      forall j | 0 <= j < |configs|
        ensures !Available(cooldowns, 0, policy, Candidate(configs, v, j))
      {
        assert Visited(v, j, |configs|) != u;
      }
      assert NoneBefore(configs, v, |configs|, cooldowns, 0, policy);
      assert !Cooling(cooldowns, 0, configs[u]);
      assert Complies(policy, configs[u]);
      assert !AllUnavailable(configs, cooldowns, 0, policy);
    }
  }

  ghost predicate AllUnavailable(configs: seq<Config>, cooldowns: map<string, int>, now: int, policy: string -> bool) {
    forall i :: 0 <= i < |configs| ==> !Available(cooldowns, now, policy, configs[i])
  }

  ghost predicate TellsTheTruth(configs: seq<Config>, v: nat)
    requires configs != []
  {
    forall cooldowns: map<string, int>, now: int, policy: string -> bool ::
      NoneBefore(configs, v, |configs|, cooldowns, now, policy) ==> AllUnavailable(configs, cooldowns, now, policy)
  }

  lemma CoveredUnavailable(configs: seq<Config>, v: nat, cooldowns: map<string, int>, now: int, policy: string -> bool)
    requires configs != [] && Undisturbed(v, |configs|)
    requires NoneBefore(configs, v, |configs|, cooldowns, now, policy)
    ensures AllUnavailable(configs, cooldowns, now, policy)
  {
    CoversExactly(v, |configs|);
    forall i | 0 <= i < |configs| ensures !Available(cooldowns, now, policy, configs[i]) {
      assert Reached(v, |configs|, i);
      var j: nat :| j < |configs| && Visited(v, j, |configs|) == i;
      assert Candidate(configs, v, j) == configs[i];
    }
  }
}
