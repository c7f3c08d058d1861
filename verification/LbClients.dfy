/** Any number of clients inside `LBModelManager.fetch_next` at once, interleaved at
    every access to the shared counter. A run is the sequence of steps taken; whether
    a candidate is cooling or fails its policy is decided afresh at every step. */
module LbClients {
  import opened NumberTheory
  import opened Rotation
  import opened Wrappers

  type Client = nat

  /** Where one client is in its loop. `tried` is the list of candidates it has given
      up on; `rounds` counts the increments of the present call. */
  datatype Local =
    | Ready(tried: seq<nat>, rounds: nat)
    | Wrapping(tried: seq<nat>, rounds: nat)
    | Holding(slot: nat, tried: seq<nat>, rounds: nat)
    | Returned(result: Option<nat>, tried: seq<nat>, rounds: nat)

  /** `picks` is the history of the slots used, in order. */
  datatype State = State(counter: nat, clients: map<Client, Local>, picks: seq<nat>)

  datatype Label =
    | Call(client: Client)
    | Increment(client: Client)
    | SetBack(client: Client)
    | Skip(client: Client)
    | Take(client: Client)
    | Expire

  function Index(slot: nat, n: nat): (i: nat)
    requires slot >= 1 && n > 0
    ensures i == (slot - 1) % n
  {
    PicksRoundRobin(slot, n);
    PythonIndex(RealIndex(slot, n), n)
  }

  predicate Enabled(s: State, l: Label) {
    match l
    case Call(c) => c in s.clients ==> s.clients[c].Returned?
    case Increment(c) => c in s.clients && s.clients[c].Ready?
    case SetBack(c) => c in s.clients && s.clients[c].Wrapping?
    case Skip(c) => c in s.clients && s.clients[c].Holding? && s.clients[c].slot >= 1
    case Take(c) => c in s.clients && s.clients[c].Holding? && s.clients[c].slot >= 1
    case Expire => true
  }

  function Do(n: nat, s: State, l: Label): State
    requires n > 0 && Enabled(s, l)
  {
    match l
    case Call(c) => s.(clients := s.clients[c := Ready([], 0)])
    case Increment(c) =>
      var me, v := s.clients[c], s.counter + 1;
      if v >= 10_000_000 then
        s.(counter := v, clients := s.clients[c := Wrapping(me.tried, me.rounds + 1)])
      else
        State(v, s.clients[c := Holding(v, me.tried, me.rounds + 1)], s.picks + [v])
    case SetBack(c) =>
      var me := s.clients[c];
      State(1, s.clients[c := Holding(1, me.tried, me.rounds)], s.picks + [1])
    case Skip(c) =>
      var me := s.clients[c];
      var tried := me.tried + [Index(me.slot, n)];
      s.(clients := s.clients[c := if |tried| >= n then Returned(None, tried, me.rounds)
                                   else Ready(tried, me.rounds)])
    case Take(c) =>
      var me := s.clients[c];
      s.(clients := s.clients[c := Returned(Some(Index(me.slot, n)), me.tried, me.rounds)])
    case Expire => s.(counter := 0)
  }

  // ---------- runs ----------

  predicate Runs(n: nat, s: State, run: seq<Label>)
    requires n > 0
    decreases |run|, 0
  {
    run == [] || (Runs(n, s, Front(run)) && Enabled(After(n, s, Front(run)), Last(run)))
  }

  function After(n: nat, s: State, run: seq<Label>): State
    requires n > 0 && Runs(n, s, run)
    decreases |run|, 1
  {
    if run == [] then s else Do(n, After(n, s, Front(run)), Last(run))
  }

  function Front(run: seq<Label>): seq<Label>
    requires run != []
  {
    run[..|run| - 1]
  }

  function Last(run: seq<Label>): Label
    requires run != []
  {
    run[|run| - 1]
  }

  // ---------- safety ----------

  function WrappingClients(s: State): set<Client> {
    set c | c in s.clients && s.clients[c].Wrapping?
  }

  ghost predicate LocalInv(n: nat, local: Local) {
    match local
    case Ready(tried, rounds) => rounds == |tried| < n
    case Wrapping(tried, rounds) => rounds == |tried| + 1 <= n
    case Holding(slot, tried, rounds) => rounds == |tried| + 1 <= n && 1 <= slot <= LAST_SLOT
    case Returned(result, tried, rounds) =>
      rounds <= n && (if result.Some? then result.value < n else |tried| == rounds == n)
  }

  ghost predicate Inv(n: nat, s: State) {
    && s.counter <= LAST_SLOT + |WrappingClients(s)|
    && (forall c :: c in s.clients ==> LocalInv(n, s.clients[c]))
    && (forall k :: 0 <= k < |s.picks| ==> 1 <= s.picks[k] <= LAST_SLOT)
  }

  lemma StepKeepsLocals(n: nat, s: State, l: Label)
    requires n > 0 && Inv(n, s) && Enabled(s, l)
    ensures forall c :: c in Do(n, s, l).clients ==> LocalInv(n, Do(n, s, l).clients[c])
  {
    hide Index, WrappingClients;
    if !l.Expire? && l.client in s.clients {
      assert LocalInv(n, s.clients[l.client]);
    }
  }

  lemma UpdateWrapping(s: State, s': State, c: Client)
    requires c in s'.clients && s'.clients == s.clients[c := s'.clients[c]]
    ensures WrappingClients(s')
         == if s'.clients[c].Wrapping? then WrappingClients(s) + {c} else WrappingClients(s) - {c}
    ensures c in WrappingClients(s) <==> c in s.clients && s.clients[c].Wrapping?
  {
  }

  lemma StepKeepsCounter(n: nat, s: State, l: Label)
    requires n > 0 && Enabled(s, l)
    requires s.counter <= LAST_SLOT + |WrappingClients(s)|
    ensures Do(n, s, l).counter <= LAST_SLOT + |WrappingClients(Do(n, s, l))|
  {
    hide Index, WrappingClients;
    if !l.Expire? {
      UpdateWrapping(s, Do(n, s, l), l.client);
    }
  }

  lemma StepKeepsInv(n: nat, s: State, l: Label)
    requires n > 0 && Inv(n, s) && Enabled(s, l)
    ensures Inv(n, Do(n, s, l))
  {
    StepKeepsLocals(n, s, l);
    StepKeepsCounter(n, s, l);
    hide Index, WrappingClients, LocalInv;
  }

  /** In every state of every run: the counter exceeds the last slot by no more than
      the clients that have passed it and not yet set it back, every slot used lies in
      range, and no call has incremented more than n times; one that found nothing
      has done so exactly n times. */
  lemma {:induction false} RunsKeepInv(n: nat, s: State, run: seq<Label>)
    requires n > 0 && Inv(n, s) && Runs(n, s, run)
    ensures Inv(n, After(n, s, run))
  {
    if run != [] {
      RunsKeepInv(n, s, Front(run));
      StepKeepsInv(n, After(n, s, Front(run)), Last(run));
    }
  }

  /** Before any client has called: no counter key, no picks. */
  predicate Initial(s: State) {
    s == State(0, map[], [])
  }

  /** The bounds hold in every state of every run from the start. */
  lemma BoundsFromTheStart(n: nat, s: State, run: seq<Label>)
    requires n > 0 && Initial(s) && Runs(n, s, run)
    ensures Inv(n, After(n, s, run))
  {
    RunsKeepInv(n, s, run);
  }

  // ---------- fairness ----------

  function Increments(run: seq<Label>): nat {
    if run == [] then 0 else Increments(Front(run)) + if Last(run).Increment? then 1 else 0
  }

  /** The counter key neither expires nor passes the last slot. */
  predicate WrapFree(n: nat, s: State, run: seq<Label>)
    requires n > 0 && Runs(n, s, run)
  {
    run == [] ||
    (&& WrapFree(n, s, Front(run))
     && !Last(run).Expire? && !Last(run).SetBack?
     && (Last(run).Increment? ==> After(n, s, Front(run)).counter < LAST_SLOT))
  }

  lemma {:induction false} WrapFreePicks(n: nat, s: State, run: seq<Label>)
    requires n > 0 && s.picks == [] && Runs(n, s, run) && WrapFree(n, s, run)
    ensures After(n, s, run).counter == s.counter + Increments(run)
    ensures After(n, s, run).picks == Consecutive(s.counter, Increments(run))
  {
    if run != [] {
      WrapFreePicks(n, s, Front(run));
    }
  }

  /** Over a wrap-free run, from any counter value and whatever the interleaving, the
      elements are picked equally often, up to one. */
  lemma FairWithoutWrap(n: nat, s: State, run: seq<Label>, i: nat, j: nat)
    requires n > 0 && s.picks == [] && Runs(n, s, run) && WrapFree(n, s, run)
    requires i < n && j < n
    ensures var picks := After(n, s, run).picks;
            && |picks| == Increments(run)
            && Picks(picks, i, n) <= Picks(picks, j, n) + 1
  {
    WrapFreePicks(n, s, run);
    EvenlyPicked(s.counter, Increments(run), i, n);
    EvenlyPicked(s.counter, Increments(run), j, n);
  }

  /** The key does not expire, and nobody increments while the counter is being set back. */
  predicate Serial(n: nat, s: State, run: seq<Label>)
    requires n > 0 && Runs(n, s, run)
  {
    run == [] ||
    (&& Serial(n, s, Front(run))
     && !Last(run).Expire?
     && (Last(run).Increment? ==> WrappingClients(After(n, s, Front(run))) == {}))
  }

  ghost predicate Rotating(n: nat, start: nat, picks: seq<nat>)
    requires n > 0
  {
    forall k :: 0 <= k < |picks| ==> picks[k] >= 1 && (picks[k] - 1) % n == (start + k) % n
  }

  /** The state of a serial run: at most one client is past the last slot, and the
      counter is where the number of picks puts it. */
  ghost predicate SerialInv(n: nat, start: nat, s: State)
    requires n > 0
  {
    && Rotating(n, start, s.picks)
    && if WrappingClients(s) == {} then
         s.counter <= LAST_SLOT && s.counter % n == (start + |s.picks|) % n
       else
         (start + |s.picks|) % n == 0 && exists c :: WrappingClients(s) == {c}
  }

  lemma NextRemainder(a: nat, b: nat, n: nat)
    requires n > 0 && a % n == b % n
    ensures (a + 1) % n == (b + 1) % n
  {
    assert (a + 1) - (b + 1) == a - b;
    ModSub(a, b, n);
    ModSub(a + 1, b + 1, n);
  }

  lemma SetBackClears(n: nat, s: State, c: Client)
    requires n > 0 && Enabled(s, SetBack(c))
    ensures WrappingClients(Do(n, s, SetBack(c))) == WrappingClients(s) - {c}
  {
  }

  lemma SerialStep(n: nat, start: nat, s: State, l: Label)
    requires n > 0 && LAST_SLOT % n == 0
    requires SerialInv(n, start, s) && Enabled(s, l)
    requires !l.Expire? && (l.Increment? ==> WrappingClients(s) == {})
    ensures SerialInv(n, start, Do(n, s, l))
  {
    hide Index;
    var s' := Do(n, s, l);
    match l {
      case Increment(c) =>
        if s.counter + 1 >= 10_000_000 {
          assert WrappingClients(s') == {c};
        } else {
          assert WrappingClients(s') == {};
          NextRemainder(s.counter, start + |s.picks|, n);
        }
      case SetBack(c) =>
        assert c in WrappingClients(s);
        var other :| WrappingClients(s) == {other};
        SetBackClears(n, s, c);
        assert {other} - {c} == {};
        ModUnique(0, n, 0, 0);
        NextRemainder(0, start + |s.picks|, n);
      case Call(c) =>
        assert WrappingClients(s') == WrappingClients(s);
      case Skip(c) =>
        assert WrappingClients(s') == WrappingClients(s);
      case Take(c) =>
        assert WrappingClients(s') == WrappingClients(s);
    }
  }

  lemma {:induction false} SerialRotates(n: nat, s: State, run: seq<Label>)
    requires n > 0 && LAST_SLOT % n == 0
    requires s.picks == [] && s.counter <= LAST_SLOT && WrappingClients(s) == {}
    requires Runs(n, s, run) && Serial(n, s, run)
    ensures SerialInv(n, s.counter, After(n, s, run))
  {
    if run != [] {
      SerialRotates(n, s, Front(run));
      SerialStep(n, s.counter, After(n, s, Front(run)), Last(run));
    }
  }

  lemma {:induction false} RotatingPicks(n: nat, start: nat, picks: seq<nat>, i: nat)
    requires n > 0 && Rotating(n, start, picks)
    ensures Picks(picks, i, n) == Picks(Consecutive(start, |picks|), i, n)
  {
    if picks != [] {
      var m := |picks| - 1;
      RotatingPicks(n, start, picks[..m], i);
      assert Consecutive(start, m + 1)[..m] == Consecutive(start, m);
      assert Consecutive(start, m + 1)[m] - 1 == start + m;
    }
  }

  /** Fairness survives any number of wrap-arounds when n divides the number of slots
      and no client increments in the middle of one. */
  lemma FairAcrossWraps(n: nat, s: State, run: seq<Label>, i: nat, j: nat)
    requires n > 0 && LAST_SLOT % n == 0
    requires s.picks == [] && s.counter <= LAST_SLOT && WrappingClients(s) == {}
    requires Runs(n, s, run) && Serial(n, s, run)
    requires i < n && j < n
    ensures var picks := After(n, s, run).picks; Picks(picks, i, n) <= Picks(picks, j, n) + 1
  {
    SerialRotates(n, s, run);
    var picks := After(n, s, run).picks;
    RotatingPicks(n, s.counter, picks, i);
    RotatingPicks(n, s.counter, picks, j);
    EvenlyPicked(s.counter, |picks|, i, n);
    EvenlyPicked(s.counter, |picks|, j, n);
  }

  /** Any two elements are picked equally often up to one, over every serial run. */
  ghost predicate FairOverAllSerialRuns(n: nat)
    requires n > 0
  {
    forall s: State, run: seq<Label>, i: nat, j: nat ::
      && s.picks == [] && s.counter <= LAST_SLOT && WrappingClients(s) == {}
      && Runs(n, s, run) && Serial(n, s, run) && i < n && j < n
      ==> Picks(After(n, s, run).picks, i, n) <= Picks(After(n, s, run).picks, j, n) + 1
  }

  /** Rounds of one client that takes whatever it is given. */
  function Loop(k: nat): seq<Label> {
    if k == 0 then [] else Loop(k - 1) + [Increment(0)] + [Take(0)] + [Call(0)]
  }

  function OneReady(counter: nat): State {
    State(counter, map[0 := Ready([], 0)], [])
  }

  lemma SerialExtend(n: nat, s: State, run: seq<Label>, l: Label)
    requires n > 0 && Runs(n, s, run) && Serial(n, s, run) && Enabled(After(n, s, run), l)
    requires !l.Expire? && (l.Increment? ==> WrappingClients(After(n, s, run)) == {})
    ensures Runs(n, s, run + [l]) && Serial(n, s, run + [l]) && After(n, s, run + [l]) == Do(n, After(n, s, run), l)
  {
    Extend(n, s, run, l);
    assert Front(run + [l]) == run;
  }

  lemma {:induction false} LoopPicks(n: nat, counter: nat, k: nat)
    requires n > 0 && counter + k <= LAST_SLOT
    ensures var s := OneReady(counter);
            && Runs(n, s, Loop(k)) && Serial(n, s, Loop(k))
            && After(n, s, Loop(k)) == State(counter + k, map[0 := Ready([], 0)], Consecutive(counter, k))
  {
    if k > 0 {
      LoopPicks(n, counter, k - 1);
      hide Runs, After, Serial, Index;
      OneRound(n, OneReady(counter), Loop(k - 1), counter + k - 1, Consecutive(counter, k - 1));
    }
  }

  lemma OneRound(n: nat, s: State, run: seq<Label>, v: nat, picks: seq<nat>)
    requires n > 0 && v < LAST_SLOT && Runs(n, s, run) && Serial(n, s, run)
    requires After(n, s, run) == State(v, map[0 := Ready([], 0)], picks)
    ensures var run' := run + [Increment(0)] + [Take(0)] + [Call(0)];
            && Runs(n, s, run') && Serial(n, s, run')
            && After(n, s, run') == State(v + 1, map[0 := Ready([], 0)], picks + [v + 1])
  {
    hide Runs, After, Serial, Index;
    assert WrappingClients(After(n, s, run)) == {};
    SerialExtend(n, s, run, Increment(0));
    var one := run + [Increment(0)];
    assert After(n, s, one) == State(v + 1, map[0 := Holding(v + 1, [], 1)], picks + [v + 1]);
    SerialExtend(n, s, one, Take(0));
    SerialExtend(n, s, one + [Take(0)], Call(0));
  }

  /** The last r slots and slot 1 pick element 0 twice and the last element never, when
      r is what is left of the slots after whole turns. */
  lemma WrapPicks(n: nat)
    requires n > 0 && LAST_SLOT % n != 0
    ensures var r := LAST_SLOT % n;
            var picks := Consecutive(LAST_SLOT - r, r) + [1];
            Picks(picks, 0, n) == 2 && Picks(picks, n - 1, n) == 0
  {
    var r := LAST_SLOT % n;
    var before := Consecutive(LAST_SLOT - r, r);
    LastSlots(n, r, LAST_SLOT / n);
    assert (before + [1])[..|before|] == before;
    ModUnique(0, n, 0, 0);
  }

  lemma LastSlots(n: nat, r: nat, q: nat)
    requires 0 < r < n && LAST_SLOT == q * n + r
    ensures Picks(Consecutive(LAST_SLOT - r, r), 0, n) == 1 && Picks(Consecutive(LAST_SLOT - r, r), n - 1, n) == 0
  {
    var a := LAST_SLOT - r;
    PicksOfConsecutive(a, r, 0, n);
    PicksOfConsecutive(a, r, n - 1, n);
    hide Picks, Consecutive;
    MulAddRight(q, 1, n);
    ModUnique(a + n - 1, n, q, n - 1);
    ModUnique(a + r + n - 1, n, q + 1, r - 1);
    ModUnique(a, n, q, 0);
    ModUnique(a + r, n, q, r);
  }

  lemma WrapIsUnfair(n: nat) returns (s: State, run: seq<Label>)
    requires n > 0 && LAST_SLOT % n != 0
    ensures s.picks == [] && s.counter <= LAST_SLOT && WrappingClients(s) == {}
    ensures Runs(n, s, run) && Serial(n, s, run)
    ensures Picks(After(n, s, run).picks, 0, n) == 2 && Picks(After(n, s, run).picks, n - 1, n) == 0
  {
    var r := LAST_SLOT % n;
    s, run := OneReady(LAST_SLOT - r), Loop(r);
    LoopPicks(n, LAST_SLOT - r, r);
    WrapPicks(n);
    hide Runs, After, Serial, Index, Loop, Picks;
    assert WrappingClients(After(n, s, run)) == {};
    SerialExtend(n, s, run, Increment(0));
    SerialExtend(n, s, run + [Increment(0)], SetBack(0));
    run := run + [Increment(0)] + [SetBack(0)];
  }

  /** Serial runs are fair across the wrap if and only if n divides the number of slots. */
  lemma FairExactly(n: nat)
    requires n > 0
    ensures FairOverAllSerialRuns(n) <==> LAST_SLOT % n == 0
  {
    if LAST_SLOT % n == 0 {
      forall s: State, run: seq<Label>, i: nat, j: nat
        | s.picks == [] && s.counter <= LAST_SLOT && WrappingClients(s) == {}
          && Runs(n, s, run) && Serial(n, s, run) && i < n && j < n
        ensures Picks(After(n, s, run).picks, i, n) <= Picks(After(n, s, run).picks, j, n) + 1
      {
        FairAcrossWraps(n, s, run, i, j);
      }
    } else {
      var s, run := WrapIsUnfair(n);
      assert Picks(After(n, s, run).picks, 0, n) > Picks(After(n, s, run).picks, n - 1, n) + 1;
    }
  }

  // ---------- any interleaving, wraps and expiry included ----------

  /** How often the counter is made to start again. */
  function Restarts(run: seq<Label>): nat {
    if run == [] then 0 else Restarts(Front(run)) + if Last(run).SetBack? || Last(run).Expire? then 1 else 0
  }

  /** The picks since the last restart are consecutive slots, and those before differ by
      no more than one for each restart. */
  ghost predicate InStretches(n: nat, s: State, restarts: nat, h: nat, a: nat)
    requires n > 0
  {
    && h <= |s.picks| && s.picks[h..] == Consecutive(a, |s.picks| - h)
    && (s.counter == a + |s.picks| - h || s.counter > LAST_SLOT)
    && forall i, j :: 0 <= i < n && 0 <= j < n ==> Picks(s.picks[..h], i, n) <= Picks(s.picks[..h], j, n) + restarts
  }

  lemma {:induction false} PicksAppend(a: seq<nat>, b: seq<nat>, i: nat, n: nat)
    requires n > 0
    ensures Picks(a + b, i, n) == Picks(a, i, n) + Picks(b, i, n)
  {
    if b == [] {
      assert a + b == a;
    } else {
      assert (a + b)[..|a + b| - 1] == a + b[..|b| - 1];
      PicksAppend(a, b[..|b| - 1], i, n);
    }
  }

  lemma StretchesDiffer(n: nat, s: State, restarts: nat, h: nat, a: nat, i: nat, j: nat)
    requires n > 0 && InStretches(n, s, restarts, h, a) && i < n && j < n
    ensures Picks(s.picks, i, n) <= Picks(s.picks, j, n) + restarts + 1
  {
    var m := |s.picks| - h;
    assert s.picks == s.picks[..h] + s.picks[h..];
    PicksAppend(s.picks[..h], s.picks[h..], i, n);
    PicksAppend(s.picks[..h], s.picks[h..], j, n);
    EvenlyPicked(a, m, i, n);
    EvenlyPicked(a, m, j, n);
  }

  lemma StepStretches(n: nat, s: State, l: Label, restarts: nat, h: nat, a: nat) returns (h': nat, a': nat)
    requires n > 0 && Enabled(s, l) && InStretches(n, s, restarts, h, a)
    ensures InStretches(n, Do(n, s, l), if l.SetBack? || l.Expire? then restarts + 1 else restarts, h', a')
  {
    hide Index;
    var picks := s.picks;
    h', a' := h, a;
    match l {
      case Increment(c) =>
        if s.counter + 1 < 10_000_000 {
          assert (picks + [s.counter + 1])[h..] == picks[h..] + [s.counter + 1];
          assert (picks + [s.counter + 1])[..h] == picks[..h];
        }
      case SetBack(c) =>
        h', a' := |picks|, 0;
        assert (picks + [1])[..|picks|] == picks && (picks + [1])[|picks|..] == [1];
        assert Consecutive(0, 1) == Consecutive(0, 0) + [1];
        forall i, j | 0 <= i < n && 0 <= j < n ensures Picks(picks, i, n) <= Picks(picks, j, n) + (restarts + 1) {
          StretchesDiffer(n, s, restarts, h, a, i, j);
        }
      case Expire =>
        h', a' := |picks|, 0;
        assert picks[..|picks|] == picks && picks[|picks|..] == [];
        forall i, j | 0 <= i < n && 0 <= j < n ensures Picks(picks, i, n) <= Picks(picks, j, n) + (restarts + 1) {
          StretchesDiffer(n, s, restarts, h, a, i, j);
        }
      case _ =>
    }
  }

  lemma {:induction false} RunStretches(n: nat, s: State, run: seq<Label>) returns (h: nat, a: nat)
    requires n > 0 && s.picks == [] && Runs(n, s, run)
    ensures InStretches(n, After(n, s, run), Restarts(run), h, a)
  {
    if run == [] {
      h, a := 0, s.counter;
    } else {
      h, a := RunStretches(n, s, Front(run));
      h, a := StepStretches(n, After(n, s, Front(run)), Last(run), Restarts(Front(run)), h, a);
    }
  }

  /** Over every run of any interleaving, any two elements are picked equally often up
      to one, and one more for each time the counter starts again. */
  lemma FairUpToRestarts(n: nat, s: State, run: seq<Label>, i: nat, j: nat)
    requires n > 0 && s.picks == [] && Runs(n, s, run) && i < n && j < n
    ensures Picks(After(n, s, run).picks, i, n) <= Picks(After(n, s, run).picks, j, n) + Restarts(run) + 1
  {
    var h, a := RunStretches(n, s, run);
    StretchesDiffer(n, After(n, s, run), Restarts(run), h, a, i, j);
  }

  /** Slot 1 follows the last slot in the rotation only when n divides their number. */
  lemma WrapContinuesRotation(n: nat)
    requires n > 0
    ensures Index(1, n) == (Index(LAST_SLOT, n) + 1) % n <==> LAST_SLOT % n == 0
  {
    ModUnique(0, n, 0, 0);
    var i := Index(LAST_SLOT, n);
    var q := (LAST_SLOT - 1) / n;
    assert LAST_SLOT == q * n + (i + 1);
    if i + 1 < n {
      ModUnique(i + 1, n, 0, i + 1);
      ModUnique(LAST_SLOT, n, q, i + 1);
    } else {
      ModUnique(i + 1, n, 1, 0);
      MulAddRight(q, 1, n);
      ModUnique(LAST_SLOT, n, q + 1, 0);
    }
  }

  // ---------- what interference can do ----------

  lemma Extend(n: nat, s: State, run: seq<Label>, l: Label)
    requires n > 0 && Runs(n, s, run) && Enabled(After(n, s, run), l)
    ensures Runs(n, s, run + [l]) && After(n, s, run + [l]) == Do(n, After(n, s, run), l)
  {
    assert Front(run + [l]) == run;
  }

  /** Two clients past the last slot both start again at slot 1, so an unserialised
      wrap breaks fairness even for an n that divides the number of slots. */
  lemma UnserialisedWrapIsUnfair() returns (s: State, run: seq<Label>)
    ensures LAST_SLOT % 3 == 0 && Inv(3, s) && s.picks == [] && Runs(3, s, run)
    ensures Picks(After(3, s, run).picks, 0, 3) == Picks(After(3, s, run).picks, 1, 3) + 2
  {
    s := State(9_999_998, map[0 := Ready([], 0), 1 := Ready([], 0), 2 := Ready([], 0)], []);
    run := [];
    Extend(3, s, run, Increment(0));
    run := run + [Increment(0)];
    Extend(3, s, run, Increment(1));
    run := run + [Increment(1)];
    Extend(3, s, run, Increment(2));
    run := run + [Increment(2)];
    Extend(3, s, run, SetBack(1));
    run := run + [SetBack(1)];
    Extend(3, s, run, SetBack(2));
    run := run + [SetBack(2)];
    var one, two, three := [LAST_SLOT], [LAST_SLOT, 1], [LAST_SLOT, 1, 1];
    assert After(3, s, run).picks == three;
    assert one[..0] == [] && two[..1] == one && three[..2] == two;
    assert Picks(one, 0, 3) == Picks(one, 1, 3) == 0;
  }

  /** A client whose increments alternate with another's may look at the same element
      every time: it reports that nothing is left without having seen element 1. */
  lemma InterferenceHidesElements() returns (s: State, run: seq<Label>)
    ensures Inv(2, s) && Runs(2, s, run)
    ensures 0 in After(2, s, run).clients
    ensures After(2, s, run).clients[0] == Returned(None, [0, 0], 2)
  {
    s := State(0, map[0 := Ready([], 0), 1 := Ready([], 0)], []);
    run := [];
    Extend(2, s, run, Increment(0));
    run := run + [Increment(0)];
    Extend(2, s, run, Skip(0));
    run := run + [Skip(0)];
    Extend(2, s, run, Increment(1));
    run := run + [Increment(1)];
    Extend(2, s, run, Increment(0));
    run := run + [Increment(0)];
    Extend(2, s, run, Skip(0));
    run := run + [Skip(0)];
  }

  /** Only the client itself moves the counter, and it is in one call. */
  predicate Lonely(run: seq<Label>, c: Client) {
    forall k :: 0 <= k < |run| ==>
      && !run[k].Expire? && run[k] != Call(c)
      && (run[k].Increment? || run[k].SetBack? ==> run[k].client == c)
  }

  function VisitedUpTo(v: nat, j: nat, n: nat): (s: seq<nat>)
    requires n > 0
    ensures |s| == j
  {
    seq(j, k requires 0 <= k < j => Visited(v, k, n))
  }

  /** Where the client is in its call, told by the counter it started from. */
  ghost predicate LonelyInv(n: nat, v: nat, s: State, c: Client)
    requires n > 0
  {
    && c in s.clients
    && match s.clients[c]
       case Ready(tried, rounds) =>
         |tried| < n && tried == VisitedUpTo(v, |tried|, n) && s.counter == Nth(v, |tried|)
       case Wrapping(tried, rounds) =>
         |tried| < n && tried == VisitedUpTo(v, |tried|, n) && Nth(v, |tried| + 1) == 1
       case Holding(slot, tried, rounds) =>
         |tried| < n && tried == VisitedUpTo(v, |tried|, n) && s.counter == slot == Nth(v, |tried| + 1)
       case Returned(result, tried, rounds) =>
         result.None? ==> |tried| == n && tried == VisitedUpTo(v, n, n)
  }

  lemma LonelyStep(n: nat, v: nat, s: State, c: Client, l: Label)
    requires n > 0 && LonelyInv(n, v, s, c) && Enabled(s, l)
    requires !l.Expire? && l != Call(c) && (l.Increment? || l.SetBack? ==> l.client == c)
    ensures LonelyInv(n, v, Do(n, s, l), c)
  {
    if l.client == c && l.Skip? {
      var me := s.clients[c];
      assert Nth(v, |me.tried| + 1) == Next(Nth(v, |me.tried|));
      assert Index(me.slot, n) == Visited(v, |me.tried|, n);
      assert me.tried + [Index(me.slot, n)] == VisitedUpTo(v, |me.tried| + 1, n);
    }
  }

  lemma {:induction false} LonelyRun(n: nat, s: State, run: seq<Label>, c: Client)
    requires n > 0 && c in s.clients && s.clients[c] == Ready([], 0)
    requires Runs(n, s, run) && Lonely(run, c)
    ensures LonelyInv(n, s.counter, After(n, s, run), c)
  {
    if run != [] {
      assert forall k :: 0 <= k < |Front(run)| ==> Front(run)[k] == run[k];
      LonelyRun(n, s, Front(run), c);
      LonelyStep(n, s.counter, After(n, s, Front(run)), c, Last(run));
    }
  }

  /** A call during which nobody else moves the counter, whatever else the others do:
      when it finds nothing, it has looked at every element if and only if it met no bad
      wrap. */
  lemma LonelyCallSeesAll(n: nat, s: State, run: seq<Label>, c: Client)
    requires n > 0 && c in s.clients && s.clients[c] == Ready([], 0)
    requires Runs(n, s, run) && Lonely(run, c)
    ensures c in After(n, s, run).clients
    ensures var me := After(n, s, run).clients[c];
            me.Returned? && me.result.None? ==>
              ((forall i :: 0 <= i < n ==> i in me.tried) <==> Undisturbed(s.counter, n))
  {
    LonelyRun(n, s, run, c);
    CoversExactly(s.counter, n);
    var me, v := After(n, s, run).clients[c], s.counter;
    if me.Returned? && me.result.None? {
      forall i: nat | i < n ensures i in me.tried <==> Reached(v, n, i) {
        if i in me.tried {
          var j :| 0 <= j < n && me.tried[j] == i;
          assert Visited(v, j, n) == i;
        }
        if Reached(v, n, i) {
          var j: nat :| j < n && Visited(v, j, n) == i;
          assert me.tried[j] == i;
        }
      }
    }
  }
}
