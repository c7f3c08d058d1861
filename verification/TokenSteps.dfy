/** `TokenManager` under any number of callers, with one step for every command the store
    sees: which interleavings leave an account with two live tokens of a type. */
module TokenSteps {
  import opened Tokens
  import opened Wrappers

  /** How far the generation of a token for an account has come. */
  datatype Call =
    | HasRead(kind: string, account: string, seen: Option<string>)
    | HasDeleted(kind: string, account: string)
    | HasIssued(kind: string, account: string, token: string)

  type CallId = nat

  datatype State = State(store: Store, now: int, calls: map<CallId, Call>)

  datatype Label =
    | Read(id: CallId, kind: string, account: string)
    | Delete(id: CallId)
    | SetToken(id: CallId, token: string, email: string)
    | SetAccount(id: CallId)
    | Abandon(id: CallId)
    | WithoutAccount(kind: string, token: string, email: string)
    | RevokeOne(kind: string, token: string)
    | Wait(seconds: nat)

  predicate Enabled(minutes: map<string, nat>, s: State, l: Label) {
    match l
    case Read(id, _, _) => id !in s.calls
    case Delete(id) => id in s.calls && s.calls[id].HasRead?
    case SetToken(id, _, _) => id in s.calls && s.calls[id].HasDeleted? && Expiry(minutes, s.calls[id].kind) > 0
    case SetAccount(id) => id in s.calls && s.calls[id].HasIssued?
    case Abandon(id) => id in s.calls
    case WithoutAccount(kind, _, _) => Expiry(minutes, kind) > 0
    case RevokeOne(_, _) => true
    case Wait(_) => true
  }

  function Named(s: State, kind: string, account: string): Option<string> {
    if PointerLive(s.store, kind, account, s.now) then Some(s.store.accounts[(kind, account)].token) else None
  }

  function PutToken(s: Store, kind: string, token: string, data: Data, expiresAt: int): Store {
    s.(tokens := s.tokens[(kind, token) := Entry(data, expiresAt)])
  }

  function Do(minutes: map<string, nat>, s: State, l: Label): State
    requires Enabled(minutes, s, l)
  {
    match l
    case Read(id, kind, account) => s.(calls := s.calls[id := HasRead(kind, account, Named(s, kind, account))])
    case Delete(id) =>
      var me := s.calls[id];
      State(if me.seen.Some? then Revoke(s.store, me.kind, me.seen.value) else s.store, s.now,
            s.calls[id := HasDeleted(me.kind, me.account)])
    case SetToken(id, token, email) =>
      var me := s.calls[id];
      State(PutToken(s.store, me.kind, token, Data(Some(me.account), email), s.now + Expiry(minutes, me.kind)), s.now,
            s.calls[id := HasIssued(me.kind, me.account, token)])
    case SetAccount(id) =>
      var me := s.calls[id];
      var pointer := Pointer(me.token, s.now + Expiry(minutes, me.kind));
      State(s.store.(accounts := s.store.accounts[(me.kind, me.account) := pointer]), s.now, s.calls - {id})
    case Abandon(id) => s.(calls := s.calls - {id})
    case WithoutAccount(kind, token, email) =>
      s.(store := PutToken(s.store, kind, token, Data(None, email), s.now + Expiry(minutes, kind)))
    case RevokeOne(kind, token) => s.(store := Revoke(s.store, kind, token))
    case Wait(seconds) => s.(now := s.now + seconds)
  }

  predicate Busy(s: State, kind: string, account: string) {
    exists id :: id in s.calls && s.calls[id].kind == kind && s.calls[id].account == account
  }

  predicate Live(s: State, kind: string, account: string, token: string) {
    OwnedLive(s.store, kind, account, token, s.now)
  }

  /** A live token that the account key names and outlasts. */
  predicate NamedFor(s: State, kind: string, account: string, token: string)
    requires Live(s, kind, account, token)
  {
    && Named(s, kind, account) == Some(token)
    && s.store.tokens[(kind, token)].expiresAt <= s.store.accounts[(kind, account)].expiresAt
  }

  /** No generation reads the account key before another one of the account and type is
      through, and none stops between its two writes unless its token is dead by then or
      the account key names it already. */
  predicate Orderly(s: State, l: Label) {
    match l
    case Read(_, kind, account) => !Busy(s, kind, account)
    case Abandon(id) =>
      id in s.calls && s.calls[id].HasIssued? ==>
        var me := s.calls[id];
        Live(s, me.kind, me.account, me.token) ==> NamedFor(s, me.kind, me.account, me.token)
    case _ => true
  }

  ghost predicate Runs(minutes: map<string, nat>, s: State, run: seq<Label>)
    decreases |run|, 0
  {
    run == [] ||
    (Runs(minutes, s, run[..|run| - 1]) && Enabled(minutes, After(minutes, s, run[..|run| - 1]), run[|run| - 1]))
  }

  ghost function After(minutes: map<string, nat>, s: State, run: seq<Label>): State
    requires Runs(minutes, s, run)
    decreases |run|, 1
  {
    if run == [] then s else Do(minutes, After(minutes, s, run[..|run| - 1]), run[|run| - 1])
  }

  ghost predicate OrderlyRun(minutes: map<string, nat>, s: State, run: seq<Label>)
    requires Runs(minutes, s, run)
  {
    run == [] ||
    (OrderlyRun(minutes, s, run[..|run| - 1]) && Orderly(After(minutes, s, run[..|run| - 1]), run[|run| - 1]))
  }

  ghost predicate AtMostOneLive(s: State) {
    forall kind, account, t, u :: Live(s, kind, account, t) && Live(s, kind, account, u) ==> t == u
  }

  // ---------- orderly runs are safe ----------

  /** What a call knows of the live tokens of its account. */
  ghost predicate CallInv(minutes: map<string, nat>, s: State, me: Call) {
    forall t :: Live(s, me.kind, me.account, t) ==> Knows(minutes, s, me, t)
  }

  /** It has read a name that still holds, has deleted all there was, or issued the token. */
  ghost predicate Knows(minutes: map<string, nat>, s: State, me: Call, t: string)
    requires Live(s, me.kind, me.account, t)
  {
    var expiresAt := s.store.tokens[(me.kind, t)].expiresAt;
    match me
    case HasRead(_, _, seen) =>
      seen == Some(t) && NamedFor(s, me.kind, me.account, t)
    case HasDeleted(_, _) => false
    case HasIssued(_, _, token) => t == token && expiresAt <= s.now + Expiry(minutes, me.kind)
  }

  /** Of an account nobody is at, the account key names the live token and outlasts it. */
  ghost predicate IdleInv(s: State, kind: string, account: string) {
    forall t :: Live(s, kind, account, t) ==> NamedFor(s, kind, account, t)
  }

  predicate SameAccount(a: Call, b: Call) {
    a.kind == b.kind && a.account == b.account
  }

  ghost predicate Inv(minutes: map<string, nat>, s: State) {
    && (forall i, j :: i in s.calls && j in s.calls && SameAccount(s.calls[i], s.calls[j]) ==> i == j)
    && (forall id :: id in s.calls ==> CallInv(minutes, s, s.calls[id]))
    && (forall id :: id in s.calls && s.calls[id].HasIssued? ==> Expiry(minutes, s.calls[id].kind) > 0)
    && (forall kind, account :: !Busy(s, kind, account) ==> IdleInv(s, kind, account))
  }

  /** Tokens come to life only in the hands of a call of their account. */
  lemma NothingNew(minutes: map<string, nat>, s: State, l: Label, kind: string, account: string, t: string)
    requires Enabled(minutes, s, l) && Live(Do(minutes, s, l), kind, account, t)
    requires l.SetToken? ==> s.calls[l.id].kind != kind || s.calls[l.id].account != account
    ensures Live(s, kind, account, t)
    ensures Do(minutes, s, l).store.tokens[(kind, t)] == s.store.tokens[(kind, t)]
  {
  }

  predicate Others(s: State, l: Label, me: Call) {
    (l.Delete? || l.SetToken? || l.SetAccount? || l.Abandon?) && l.id in s.calls ==>
      s.calls[l.id].kind != me.kind || s.calls[l.id].account != me.account
  }

  lemma OtherCallKept(minutes: map<string, nat>, s: State, l: Label, me: Call)
    requires Enabled(minutes, s, l) && CallInv(minutes, s, me) && Others(s, l, me)
    ensures CallInv(minutes, Do(minutes, s, l), me)
  {
    var s' := Do(minutes, s, l);
    forall t | Live(s', me.kind, me.account, t)
      ensures Live(s, me.kind, me.account, t)
      ensures s'.store.tokens[(me.kind, t)] == s.store.tokens[(me.kind, t)] && s.now <= s'.now
    {
      NothingNew(minutes, s, l, me.kind, me.account, t);
    }
  }

  lemma IdleKept(minutes: map<string, nat>, s: State, l: Label, kind: string, account: string)
    requires Enabled(minutes, s, l) && IdleInv(s, kind, account) && Others(s, l, HasDeleted(kind, account))
    ensures IdleInv(Do(minutes, s, l), kind, account)
  {
    var s' := Do(minutes, s, l);
    forall t | Live(s', kind, account, t)
      ensures Live(s, kind, account, t)
      ensures s'.store.tokens[(kind, t)] == s.store.tokens[(kind, t)]
    {
      NothingNew(minutes, s, l, kind, account, t);
    }
  }

  /** What a step does to the call that takes it, or to its account when it ends. */
  lemma OwnCallKept(minutes: map<string, nat>, s: State, l: Label)
    requires Enabled(minutes, s, l) && Orderly(s, l) && (l.Delete? || l.SetToken? || l.SetAccount? || l.Abandon?)
    requires CallInv(minutes, s, s.calls[l.id])
    ensures var s', me := Do(minutes, s, l), s.calls[l.id];
            if l.id in s'.calls then CallInv(minutes, s', s'.calls[l.id])
            else IdleInv(s', me.kind, me.account)
  {
    var s', me := Do(minutes, s, l), s.calls[l.id];
    forall t | Live(s', me.kind, me.account, t)
      ensures Live(s, me.kind, me.account, t) || (l.SetToken? && t == l.token)
      ensures Live(s, me.kind, me.account, t) ==> Knows(minutes, s, me, t)
      ensures !l.Delete?
    {
      if !l.SetToken? {
        NothingNew(minutes, s, l, me.kind, me.account, t);
        assert Knows(minutes, s, me, t);
      }
    }
  }

  lemma CallsKeepAccounts(minutes: map<string, nat>, s: State, l: Label, id: CallId)
    requires Enabled(minutes, s, l) && id in s.calls && id in Do(minutes, s, l).calls
    ensures SameAccount(s.calls[id], Do(minutes, s, l).calls[id])
  {
  }

  lemma GoneCall(minutes: map<string, nat>, s: State, l: Label, kind: string, account: string) returns (id: CallId)
    requires Enabled(minutes, s, l) && Busy(s, kind, account) && !Busy(Do(minutes, s, l), kind, account)
    ensures id in s.calls && s.calls[id].kind == kind && s.calls[id].account == account
    ensures id !in Do(minutes, s, l).calls
  {
    id :| id in s.calls && s.calls[id].kind == kind && s.calls[id].account == account;
    if id in Do(minutes, s, l).calls {
      CallsKeepAccounts(minutes, s, l, id);
    }
  }

  lemma ReadKept(minutes: map<string, nat>, s: State, l: Label)
    requires Enabled(minutes, s, l) && l.Read? && IdleInv(s, l.kind, l.account)
    ensures CallInv(minutes, Do(minutes, s, l), Do(minutes, s, l).calls[l.id])
  {
    var s' := Do(minutes, s, l);
    forall t | Live(s', l.kind, l.account, t) ensures Knows(minutes, s', s'.calls[l.id], t) {
      assert NamedFor(s, l.kind, l.account, t);
    }
  }

  lemma StepKeepsInv(minutes: map<string, nat>, s: State, l: Label)
    requires Inv(minutes, s) && Enabled(minutes, s, l) && Orderly(s, l)
    ensures Inv(minutes, Do(minutes, s, l))
  {
    var s' := Do(minutes, s, l);
    hide CallInv, IdleInv;
    forall id | id in s'.calls ensures CallInv(minutes, s', s'.calls[id]) {
      if l.Read? && l.id == id {
        ReadKept(minutes, s, l);
      } else if (l.Delete? || l.SetToken? || l.SetAccount? || l.Abandon?) && l.id == id {
        OwnCallKept(minutes, s, l);
      } else {
        assert s'.calls[id] == s.calls[id];
        OtherCallKept(minutes, s, l, s.calls[id]);
      }
    }
    forall kind, account | !Busy(s', kind, account) ensures IdleInv(s', kind, account) {
      if Busy(s, kind, account) {
        var id := GoneCall(minutes, s, l, kind, account);
        OwnCallKept(minutes, s, l);
      } else {
        IdleKept(minutes, s, l, kind, account);
      }
    }
  }

  lemma {:induction false} RunsKeepInv(minutes: map<string, nat>, s: State, run: seq<Label>)
    requires Inv(minutes, s) && Runs(minutes, s, run) && OrderlyRun(minutes, s, run)
    ensures Inv(minutes, After(minutes, s, run))
  {
    if run != [] {
      RunsKeepInv(minutes, s, run[..|run| - 1]);
      StepKeepsInv(minutes, After(minutes, s, run[..|run| - 1]), run[|run| - 1]);
    }
  }

  lemma InvIsSafe(minutes: map<string, nat>, s: State)
    requires Inv(minutes, s)
    ensures AtMostOneLive(s)
  {
    forall kind, account, t, u | Live(s, kind, account, t) && Live(s, kind, account, u) ensures t == u {
      if Busy(s, kind, account) {
        var id :| id in s.calls && s.calls[id].kind == kind && s.calls[id].account == account;
        assert CallInv(minutes, s, s.calls[id]);
      } else {
        assert IdleInv(s, kind, account);
      }
    }
  }

  predicate Initial(s: State) {
    s.calls == map[] && s.store == Store(map[], map[])
  }

  /** Over every orderly run of any number of callers, whatever accounts and types they
      interleave on, no account ever has two live tokens of a type. */
  lemma OrderlyRunsAreSafe(minutes: map<string, nat>, s: State, run: seq<Label>)
    requires Initial(s) && Runs(minutes, s, run) && OrderlyRun(minutes, s, run)
    ensures AtMostOneLive(After(minutes, s, run))
  {
    RunsKeepInv(minutes, s, run);
    InvIsSafe(minutes, After(minutes, s, run));
  }

  // ---------- overlapping generations ----------

  lemma Extend(minutes: map<string, nat>, s: State, run: seq<Label>, l: Label)
    requires Runs(minutes, s, run) && Enabled(minutes, After(minutes, s, run), l)
    ensures Runs(minutes, s, run + [l]) && After(minutes, s, run + [l]) == Do(minutes, After(minutes, s, run), l)
    ensures OrderlyRun(minutes, s, run) && Orderly(After(minutes, s, run), l) ==> OrderlyRun(minutes, s, run + [l])
  {
    assert (run + [l])[..|run|] == run;
  }

  ghost predicate Reaches(minutes: map<string, nat>, s: State, t: State) {
    exists run :: Runs(minutes, s, run) && OrderlyRun(minutes, s, run) && After(minutes, s, run) == t
  }

  lemma Stay(minutes: map<string, nat>, s: State)
    ensures Reaches(minutes, s, s)
  {
    assert Runs(minutes, s, []) && OrderlyRun(minutes, s, []) && After(minutes, s, []) == s;
  }

  lemma Step(minutes: map<string, nat>, s: State, t: State, l: Label)
    requires Reaches(minutes, s, t) && Enabled(minutes, t, l) && Orderly(t, l)
    ensures Reaches(minutes, s, Do(minutes, t, l))
  {
    var run :| Runs(minutes, s, run) && OrderlyRun(minutes, s, run) && After(minutes, s, run) == t;
    hide Runs, OrderlyRun, After, Enabled, Orderly, Do;
    Extend(minutes, s, run, l);
  }

  lemma {:induction false} RunsAppend(minutes: map<string, nat>, s: State, a: seq<Label>, b: seq<Label>)
    requires Runs(minutes, s, a) && Runs(minutes, After(minutes, s, a), b)
    ensures Runs(minutes, s, a + b) && After(minutes, s, a + b) == After(minutes, After(minutes, s, a), b)
    ensures OrderlyRun(minutes, s, a) && OrderlyRun(minutes, After(minutes, s, a), b) ==> OrderlyRun(minutes, s, a + b)
  {
    if b == [] {
      assert a + b == a;
    } else {
      var front, l := b[..|b| - 1], b[|b| - 1];
      RunsAppend(minutes, s, a, front);
      assert a + b == (a + front) + [l];
      hide Enabled, Orderly, Do;
      Extend(minutes, s, a + front, l);
    }
  }

  /** However it goes on in order, no account comes to have two live tokens of a type. */
  ghost predicate Safe(minutes: map<string, nat>, s: State) {
    forall t :: Reaches(minutes, s, t) ==> AtMostOneLive(t)
  }

  ghost predicate Unsafe(minutes: map<string, nat>, s: State) {
    exists t :: Reaches(minutes, s, t) && !AtMostOneLive(t)
  }

  function Other(a: string, b: string): (c: string)
    ensures c != a && c != b
  {
    seq(|a| + |b| + 1, _ => 'x')
  }

  predicate At(s: State, id: CallId, me: Call) {
    id in s.calls && s.calls[id] == me
  }

  /** The call comes to its end: its token lives and is named. */
  lemma Finish(minutes: map<string, nat>, s: State, t: State, id: CallId, token: string) returns (u: State)
    requires Reaches(minutes, s, t) && id in t.calls && t.calls[id].HasRead? && Expiry(minutes, t.calls[id].kind) > 0
    ensures var kind, account := t.calls[id].kind, t.calls[id].account;
            && Reaches(minutes, s, u) && u.now == t.now && u.calls == t.calls - {id}
            && Live(u, kind, account, token) && Named(u, kind, account) == Some(token)
            && forall other :: other != token && t.calls[id].seen != Some(other) && Live(t, kind, account, other) ==>
                 Live(u, kind, account, other)
  {
    hide Reaches;
    Step(minutes, s, t, Delete(id));
    u := Do(minutes, t, Delete(id));
    Step(minutes, s, u, SetToken(id, token, ""));
    u := Do(minutes, u, SetToken(id, token, ""));
    Step(minutes, s, u, SetAccount(id));
    u := Do(minutes, u, SetAccount(id));
    assert u.calls == t.calls - {id};
  }

  /** A call that reads while another one of the account and type is not through. */
  lemma OverlapIsUnsafe(minutes: map<string, nat>, s: State, id: CallId, first: CallId)
    requires id in s.calls && first in s.calls && id != first && s.calls[id].HasRead?
    requires SameAccount(s.calls[id], s.calls[first])
    requires forall i :: i in s.calls && i != id && SameAccount(s.calls[i], s.calls[id]) ==> i == first
    requires Expiry(minutes, s.calls[id].kind) > 0
    ensures Unsafe(minutes, s)
  {
    var kind, account, me := s.calls[id].kind, s.calls[id].account, s.calls[first];
    Stay(minutes, s);
    var token := Other(if me.HasRead? && me.seen.Some? then me.seen.value else "",
                       if me.HasIssued? then me.token else "");
    var next := Other(token, if me.HasIssued? then me.token else "");
    var t := Finish(minutes, s, s, id, token);
    assert t.calls[first] == me;
    if me.HasRead? {
      t := Finish(minutes, s, t, first, next);
    } else if me.HasDeleted? {
      hide Reaches;
      Step(minutes, s, t, SetToken(first, next, ""));
      t := Do(minutes, t, SetToken(first, next, ""));
    } else {
      t := ReadTheWrongOne(minutes, s, t, id, first, token, next);
    }
    assert Live(t, kind, account, token) && Live(t, kind, account, next);
  }

  /** The first call puts its token in the account key after all, and the next generation
      deletes that one. */
  lemma ReadTheWrongOne(minutes: map<string, nat>, s: State, t: State, id: CallId, first: CallId, token: string, next: string)
      returns (u: State)
    requires Reaches(minutes, s, t) && first in t.calls && t.calls[first].HasIssued? && id !in t.calls
    requires var me := t.calls[first];
             && token != me.token && next != token && Expiry(minutes, me.kind) > 0
             && Live(t, me.kind, me.account, token)
             && forall i :: i in t.calls && SameAccount(t.calls[i], me) ==> i == first
    ensures var me := t.calls[first];
            Reaches(minutes, s, u) && Live(u, me.kind, me.account, token) && Live(u, me.kind, me.account, next)
  {
    hide Reaches;
    var me := t.calls[first];
    Step(minutes, s, t, SetAccount(first));
    u := Do(minutes, t, SetAccount(first));
    assert Named(u, me.kind, me.account) == Some(me.token);
    assert !Busy(u, me.kind, me.account);
    Step(minutes, s, u, Read(id, me.kind, me.account));
    u := Do(minutes, u, Read(id, me.kind, me.account));
    u := Finish(minutes, s, u, id, next);
  }

  /** A generation of which only the token is left: the next one does not find it. */
  lemma LeftTokenIsUnsafe(minutes: map<string, nat>, s: State, kind: string, account: string, token: string)
    requires !Busy(s, kind, account) && Expiry(minutes, kind) > 0
    requires Live(s, kind, account, token) && !NamedFor(s, kind, account, token)
    ensures Unsafe(minutes, s)
  {
    Stay(minutes, s);
    var t := s;
    if Named(s, kind, account) == Some(token) {
      var pause := s.store.accounts[(kind, account)].expiresAt - s.now;
      Step(minutes, s, s, Wait(pause));
      t := Do(minutes, s, Wait(pause));
    }
    assert Live(t, kind, account, token) && Named(t, kind, account) != Some(token);
    var id := FreeId(t);
    var next := Other(token, token);
    hide Reaches;
    Step(minutes, s, t, Read(id, kind, account));
    t := Do(minutes, t, Read(id, kind, account));
    t := Finish(minutes, s, t, id, next);
    assert Live(t, kind, account, token) && Live(t, kind, account, next);
  }

  lemma FreeId(s: State) returns (id: CallId)
    ensures id !in s.calls
  {
    id := 0;
    var left := s.calls.Keys;
    while id in s.calls
      invariant left <= s.calls.Keys && forall i :: i in s.calls.Keys && i >= id ==> i in left
      decreases |left|
    {
      left := left - {id};
      id := id + 1;
    }
  }

  lemma OrderlyIsSafe(minutes: map<string, nat>, s: State, before: seq<Label>, l: Label)
    requires Initial(s) && Runs(minutes, s, before) && OrderlyRun(minutes, s, before)
    requires Enabled(minutes, After(minutes, s, before), l) && Orderly(After(minutes, s, before), l)
    ensures Safe(minutes, Do(minutes, After(minutes, s, before), l))
  {
    Extend(minutes, s, before, l);
    var next := After(minutes, s, before + [l]);
    forall t | Reaches(minutes, next, t) ensures AtMostOneLive(t) {
      var rest :| Runs(minutes, next, rest) && OrderlyRun(minutes, next, rest) && After(minutes, next, rest) == t;
      RunsAppend(minutes, s, before + [l], rest);
      OrderlyRunsAreSafe(minutes, s, before + [l] + rest);
    }
  }

  /** After any orderly history, and for every command of a type that has an expiry: it is
      safe, however it goes on in order, if and only if it is orderly, that is, if it does
      not read while another generation of the account and type is between its read and its
      last write, nor leave a live token that the account key does not name and outlast. */
  lemma SafeExactly(minutes: map<string, nat>, s: State, before: seq<Label>, l: Label)
    requires Initial(s) && Runs(minutes, s, before) && OrderlyRun(minutes, s, before)
    requires Enabled(minutes, After(minutes, s, before), l) && (l.Read? ==> Expiry(minutes, l.kind) > 0)
    ensures var now := After(minutes, s, before);
            Safe(minutes, Do(minutes, now, l)) <==> Orderly(now, l)
  {
    var now := After(minutes, s, before);
    var next := Do(minutes, now, l);
    RunsKeepInv(minutes, s, before);
    if Orderly(now, l) {
      OrderlyIsSafe(minutes, s, before, l);
    } else if l.Read? {
      var first :| first in now.calls && now.calls[first].kind == l.kind && now.calls[first].account == l.account;
      OverlapIsUnsafe(minutes, next, l.id, first);
    } else {
      var me := now.calls[l.id];
      LeftTokenIsUnsafe(minutes, next, me.kind, me.account, me.token);
    }
  }
}
