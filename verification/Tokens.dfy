/** `TokenManager`: a key per token and a key per account, both with an expiry, that
    together keep at most one token of an account and type alive. Times are seconds
    of the store's clock; every command takes effect at a moment of its own. */
module Tokens {
  import opened Wrappers

  datatype Data = Data(owner: Option<string>, email: string)

  datatype Entry = Entry(data: Data, expiresAt: int)

  datatype Pointer = Pointer(token: string, expiresAt: int)

  /** The token keys by type and token, the account keys by type and account. */
  datatype Store = Store(tokens: map<(string, string), Entry>, accounts: map<(string, string), Pointer>)

  predicate TokenLive(s: Store, kind: string, token: string, now: int) {
    (kind, token) in s.tokens && now < s.tokens[(kind, token)].expiresAt
  }

  predicate PointerLive(s: Store, kind: string, account: string, now: int) {
    (kind, account) in s.accounts && now < s.accounts[(kind, account)].expiresAt
  }

  /** `revoke_token` */
  function Revoke(s: Store, kind: string, token: string): Store {
    s.(tokens := map k | k in s.tokens && k != (kind, token) :: s.tokens[k])
  }

  /** The first half of `generate_token`: the token the account key names is deleted. */
  function RevokeCurrent(s: Store, kind: string, account: string, now: int): Store {
    if PointerLive(s, kind, account, now) then Revoke(s, kind, s.accounts[(kind, account)].token) else s
  }

  /** The second half: the token key at one moment, the account key at a later one. */
  function Issue(s: Store, kind: string, data: Data, token: string, expiry: nat, at: int, later: int): Store {
    var s' := s.(tokens := s.tokens[(kind, token) := Entry(data, at + expiry)]);
    if data.owner.None? then s'
    else s'.(accounts := s'.accounts[(kind, data.owner.value) := Pointer(token, later + expiry)])
  }

  datatype Account = Account(id: string, email: string)

  datatype Generated = Token(token: string) | NoRecipient | NoExpiry

  function Expiry(minutes: map<string, nat>, kind: string): nat {
    if kind in minutes then 60 * minutes[kind] else 0
  }

  function DataFor(account: Option<Account>, email: Option<string>): Data
    requires account.Some? || email.Some?
  {
    if account.Some? then Data(if account.value.id != "" then Some(account.value.id) else None, account.value.email)
    else Data(None, email.value)
  }

  function GenerateFor(s: Store, minutes: map<string, nat>, kind: string, data: Data, token: string,
                       first: int, second: int, third: int): Store {
    var s' := if data.owner.Some? then RevokeCurrent(s, kind, data.owner.value, first) else s;
    if Expiry(minutes, kind) == 0 then s' else Issue(s', kind, data, token, Expiry(minutes, kind), second, third)
  }

  /** What a generation promises, key by key: `first` is the moment it reads, the others
      those of its two writes, and it issues a token or stops before. */
  ghost predicate Generates(s: Store, s': Store, kind: string, account: Option<Account>, email: Option<string>,
                            token: string, seconds: nat, first: int, second: int, third: int)
    requires account.Some? || email.Some?
  {
    var issues := seconds > 0;
    // every other token stays as it is, but for the one the account key named
    && (forall k :: k in s'.tokens && !(issues && k == (kind, token)) ==> k in s.tokens && s'.tokens[k] == s.tokens[k])
    && (forall k :: k in s.tokens && k !in s'.tokens ==>
          && account.Some? && account.value.id != "" && (kind, account.value.id) in s.accounts
          && first < s.accounts[(kind, account.value.id)].expiresAt
          && k == (kind, s.accounts[(kind, account.value.id)].token))
    && (issues ==> (kind, token) in s'.tokens)
    && if account.Some? && account.value.id != "" then
         // whatever the email: the token the account key named is dead, none but the new one is
         // alive, which holds the id and the email of the account, and the account key names it
         var key := (kind, account.value.id);
         && (key in s.accounts && first < s.accounts[key].expiresAt && !(issues && s.accounts[key].token == token) ==>
               (kind, s.accounts[key].token) !in s'.tokens)
         && (forall t :: (kind, t) in s'.tokens && third < s'.tokens[(kind, t)].expiresAt && !(issues && t == token) ==>
               s'.tokens[(kind, t)].data.owner != Some(account.value.id))
         && (issues ==>
               && s'.tokens[(kind, token)] == Entry(Data(Some(account.value.id), account.value.email), second + seconds)
               && s'.accounts == s.accounts[key := Pointer(token, third + seconds)])
         && (!issues ==> s'.accounts == s.accounts)
       else
         // a token for nobody's account holds no id and the email there is
         && (issues ==>
               s'.tokens[(kind, token)]
               == Entry(Data(None, if account.Some? then account.value.email else email.value), second + seconds))
         && s'.accounts == s.accounts
  }

  lemma GeneratedStore(s: Store, minutes: map<string, nat>, kind: string, account: Option<Account>, email: Option<string>,
                       token: string, first: int, second: int, third: int)
    requires account.Some? || email.Some?
    requires Named(s, first) && first <= second <= third
    ensures var s' := GenerateFor(s, minutes, kind, DataFor(account, email), token, first, second, third);
            && Named(s', third)
            && Generates(s, s', kind, account, email, token, Expiry(minutes, kind), first, second, third)
  {
    var data := DataFor(account, email);
    var op := Generate(kind, data, token, first, second, third);
    var s' := GenerateFor(s, minutes, kind, data, token, first, second, third);
    GenerateNamed(s, minutes, op);
    if data.owner.Some? {
      GenerateLeaves(s, minutes, op);
      forall t | (kind, t) in s'.tokens && third < s'.tokens[(kind, t)].expiresAt
        ensures s'.tokens[(kind, t)].data.owner == data.owner ==> Expiry(minutes, kind) > 0 && t == token
      {
        assert s'.tokens[(kind, t)].data.owner == data.owner ==> OwnedLive(s', kind, data.owner.value, t, third);
      }
    }
    hide Named;
  }

  class TokenManager {
    /** The `..._TOKEN_EXPIRY_MINUTES` settings; none and zero both raise. */
    const minutes: map<string, nat>
    var now: int
    var store: Store

    ghost predicate Valid()
      reads this
    {
      Named(store, now)
    }

    constructor (minutes: map<string, nat>, now: int)
      ensures Valid()
      ensures this.minutes == minutes && this.now == now && store == Store(map[], map[])
    {
      this.minutes, this.now, store := minutes, now, Store(map[], map[]);
    }

    /** The clock goes on between calls and between the commands of a call. */
    method Wait(seconds: nat)
      modifies `now
      ensures now == old(now) + seconds && (old(Valid()) ==> Valid())
    {
      if Named(store, now) {
        LaterNamed(store, now, now + seconds);
      }
      now := now + seconds;
    }

    /** Reads the account key and deletes the token it names. */
    method RevokeCurrentToken(kind: string, account: string)
      modifies `store
      ensures store == RevokeCurrent(old(store), kind, account, now)
    {
      if (kind, account) in store.accounts && now < store.accounts[(kind, account)].expiresAt {
        store := Revoke(store, kind, store.accounts[(kind, account)].token);
      }
    }

    /** `_set_current_token_for_account` */
    method SetCurrentToken(kind: string, account: string, token: string, expiry: nat)
      modifies `store
      ensures store == old(store).(accounts := old(store).accounts[(kind, account) := Pointer(token, now + expiry)])
    {
      store := store.(accounts := store.accounts[(kind, account) := Pointer(token, now + expiry)]);
    }

    /** `generate_token`; the token is a random identifier, and `pause` and `pause'`
        are the seconds its commands are apart. */
    method GenerateToken(kind: string, account: Option<Account>, email: Option<string>, token: string,
                         pause: nat, pause': nat)
      returns (r: Generated)
      requires Valid()
      modifies `now, `store
      ensures Valid()
      ensures r == if account.None? && email.None? then NoRecipient
                   else if kind !in minutes || minutes[kind] == 0 then NoExpiry else Token(token)
      ensures r.NoRecipient? ==> store == old(store)
      ensures now == old(now) + (if !r.Token? then 0
                                 else if account.Some? && account.value.id != "" then pause + pause' else pause)
      ensures !r.NoRecipient? ==>
                Generates(old(store), store, kind, account, email, token, if r.Token? then 60 * minutes[kind] else 0,
                          old(now), if r.Token? then old(now) + pause else old(now), now)
    {
      hide Named, OwnedLive, RevokeCurrent, Revoke, Generates;
      if account.None? && email.None? {
        return NoRecipient;
      }
      var data := DataFor(account, email);
      ghost var second := if Expiry(minutes, kind) == 0 then now else now + pause;
      ghost var third := if Expiry(minutes, kind) == 0 || data.owner.None? then second else second + pause';
      ghost var after := GenerateFor(store, minutes, kind, data, token, now, second, third);
      GeneratedStore(store, minutes, kind, account, email, token, now, second, third);
      if data.owner.Some? {
        RevokeCurrentToken(kind, data.owner.value);
      }
      var expiry := Expiry(minutes, kind);
      if expiry == 0 {
        assert store == after;
        return NoExpiry;
      }
      Wait(pause);
      store := store.(tokens := store.tokens[(kind, token) := Entry(data, now + expiry)]);
      if data.owner.Some? {
        Wait(pause');
        SetCurrentToken(kind, data.owner.value, token, expiry);
      }
      assert store == after;
      return Token(token);
    }

    /** `revoke_token` */
    method RevokeToken(kind: string, token: string)
      requires Valid()
      modifies `store
      ensures Valid()
      ensures (kind, token) !in store.tokens
      ensures forall k :: k != (kind, token) ==>
                (k in store.tokens <==> k in old(store.tokens))
                && (k in store.tokens ==> store.tokens[k] == old(store.tokens)[k])
      ensures store.accounts == old(store.accounts)
    {
      RevokeNamed(store, kind, token, now);
      store := Revoke(store, kind, token);
    }

    /** `get_token_data` */
    method GetTokenData(kind: string, token: string) returns (r: Option<Data>)
      ensures r.Some? <==> (kind, token) in store.tokens && now < store.tokens[(kind, token)].expiresAt
      ensures r.Some? ==> r.value == store.tokens[(kind, token)].data
    {
      if (kind, token) in store.tokens && now < store.tokens[(kind, token)].expiresAt {
        return Some(store.tokens[(kind, token)].data);
      }
      return None;
    }
  }

  // ---------- runs ----------

  /** A whole call; a generation reads at one moment and writes at two later ones. */
  datatype Op =
    | Generate(kind: string, data: Data, token: string, now: int, second: int, third: int)
    | RevokeOp(kind: string, token: string, now: int)

  function End(op: Op): int {
    if op.Generate? then op.third else op.now
  }

  predicate InOrder(op: Op) {
    op.Generate? ==> op.now <= op.second <= op.third
  }

  function Do(s: Store, minutes: map<string, nat>, op: Op): Store {
    match op
    case Generate(kind, data, token, now, second, third) =>
      GenerateFor(s, minutes, kind, data, token, now, second, third)
    case RevokeOp(kind, token, _) => Revoke(s, kind, token)
  }

  predicate Sequential(now: int, ops: seq<Op>)
    decreases |ops|
  {
    ops == [] || (now <= ops[0].now && InOrder(ops[0]) && Sequential(End(ops[0]), ops[1..]))
  }

  function After(s: Store, minutes: map<string, nat>, ops: seq<Op>): Store
    decreases |ops|
  {
    if ops == [] then s else After(Do(s, minutes, ops[0]), minutes, ops[1..])
  }

  function EndOf(now: int, ops: seq<Op>): int
    decreases |ops|
  {
    if ops == [] then now else EndOf(End(ops[0]), ops[1..])
  }

  predicate OwnedLive(s: Store, kind: string, account: string, token: string, now: int) {
    TokenLive(s, kind, token, now) && s.tokens[(kind, token)].data.owner == Some(account)
  }

  /** A live token of an account is the one its account key names, and that key lasts
      at least as long. */
  ghost predicate Named(s: Store, now: int) {
    forall kind, account, token :: OwnedLive(s, kind, account, token, now) ==>
      (&& PointerLive(s, kind, account, now)
       && s.accounts[(kind, account)].token == token
       && s.tokens[(kind, token)].expiresAt <= s.accounts[(kind, account)].expiresAt)
  }

  lemma LaterNamed(s: Store, now: int, later: int)
    requires Named(s, now) && now <= later
    ensures Named(s, later)
  {
  }

  lemma RevokeNamed(s: Store, kind: string, token: string, now: int)
    requires Named(s, now)
    ensures Named(Revoke(s, kind, token), now)
  {
    var s' := Revoke(s, kind, token);
    forall k, account, t | OwnedLive(s', k, account, t, now) ensures OwnedLive(s, k, account, t, now) {
    }
  }

  /** After the first half of a generation no token of the account is left alive. */
  lemma RevokedCurrent(s: Store, kind: string, account: string, now: int)
    requires Named(s, now)
    ensures var s' := RevokeCurrent(s, kind, account, now);
            Named(s', now) && forall token :: !OwnedLive(s', kind, account, token, now)
  {
  }

  lemma IssueNamed(s: Store, kind: string, data: Data, token: string, expiry: nat, now: int, second: int, third: int)
    requires Named(s, now) && now <= second <= third
    requires data.owner.Some? ==> forall t :: !OwnedLive(s, kind, data.owner.value, t, now)
    ensures var s' := Issue(s, kind, data, token, expiry, second, third);
            && Named(s', third)
            && (data.owner.Some? ==> forall t :: OwnedLive(s', kind, data.owner.value, t, third) ==> t == token)
  {
    var s' := Issue(s, kind, data, token, expiry, second, third);
    forall k, account, t | OwnedLive(s', k, account, t, third) && !(k == kind && t == token)
      ensures OwnedLive(s, k, account, t, now)
    {
    }
  }

  lemma GenerateNamed(s: Store, minutes: map<string, nat>, op: Op)
    requires Named(s, op.now) && op.Generate? && InOrder(op)
    ensures Named(Do(s, minutes, op), op.third)
    ensures op.data.owner.Some? ==>
              forall t :: OwnedLive(Do(s, minutes, op), op.kind, op.data.owner.value, t, op.third) ==> t == op.token
  {
    var s' := s;
    if op.data.owner.Some? {
      RevokedCurrent(s, op.kind, op.data.owner.value, op.now);
      s' := RevokeCurrent(s, op.kind, op.data.owner.value, op.now);
    }
    if Expiry(minutes, op.kind) == 0 {
      LaterNamed(s', op.now, op.third);
      if op.data.owner.Some? {
        forall t ensures !OwnedLive(s', op.kind, op.data.owner.value, t, op.third) {
          assert !OwnedLive(s', op.kind, op.data.owner.value, t, op.now);
        }
      }
    } else {
      IssueNamed(s', op.kind, op.data, op.token, Expiry(minutes, op.kind), op.now, op.second, op.third);
    }
  }

  lemma {:induction false} RunsKeepNamed(s: Store, minutes: map<string, nat>, now: int, ops: seq<Op>)
    requires Named(s, now) && Sequential(now, ops)
    ensures Named(After(s, minutes, ops), EndOf(now, ops))
    decreases |ops|
  {
    if ops != [] {
      var op := ops[0];
      LaterNamed(s, now, op.now);
      if op.Generate? {
        GenerateNamed(s, minutes, op);
      } else {
        RevokeNamed(s, op.kind, op.token, op.now);
      }
      RunsKeepNamed(Do(s, minutes, op), minutes, End(op), ops[1..]);
    }
  }

  /** Over all sequential runs of generations, revocations and waiting: at no time are
      two tokens of one account and type alive, and the one that is, if any, is the one
      the account key names. */
  lemma SingleLiveToken(minutes: map<string, nat>, start: int, ops: seq<Op>, later: int,
                        kind: string, account: string, token: string, other: string)
    requires Sequential(start, ops) && EndOf(start, ops) <= later
    requires var s := After(Store(map[], map[]), minutes, ops);
             && (kind, token) in s.tokens && later < s.tokens[(kind, token)].expiresAt
             && s.tokens[(kind, token)].data.owner == Some(account)
    ensures var s := After(Store(map[], map[]), minutes, ops);
            && (kind, account) in s.accounts && later < s.accounts[(kind, account)].expiresAt
            && s.accounts[(kind, account)].token == token
            && ((&& (kind, other) in s.tokens && later < s.tokens[(kind, other)].expiresAt
                 && s.tokens[(kind, other)].data.owner == Some(account)) ==> other == token)
  {
    var s := After(Store(map[], map[]), minutes, ops);
    assert OwnedLive(s, kind, account, token, later);
    RunsKeepNamed(Store(map[], map[]), minutes, start, ops);
    LaterNamed(s, EndOf(start, ops), later);
    if && (kind, other) in s.tokens && later < s.tokens[(kind, other)].expiresAt
       && s.tokens[(kind, other)].data.owner == Some(account) {
      assert OwnedLive(s, kind, account, other, later);
    }
  }

  /** A generation that succeeds leaves its own token and no other, if it is not so
      slow that the token has expired before it ends. */
  lemma GenerationReplaces(s: Store, minutes: map<string, nat>, op: Op, token: string)
    requires op.Generate? && op.data.owner.Some? && InOrder(op) && Named(s, op.now)
    ensures OwnedLive(Do(s, minutes, op), op.kind, op.data.owner.value, token, op.third)
       <==> token == op.token && op.third < op.second + Expiry(minutes, op.kind)
  {
    GenerateNamed(s, minutes, op);
    if Expiry(minutes, op.kind) == 0 {
      var s' := RevokeCurrent(s, op.kind, op.data.owner.value, op.now);
      RevokedCurrent(s, op.kind, op.data.owner.value, op.now);
      assert !OwnedLive(s', op.kind, op.data.owner.value, token, op.now);
    }
  }

  lemma GenerateLeaves(s: Store, minutes: map<string, nat>, op: Op)
    requires op.Generate? && op.data.owner.Some? && InOrder(op) && Named(s, op.now)
    ensures forall t :: OwnedLive(Do(s, minutes, op), op.kind, op.data.owner.value, t, op.third) ==>
              t == op.token && Expiry(minutes, op.kind) > 0
  {
    forall t | OwnedLive(Do(s, minutes, op), op.kind, op.data.owner.value, t, op.third)
      ensures t == op.token && Expiry(minutes, op.kind) > 0
    {
      GenerationReplaces(s, minutes, op, t);
    }
  }
}
