/** `RateLimiter`: a sorted set of attempt seconds per key, pruned at every query and
    left to expire, against counting in the full history. The clock is in milliseconds,
    as Redis expiries are; scores are whole seconds, as `int(time.time())` gives them. */
module RateLimits {

  /** A sorted set whose members are their own scores. */
  datatype Zset = Zset(members: set<int>, expiresAt: int)

  type Keys = map<string, Zset>

  function Second(now: nat): nat {
    now / 1000
  }

  function Live(keys: Keys, key: string, now: nat): set<int> {
    if key in keys && now < keys[key].expiresAt then keys[key].members else {}
  }

  function Above(members: set<int>, bound: int): set<int> {
    set s | s in members && s > bound
  }

  /** `zremrangebyscore key -inf bound`: what is left of an existing key. */
  function Prune(keys: Keys, key: string, now: nat, bound: int): Keys {
    var left := Above(Live(keys, key, now), bound);
    if left == {} then map k | k in keys && k != key :: keys[k]
    else keys[key := Zset(left, keys[key].expiresAt)]
  }

  /** `zadd` of the present second, then `expire` after twice the window; an expiry
      that is not in the future deletes the key. */
  function Attempt(keys: Keys, key: string, now: nat, window: int): Keys {
    if window <= 0 then map k | k in keys && k != key :: keys[k]
    else keys[key := Zset(Live(keys, key, now) + {Second(now)}, now + 2000 * window)]
  }

  predicate Exceeds(attempts: nat, maxAttempts: int) {
    attempts != 0 && attempts >= maxAttempts
  }

  class RateLimiter {
    const maxAttempts: int
    const timeWindow: int
    var now: nat
    var keys: Keys
    /** Every attempt there ever was. */
    ghost var history: History

    ghost predicate Valid()
      reads this
    {
      Agrees(keys, history, now, timeWindow)
    }

    constructor (maxAttempts: int, timeWindow: int, now: nat)
      ensures Valid() && history == {} && keys == map[]
      ensures this.maxAttempts == maxAttempts && this.timeWindow == timeWindow && this.now == now
    {
      this.maxAttempts, this.timeWindow, this.now, keys, history := maxAttempts, timeWindow, now, map[], {};
    }

    /** `is_rate_limited` */
    method IsRateLimited(email: string) returns (limited: bool)
      requires Valid()
      modifies `keys
      ensures Valid()
      ensures keys == Prune(old(keys), email, now, Second(now) - timeWindow)
      // the different seconds of the history that lie inside the window decide
      ensures var seconds := set e | e in history && e.0 == email && e.1 > now / 1000 - timeWindow :: e.1;
              limited <==> if maxAttempts >= 1 then |seconds| >= maxAttempts else seconds != {}
    {
      QueryAgrees(keys, history, email, now, timeWindow);
      var currentTime := Second(now);
      var windowStart := currentTime - timeWindow;
      keys := Prune(keys, email, now, windowStart);
      var attempts := |Live(keys, email, now)|;
      if attempts != 0 && attempts >= maxAttempts {
        return true;
      }
      return false;
    }

    /** `increment_rate_limit` */
    method IncrementRateLimit(email: string)
      requires Valid()
      modifies `keys, `history
      ensures Valid() && history == old(history) + {(email, now / 1000 as int)}
      ensures forall key :: key != email ==> Live(keys, key, now) == Live(old(keys), key, now)
      ensures Live(keys, email, now)
           == if timeWindow <= 0 then {} else Live(old(keys), email, now) + {Second(now) as int}
      ensures email in keys ==> keys[email].expiresAt == now + 2000 * timeWindow
    {
      IncrementAgrees(keys, history, email, now, timeWindow);
      keys := Attempt(keys, email, now, timeWindow);
      history := history + {(email, Second(now) as int)};
    }

    /** The clock goes on between calls. */
    method Tick(milliseconds: nat)
      requires Valid()
      modifies `now
      ensures Valid() && now == old(now) + milliseconds
    {
      LaterAgrees(keys, history, now, now + milliseconds, timeWindow);
      now := now + milliseconds;
    }
  }

  // ---------- runs ----------

  datatype Op = Query(email: string, now: nat) | Increment(email: string, now: nat)

  function Do(keys: Keys, op: Op, window: int): Keys {
    match op
    case Query(email, now) => Prune(keys, email, now, Second(now) - window)
    case Increment(email, now) => Attempt(keys, email, now, window)
  }

  /** The answers of all the queries, in order. */
  function Answers(keys: Keys, ops: seq<Op>, window: int, maxAttempts: int): seq<bool>
    decreases |ops|
  {
    if ops == [] then []
    else
      var keys' := Do(keys, ops[0], window);
      (if ops[0].Query? then [Exceeds(|Live(keys', ops[0].email, ops[0].now)|, maxAttempts)] else [])
      + Answers(keys', ops[1..], window, maxAttempts)
  }

  // ---------- the specification ----------

  /** Every attempt there ever was. */
  type History = set<(string, int)>

  function Record(h: History, op: Op): History {
    if op.Increment? then h + {(op.email, Second(op.now) as int)} else h
  }

  /** The different seconds inside the window. */
  function InWindow(h: History, email: string, now: nat, window: int): set<int> {
    set e | e in h && e.0 == email && e.1 > Second(now) - window :: e.1
  }

  function SpecAnswers(h: History, ops: seq<Op>, window: int, maxAttempts: int): seq<bool>
    decreases |ops|
  {
    if ops == [] then []
    else
      (if ops[0].Query? then [Exceeds(|InWindow(h, ops[0].email, ops[0].now, window)|, maxAttempts)] else [])
      + SpecAnswers(Record(h, ops[0]), ops[1..], window, maxAttempts)
  }

  predicate Nondecreasing(now: nat, ops: seq<Op>) {
    && (forall i :: 0 <= i < |ops| ==> now <= ops[i].now)
    && (forall i, j :: 0 <= i < j < |ops| ==> ops[i].now <= ops[j].now)
  }

  /** The store holds attempts of the history only, every one that still counts among
      them, and no key expires while one of its members counts. */
  ghost predicate Agrees(keys: Keys, h: History, now: nat, window: int) {
    && (forall e :: e in h ==> 1000 * e.1 <= now)
    && (forall key, s :: key in keys && s in keys[key].members ==>
          (key, s) in h && 1000 * s + 2000 * window <= keys[key].expiresAt)
    && (forall e :: e in h && e.1 > Second(now) - window ==> e.0 in keys && e.1 in keys[e.0].members)
  }

  /** The expiry of twice the window never takes away what still counts. */
  lemma CountedIsLive(keys: Keys, h: History, now: nat, window: int, e: (string, int))
    requires Agrees(keys, h, now, window)
    requires e in h && e.1 > Second(now) - window
    ensures e.1 in Live(keys, e.0, now)
  {
  }

  lemma LaterAgrees(keys: Keys, h: History, now: nat, later: nat, window: int)
    requires Agrees(keys, h, now, window) && now <= later
    ensures Agrees(keys, h, later, window)
  {
  }

  lemma QueryAgrees(keys: Keys, h: History, email: string, now: nat, window: int)
    requires Agrees(keys, h, now, window)
    ensures var keys' := Do(keys, Query(email, now), window);
            Agrees(keys', h, now, window) && Live(keys', email, now) == InWindow(h, email, now, window)
  {
    var keys' := Do(keys, Query(email, now), window);
    forall e | e in h && e.1 > Second(now) - window
      ensures e.0 in keys' && e.1 in keys'[e.0].members
      ensures e.0 == email ==> e.1 in Live(keys', email, now)
    {
      CountedIsLive(keys, h, now, window, e);
      assert e.0 == email ==> e.1 in Above(Live(keys, email, now), Second(now) - window);
    }
    forall s ensures s in Live(keys', email, now) <==> s in InWindow(h, email, now, window) {
      if s in InWindow(h, email, now, window) {
        assert (email, s) in h;
      }
    }
  }

  lemma IncrementAgrees(keys: Keys, h: History, email: string, now: nat, window: int)
    requires Agrees(keys, h, now, window)
    ensures Agrees(Do(keys, Increment(email, now), window), Record(h, Increment(email, now)), now, window)
  {
  }

  /** For every window, whatever the order of attempts and queries and however long the
      pauses between them: the pruned and expiring set gives the answer of the full history. */
  lemma {:induction false} SlidingWindow(keys: Keys, h: History, now: nat, ops: seq<Op>, window: int, maxAttempts: int)
    requires Agrees(keys, h, now, window) && Nondecreasing(now, ops)
    ensures Answers(keys, ops, window, maxAttempts) == SpecAnswers(h, ops, window, maxAttempts)
    decreases |ops|
  {
    if ops != [] {
      var op := ops[0];
      LaterAgrees(keys, h, now, op.now, window);
      if op.Query? {
        QueryAgrees(keys, h, op.email, op.now, window);
      } else {
        IncrementAgrees(keys, h, op.email, op.now, window);
      }
      SlidingWindow(Do(keys, op, window), Record(h, op), op.now, ops[1..], window, maxAttempts);
    }
  }

  /** A new limiter agrees with the empty history. */
  lemma FromTheStart(now: nat, ops: seq<Op>, window: int, maxAttempts: int)
    requires Nondecreasing(now, ops)
    ensures Answers(map[], ops, window, maxAttempts) == SpecAnswers({}, ops, window, maxAttempts)
  {
    SlidingWindow(map[], {}, now, ops, window, maxAttempts);
  }

  // ---------- seconds and attempts ----------

  /** An attempt with its moment in milliseconds. */
  type Attempts = seq<(string, nat)>

  /** The history of the seconds of some attempts. */
  function HistoryOf(attempts: Attempts): History {
    set a | a in attempts :: (a.0, Second(a.1) as int)
  }

  predicate Counts(a: (string, nat), email: string, now: nat, window: int) {
    a.0 == email && Second(a.1) > Second(now) - window
  }

  /** How many attempts lie in the window. */
  function Counted(attempts: Attempts, email: string, now: nat, window: int): nat {
    if attempts == [] then 0
    else
      Counted(attempts[..|attempts| - 1], email, now, window)
      + if Counts(attempts[|attempts| - 1], email, now, window) then 1 else 0
  }

  /** No two attempts that count fall into one second. */
  ghost predicate Apart(attempts: Attempts, email: string, now: nat, window: int) {
    forall i, j :: 0 <= i < j < |attempts| && Counts(attempts[i], email, now, window) && Counts(attempts[j], email, now, window) ==>
      Second(attempts[i].1) != Second(attempts[j].1)
  }

  lemma SecondsOfOneMore(attempts: Attempts, email: string, now: nat, window: int)
    requires attempts != []
    ensures var front, last := attempts[..|attempts| - 1], attempts[|attempts| - 1];
            var before := InWindow(HistoryOf(front), email, now, window);
            && InWindow(HistoryOf(attempts), email, now, window)
               == (if Counts(last, email, now, window) then before + {Second(last.1) as int} else before)
            && (Second(last.1) as int in before
                <==> Counts((email, last.1), email, now, window)
                     && exists i :: 0 <= i < |front| && Counts(front[i], email, now, window)
                                    && Second(front[i].1) == Second(last.1))
  {
    var front, last := attempts[..|attempts| - 1], attempts[|attempts| - 1];
    assert attempts == front + [last];
    assert HistoryOf(attempts) == HistoryOf(front) + {(last.0, Second(last.1) as int)};
    var before := InWindow(HistoryOf(front), email, now, window);
    if Second(last.1) as int in before {
      assert (email, Second(last.1) as int) in HistoryOf(front);
      var a :| a in front && a.0 == email && Second(a.1) == Second(last.1);
      var i :| 0 <= i < |front| && front[i] == a;
    }
    if i :| 0 <= i < |front| && Counts(front[i], email, now, window) && Second(front[i].1) == Second(last.1) {
      assert front[i] in front;
      assert (email, Second(last.1) as int) in HistoryOf(front);
    }
  }

  /** There are at most as many seconds as attempts, and as many only if no two share one. */
  lemma {:induction false} SecondsCount(attempts: Attempts, email: string, now: nat, window: int)
    ensures var seconds := InWindow(HistoryOf(attempts), email, now, window);
            && |seconds| <= Counted(attempts, email, now, window)
            && (|seconds| == Counted(attempts, email, now, window) <==> Apart(attempts, email, now, window))
  {
    if attempts == [] {
      assert InWindow(HistoryOf([]), email, now, window) == {};
    } else {
      var n := |attempts| - 1;
      var front, last := attempts[..n], attempts[n];
      SecondsCount(front, email, now, window);
      SecondsOfOneMore(attempts, email, now, window);
      hide HistoryOf, InWindow;
      ApartOneMore(attempts, email, now, window);
    }
  }

  lemma ApartOneMore(attempts: Attempts, email: string, now: nat, window: int)
    requires attempts != []
    ensures var front, last := attempts[..|attempts| - 1], attempts[|attempts| - 1];
            Apart(attempts, email, now, window)
            <==> Apart(front, email, now, window)
                 && (Counts(last, email, now, window) ==>
                       forall i :: 0 <= i < |front| && Counts(front[i], email, now, window) ==>
                         Second(front[i].1) != Second(last.1))
  {
    var front := attempts[..|attempts| - 1];
    assert forall i :: 0 <= i < |front| ==> attempts[i] == front[i];
    hide Counts, Second;
  }

  /** The limiter counts seconds, not attempts: its answers are those of counting attempts,
      for every limit, if and only if no two that count fall into one second. */
  lemma CountsAttemptsExactly(attempts: Attempts, email: string, now: nat, window: int)
    ensures (forall limit: int ::
               Exceeds(|InWindow(HistoryOf(attempts), email, now, window)|, limit)
               == Exceeds(Counted(attempts, email, now, window), limit))
       <==> Apart(attempts, email, now, window)
  {
    SecondsCount(attempts, email, now, window);
    var seconds, count := |InWindow(HistoryOf(attempts), email, now, window)|, Counted(attempts, email, now, window);
    if seconds < count {
      assert Exceeds(seconds, count) != Exceeds(count, count);
    }
  }

  // ---------- the limit itself ----------

  function Increments(email: string, times: seq<nat>): seq<Op> {
    seq(|times|, i requires 0 <= i < |times| => Increment(email, times[i]))
  }

  function AttemptsAt(email: string, times: seq<nat>): Attempts {
    seq(|times|, i requires 0 <= i < |times| => (email, times[i]))
  }

  lemma {:induction false} AnswerAfter(h: History, email: string, times: seq<nat>, now: nat, window: int, maxAttempts: int)
    ensures SpecAnswers(h, Increments(email, times) + [Query(email, now)], window, maxAttempts)
         == [Exceeds(|InWindow(h + HistoryOf(AttemptsAt(email, times)), email, now, window)|, maxAttempts)]
    decreases |times|
  {
    var ops := Increments(email, times) + [Query(email, now)];
    if times == [] {
      assert ops == [Query(email, now)] && ops[1..] == [];
      assert h + HistoryOf(AttemptsAt(email, times)) == h;
    } else {
      var rest := times[1..];
      assert ops[1..] == Increments(email, rest) + [Query(email, now)];
      AnswerAfter(Record(h, ops[0]), email, rest, now, window, maxAttempts);
      assert AttemptsAt(email, times) == [(email, times[0])] + AttemptsAt(email, rest);
      assert Record(h, ops[0]) + HistoryOf(AttemptsAt(email, rest)) == h + HistoryOf(AttemptsAt(email, times));
    }
  }

  lemma {:induction false} AllCounted(email: string, times: seq<nat>, now: nat, window: int)
    requires forall i :: 0 <= i < |times| ==> times[i] / 1000 > now / 1000 - window
    ensures Counted(AttemptsAt(email, times), email, now, window) == |times|
  {
    if times != [] {
      var front := times[..|times| - 1];
      AllCounted(email, front, now, window);
      assert AttemptsAt(email, times)[..|times| - 1] == AttemptsAt(email, front);
    }
  }

  /** From an empty store: after attempts in different seconds of one window, a query in that
      window answers yes exactly when there were at least as many as the limit. */
  lemma LimitReachedExactly(email: string, times: seq<nat>, now: nat, window: int, maxAttempts: int)
    requires maxAttempts >= 1
    requires forall i, j :: 0 <= i < j < |times| ==> times[i] / 1000 < times[j] / 1000
    requires forall i :: 0 <= i < |times| ==> times[i] <= now && times[i] / 1000 > now / 1000 - window
    ensures Answers(map[], Increments(email, times) + [Query(email, now)], window, maxAttempts)
         == [|times| >= maxAttempts]
  {
    var ops, attempts := Increments(email, times) + [Query(email, now)], AttemptsAt(email, times);
    assert forall i, j :: 0 <= i < j < |times| ==> times[i] <= times[j];
    FromTheStart(0, ops, window, maxAttempts);
    AnswerAfter({}, email, times, now, window, maxAttempts);
    assert {} + HistoryOf(attempts) == HistoryOf(attempts);
    AllCounted(email, times, now, window);
    assert Apart(attempts, email, now, window);
    SecondsCount(attempts, email, now, window);
  }
}
