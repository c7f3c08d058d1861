/** The arithmetic of the round robin: the shared counter, its wrap-around, and the
    list element Python's indexing picks for a counter value. */
module Rotation {
  import opened NumberTheory

  /** The last slot handed out before the counter starts again at 1. */
  const LAST_SLOT: nat := 9_999_999

  /** The slot after an increment of a counter holding v. */
  function Next(v: nat): (slot: nat)
    ensures 1 <= slot <= LAST_SLOT
  {
    if v + 1 >= 10_000_000 then 1 else v + 1
  }

  /** The counter after j increments by one undisturbed client. */
  function Nth(v: nat, j: nat): nat {
    if j == 0 then v else Next(Nth(v, j - 1))
  }

  /** The index the code computes for a slot; it may be -1. */
  function RealIndex(slot: nat, n: nat): int
    requires n > 0
  {
    var current := if slot > n then slot % n else slot;
    var index := current - 1;
    if index > n then 0 else index
  }

  /** The element a Python list of n elements has at index i. */
  function PythonIndex(i: int, n: nat): nat
    requires 0 <= i + n && i < n
  {
    if i < 0 then i + n else i
  }

  /** Slots go round the list one by one, whatever its length. */
  lemma PicksRoundRobin(slot: nat, n: nat)
    requires slot >= 1 && n > 0
    ensures 0 <= RealIndex(slot, n) + n && RealIndex(slot, n) < n
    ensures PythonIndex(RealIndex(slot, n), n) == (slot - 1) % n
  {
    if slot <= n {
      ModUnique(slot - 1, n, 0, slot - 1);
    } else {
      var q, r := slot / n, slot % n;
      assert slot == q * n + r;
      if r > 0 {
        ModUnique(slot - 1, n, q, r - 1);
      } else {
        MulSubRight(q, 1, n);
        ModUnique(slot - 1, n, q - 1, n - 1);
      }
    }
  }

  // ---------- which elements n increments reach ----------

  /** The element the next increment of a counter holding v picks. */
  function NextPick(v: nat, n: nat): (i: nat)
    requires n > 0
    ensures i < n
  {
    (Next(v) - 1) % n
  }

  /** The element the j-th increment from v picks. */
  function Visited(v: nat, j: nat, n: nat): (i: nat)
    requires n > 0
    ensures i < n
  {
    NextPick(Nth(v, j), n)
  }

  /** The code's indexing picks the element that is visited. */
  lemma SlotPicks(v: nat, rounds: nat, n: nat)
    requires rounds > 0 && n > 0
    ensures Nth(v, rounds) == Next(Nth(v, rounds - 1))
    ensures var i := RealIndex(Nth(v, rounds), n);
            0 <= i + n && i < n && PythonIndex(i, n) == Visited(v, rounds - 1, n)
  {
    PicksRoundRobin(Nth(v, rounds), n);
    hide RealIndex, PythonIndex;
  }

  lemma {:induction false} NthNth(v: nat, i: nat, j: nat)
    ensures Nth(Nth(v, i), j) == Nth(v, i + j)
  {
    if j > 0 {
      NthNth(v, i, j - 1);
    }
  }

  /** Increments go on where earlier ones left off. */
  lemma VisitedLater(v: nat, i: nat, j: nat, n: nat)
    requires n > 0
    ensures Visited(Nth(v, i), j, n) == Visited(v, i + j, n)
  {
    NthNth(v, i, j);
    hide Nth, NextPick;
  }

  ghost predicate Covers(v: nat, n: nat)
    requires n > 0
  {
    forall i: nat :: i < n ==> Reached(v, n, i)
  }

  ghost predicate Reached(v: nat, n: nat, i: nat)
    requires n > 0
  {
    exists j: nat :: j < n && Visited(v, j, n) == i
  }

  /** What decides whether n increments reach all n elements: they stay clear of the
      wrap-around, or n divides the number of slots. */
  predicate Undisturbed(v: nat, n: nat)
    requires n > 0
  {
    n <= LAST_SLOT && (v + n <= LAST_SLOT || v >= LAST_SLOT || LAST_SLOT % n == 0)
  }

  lemma {:induction false} NthClosed(v: nat, j: nat)
    requires j <= LAST_SLOT
    ensures v < LAST_SLOT && v + j <= LAST_SLOT ==> Nth(v, j) == v + j
    ensures v < LAST_SLOT && v + j > LAST_SLOT ==> Nth(v, j) == v + j - LAST_SLOT
    ensures v >= LAST_SLOT && j > 0 ==> Nth(v, j) == j
  {
    if j > 0 {
      NthClosed(v, j - 1);
    }
  }

  /** Every remainder occurs among n consecutive numbers. */
  lemma ConsecutiveReach(a: nat, n: nat, i: nat) returns (j: nat)
    requires i < n
    ensures j < n && (a + j) % n == i
  {
    var r, q := a % n, a / n;
    assert a == q * n + r;
    if i >= r {
      j := i - r;
      ModUnique(a + j, n, q, i);
    } else {
      j := n + i - r;
      MulAddRight(q, 1, n);
      ModUnique(a + j, n, q + 1, i);
    }
  }

  lemma VisitedClosed(v: nat, j: nat, n: nat)
    requires n > 0 && j < n <= LAST_SLOT
    ensures v < LAST_SLOT && v + j < LAST_SLOT ==> Visited(v, j, n) == (v + j) % n
    ensures v < LAST_SLOT && v + j >= LAST_SLOT ==> Visited(v, j, n) == v + j - LAST_SLOT
    ensures v >= LAST_SLOT ==> Visited(v, j, n) == j
  {
    NthClosed(v, j + 1);
    assert Nth(v, j + 1) == Next(Nth(v, j));
    if v >= LAST_SLOT {
      ModUnique(j, n, 0, j);
    } else if v + j >= LAST_SLOT {
      ModUnique(v + j - LAST_SLOT, n, 0, v + j - LAST_SLOT);
    }
  }

  lemma UndisturbedCovers(v: nat, n: nat)
    requires n > 0 && Undisturbed(v, n)
    ensures Covers(v, n)
  {
    forall i: nat | i < n ensures Reached(v, n, i) {
      var j: nat;
      if v >= LAST_SLOT {
        j := i;
        VisitedClosed(v, j, n);
      } else {
        j := ConsecutiveReach(v, n, i);
        VisitedClosed(v, j, n);
        if v + j >= LAST_SLOT {
          WrapDivides(v + j, n);
        }
      }
      assert Visited(v, j, n) == i;
    }
  }

  lemma WrapDivides(x: nat, n: nat)
    requires n > 0 && LAST_SLOT % n == 0
    requires LAST_SLOT <= x < LAST_SLOT + n
    ensures x % n == x - LAST_SLOT
  {
    ModUnique(x, n, LAST_SLOT / n, x - LAST_SLOT);
  }

  /** An element the increments from v miss when they wrap at a bad place. */
  function Missed(v: nat, n: nat): nat
    requires n > 0 && v < LAST_SLOT
  {
    var before, r := LAST_SLOT - v, LAST_SLOT % n;
    if r >= before || n < before then n - 1 else if n - before >= r then n - before else r
  }

  lemma BeforeWrap(x: nat, n: nat)
    requires n > 0 && x < LAST_SLOT && LAST_SLOT - x <= n
    ensures var back, r := LAST_SLOT - 1 - x, LAST_SLOT % n;
            x % n == if back < r then r - 1 - back else n + r - 1 - back
  {
    var back, r, q := LAST_SLOT - 1 - x, LAST_SLOT % n, LAST_SLOT / n;
    if back < r {
      ModUnique(x, n, q, r - 1 - back);
    } else {
      MulSubRight(q, 1, n);
      ModUnique(x, n, q - 1, n + r - 1 - back);
    }
  }

  lemma DisturbedMisses(v: nat, n: nat)
    requires n > 0 && !Undisturbed(v, n)
    ensures !Covers(v, n)
  {
    if n > LAST_SLOT {
      forall j: nat | j < n ensures Visited(v, j, n) != n - 1 {
        ModUnique(Next(Nth(v, j)) - 1, n, 0, Next(Nth(v, j)) - 1);
      }
      assert !Reached(v, n, n - 1);
    } else {
      var u := Missed(v, n);
      forall j: nat | j < n ensures Visited(v, j, n) != u {
        VisitedClosed(v, j, n);
        if v + j < LAST_SLOT {
          BeforeWrap(v + j, n);
        }
      }
      assert !Reached(v, n, u);
    }
  }

  /** n increments reach every one of n elements if and only if they are undisturbed. */
  lemma CoversExactly(v: nat, n: nat)
    requires n > 0
    ensures Covers(v, n) <==> Undisturbed(v, n)
  {
    if Undisturbed(v, n) {
      UndisturbedCovers(v, n);
    } else {
      DisturbedMisses(v, n);
    }
  }

  // ---------- how often each element is picked ----------

  /** The slots a + 1, ..., a + m. */
  function Consecutive(a: nat, m: nat): (s: seq<nat>)
    ensures |s| == m
  {
    if m == 0 then [] else Consecutive(a, m - 1) + [a + m]
  }

  /** How many of the slots pick element i of n. */
  function Picks(slots: seq<nat>, i: nat, n: nat): nat
    requires n > 0
  {
    if slots == [] then 0
    else Picks(slots[..|slots| - 1], i, n) + if (slots[|slots| - 1] - 1) % n == i then 1 else 0
  }

  /** The number of t below a with t % n == i. */
  function Occurrences(a: nat, i: nat, n: nat): nat
    requires i < n
  {
    (a + n - 1 - i) / n
  }

  lemma OccurrencesAt(q: nat, r: nat, i: nat, n: nat)
    requires i < n && r < n
    ensures Occurrences(q * n + r, i, n) == q + if r > i then 1 else 0
  {
    if r > i {
      MulAddRight(q, 1, n);
      ModUnique(q * n + r + n - 1 - i, n, q + 1, r - 1 - i);
    } else {
      ModUnique(q * n + r + n - 1 - i, n, q, r + n - 1 - i);
    }
  }

  lemma OccurrencesStep(a: nat, i: nat, n: nat)
    requires i < n
    ensures Occurrences(a + 1, i, n) == Occurrences(a, i, n) + if a % n == i then 1 else 0
  {
    var q, r := a / n, a % n;
    assert a == q * n + r;
    hide Occurrences;
    OccurrencesAt(q, r, i, n);
    if r + 1 < n {
      OccurrencesAt(q, r + 1, i, n);
    } else {
      MulAddRight(q, 1, n);
      OccurrencesAt(q + 1, 0, i, n);
    }
  }

  lemma {:induction false} PicksOfConsecutive(a: nat, m: nat, i: nat, n: nat)
    requires i < n
    ensures Picks(Consecutive(a, m), i, n) == Occurrences(a + m, i, n) - Occurrences(a, i, n)
  {
    if m > 0 {
      PicksOfConsecutive(a, m - 1, i, n);
      OccurrencesStep(a + m - 1, i, n);
      var s := Consecutive(a, m);
      assert s[..m - 1] == Consecutive(a, m - 1);
    }
  }

  lemma QuotientStep(x: nat, m: nat, n: nat)
    requires n > 0
    ensures m / n <= (x + m) / n - x / n <= m / n + 1
  {
    var s := x % n + m % n;
    MulAddRight(x / n, m / n, n);
    if s < n {
      ModUnique(x + m, n, x / n + m / n, s);
    } else {
      MulAddRight(x / n + m / n, 1, n);
      ModUnique(x + m, n, x / n + m / n + 1, s - n);
    }
  }

  /** Over consecutive slots each element is picked m / n times or once more. */
  lemma EvenlyPicked(a: nat, m: nat, i: nat, n: nat)
    requires i < n
    ensures m / n <= Picks(Consecutive(a, m), i, n) <= m / n + 1
  {
    PicksOfConsecutive(a, m, i, n);
    QuotientStep(a + n - 1 - i, m, n);
    assert a + n - 1 - i + m == a + m + n - 1 - i;
  }
}
