/** Modular arithmetic behind RSA: Euclid's lemma, Fermat's little theorem and
    the fact that the two RSA exponents undo each other. */
module NumberTheory {

  function Pow(b: nat, e: nat): (r: nat)
    ensures b > 0 ==> r > 0
  {
    if e == 0 then 1 else b * Pow(b, e - 1)
  }

  /** `gmpy2.powmod`. */
  function PowMod(b: nat, e: nat, n: nat): (r: nat)
    requires n > 0
    ensures r < n
  {
    Pow(b, e) % n
  }

  ghost predicate Prime(p: nat) {
    p >= 2 && forall d :: 1 < d < p ==> p % d != 0
  }

  // ---------- remainders ----------

  lemma MultipleBound(k: int, n: nat)
    ensures k >= 1 ==> k * n >= n
    ensures k <= -1 ==> k * n + n <= 0
  {
  }

  lemma MulSwap(x: int, y: int, z: int)
    ensures x * (y * z) == y * (x * z)
  {
  }

  lemma MulRegroup(a: int, x: int, b: int, y: int)
    ensures (a * x) * (b * y) == (a * b) * (x * y)
  {
    calc {
      (a * x) * (b * y);
      a * (x * (b * y));
      { MulSwap(x, b, y); }
      a * (b * (x * y));
      (a * b) * (x * y);
    }
  }

  lemma ModUnique(x: int, n: nat, q: int, r: int)
    requires 0 <= r < n
    requires x == q * n + r
    ensures x % n == r && x / n == q
  {
    var k := q - x / n;
    assert k * n == x % n - r by {
      assert x == (x / n) * n + x % n;
      MulSubRight(q, x / n, n);
    }
    MultipleBound(k, n);
  }

  lemma ModAddMultiple(x: int, k: int, n: nat)
    requires n > 0
    ensures (x + k * n) % n == x % n
  {
    MulAddRight(x / n, k, n);
    ModUnique(x + k * n, n, x / n + k, x % n);
  }

  lemma ModFactor(a: int, b: int, q: int, r: int, n: nat)
    requires n > 0 && b == q * n + r
    ensures (a * b) % n == (a * r) % n
  {
    assert a * b == a * r + (a * q) * n by {
      assert a * (q * n + r) == a * (q * n) + a * r;
      assert a * (q * n) == (a * q) * n;
    }
    ModAddMultiple(a * r, a * q, n);
  }

  lemma ModMul(a: int, b: int, n: nat)
    requires n > 0
    ensures (a * b) % n == ((a % n) * (b % n)) % n
  {
    ModFactor(a, b, b / n, b % n, n);
    ModFactor(b % n, a, a / n, a % n, n);
  }

  /** Two numbers with the same remainder differ by a multiple. */
  lemma ModSub(a: int, b: int, n: nat)
    requires n > 0
    ensures (a - b) % n == 0 <==> a % n == b % n
  {
    if a % n == b % n {
      MulSubRight(a / n, b / n, n);
      ModUnique(a - b, n, a / n - b / n, 0);
    }
    if (a - b) % n == 0 {
      var j := (a - b) / n;
      MulAddRight(j, b / n, n);
      ModUnique(a, n, j + b / n, b % n);
    }
  }

  lemma MulSubRight(x: int, y: int, n: int)
    ensures (x - y) * n == x * n - y * n
  {
  }

  lemma MulAddRight(x: int, y: int, n: int)
    ensures (x + y) * n == x * n + y * n
  {
  }

  // ---------- powers ----------

  lemma {:induction false} PowAdd(b: nat, x: nat, y: nat)
    ensures Pow(b, x + y) == Pow(b, x) * Pow(b, y)
  {
    if x > 0 {
      PowAdd(b, x - 1, y);
      assert Pow(b, x) == b * Pow(b, x - 1);
      assert Pow(b, x + y) == b * Pow(b, x - 1 + y);
    }
  }

  lemma {:induction false} PowMul(b: nat, x: nat, y: nat)
    ensures Pow(b, x * y) == Pow(Pow(b, x), y)
  {
    if y > 0 {
      PowMul(b, x, y - 1);
      assert x * y == x + x * (y - 1);
      PowAdd(b, x, x * (y - 1));
    }
  }

  lemma {:induction false} PowModBase(b: nat, e: nat, n: nat)
    requires n > 0
    ensures Pow(b, e) % n == Pow(b % n, e) % n
  {
    if e > 0 {
      PowModBase(b, e - 1, n);
      ModMul(b, Pow(b, e - 1), n);
      ModMul(b % n, Pow(b % n, e - 1), n);
      ModUnique(b % n, n, 0, b % n);
    }
  }

  lemma {:induction false} PowOne(e: nat)
    ensures Pow(1, e) == 1
  {
    if e > 0 {
      PowOne(e - 1);
    }
  }

  // ---------- Euclid ----------

  /** A prime that divides a product divides one of the factors. */
  lemma {:induction false} Euclid(p: nat, a: int, b: int)
    requires Prime(p)
    requires (a * b) % p == 0
    requires a % p != 0
    ensures b % p == 0
    decreases if 0 < a < p then 0 else 1, if 0 < a < p then a else 0
  {
    if !(0 < a < p) {
      ModMul(a, b, p);
      ModMul(a % p, b, p);
      ModUnique(a % p, p, 0, a % p);
      Euclid(p, a % p, b);
    } else if a == 1 {
      assert a * b == b;
    } else {
      var r := p % a;
      EuclidStep(p, a, b, p / a, (a * b) / p, r);
      ModUnique(r * b, p, b - (p / a) * ((a * b) / p), 0);
      ModUnique(r, p, 0, r);
      Euclid(p, r, b);
    }
  }

  lemma EuclidStep(p: int, a: int, b: int, q: int, k: int, r: int)
    requires r == p - q * a && a * b == k * p
    ensures r * b == (b - q * k) * p
  {
    calc {
      (p - q * a) * b;
      { MulSubRight(p, q * a, b); }
      p * b - (q * a) * b;
      { assert (q * a) * b == q * (a * b); }
      b * p - q * (k * p);
      { assert q * (k * p) == (q * k) * p; }
      b * p - (q * k) * p;
      { MulSubRight(b, q * k, p); }
      (b - q * k) * p;
    }
  }

  // ---------- Fermat ----------

  /** Product of a finite set; `ProductRemove` says that the order does not matter. */
  ghost function Product(s: set<nat>): nat {
    if s == {} then 1 else
      var x :| x in s;
      x * Product(s - {x})
  }

  lemma ProductUnfold(s: set<nat>) returns (x: nat)
    requires s != {}
    ensures x in s && Product(s) == x * Product(s - {x})
  {
    x :| x in s && Product(s) == x * Product(s - {x});
  }

  lemma {:induction false} ProductRemove(s: set<nat>, y: nat)
    requires y in s
    ensures Product(s) == y * Product(s - {y})
  {
    var x := ProductUnfold(s);
    if x != y {
      ProductRemove(s - {x}, y);
      ProductRemove(s - {y}, x);
      assert s - {x} - {y} == s - {y} - {x};
      MulSwap(x, y, Product(s - {x} - {y}));
    }
  }

  function Scale(a: nat, x: nat, p: nat): nat
    requires p > 0
  {
    (a * x) % p
  }

  ghost function Scaled(a: nat, s: set<nat>, p: nat): set<nat>
    requires p > 0
  {
    set x | x in s :: Scale(a, x, p)
  }

  ghost function Residues(p: nat): (s: set<nat>)
    ensures forall x :: x in s <==> 1 <= x < p
    ensures p >= 1 ==> |s| == p - 1
  {
    if p <= 1 then {} else Residues(p - 1) + {p - 1}
  }

  /** Multiplying by a unit is injective on residues. */
  lemma ScaledInjective(a: nat, x: nat, y: nat, p: nat)
    requires Prime(p) && a % p != 0
    requires x < p && y < p
    requires Scale(a, x, p) == Scale(a, y, p)
    ensures x == y
  {
    ModSub(a * x, a * y, p);
    assert a * x - a * y == a * (x - y);
    Euclid(p, a, x - y);
    ModSub(x, y, p);
    ModUnique(x, p, 0, x);
    ModUnique(y, p, 0, y);
  }

  /** Taking one residue out of a set takes exactly its image out. */
  lemma ScaledRemove(a: nat, s: set<nat>, x: nat, p: nat)
    requires Prime(p) && a % p != 0
    requires forall z :: z in s ==> z < p
    requires x in s
    ensures Scale(a, x, p) in Scaled(a, s, p)
    ensures Scaled(a, s, p) - {Scale(a, x, p)} == Scaled(a, s - {x}, p)
  {
    var y := Scale(a, x, p);
    forall z | z in s - {x} ensures Scale(a, z, p) != y {
      if Scale(a, z, p) == y {
        ScaledInjective(a, z, x, p);
      }
    }
    hide Scale, Prime;
    assert Scaled(a, s, p) == Scaled(a, s - {x}, p) + {y};
  }

  lemma {:induction false} ScaledProduct(a: nat, s: set<nat>, p: nat)
    requires Prime(p) && a % p != 0
    requires forall x :: x in s ==> x < p
    ensures |Scaled(a, s, p)| == |s|
    ensures Product(Scaled(a, s, p)) % p == (Pow(a, |s|) * Product(s)) % p
  {
    if s == {} {
      assert Scaled(a, s, p) == {};
    } else {
      var x :| x in s;
      var y, rest := Scale(a, x, p), s - {x};
      ScaledProduct(a, rest, p);
      ScaledRemove(a, s, x, p);
      ProductRemove(Scaled(a, s, p), y);
      ProductRemove(s, x);
      assert |s| == |rest| + 1;
      assert Pow(a, |s|) == a * Pow(a, |rest|);
      hide *;
      ScaledStep(a, x, Pow(a, |rest|), Product(rest), Product(Scaled(a, rest, p)), p);
    }
  }

  lemma ScaledStep(a: nat, x: nat, power: nat, product: nat, image: nat, p: nat)
    requires p > 0
    requires image % p == (power * product) % p
    ensures (Scale(a, x, p) * image) % p == ((a * power) * (x * product)) % p
  {
    var y := Scale(a, x, p);
    ModMul(y, image, p);
    ModUnique(y, p, 0, y);
    ModMul(a * x, power * product, p);
    MulRegroup(a, x, power, product);
  }

  lemma {:induction false} ProductNotDivisible(s: set<nat>, p: nat)
    requires Prime(p)
    requires s <= Residues(p)
    ensures Product(s) % p != 0
  {
    if s != {} {
      var x :| x in s;
      ProductRemove(s, x);
      ProductNotDivisible(s - {x}, p);
      ModUnique(x, p, 0, x);
      if Product(s) % p == 0 {
        Euclid(p, x, Product(s - {x}));
      }
    } else {
      ModUnique(1, p, 0, 1);
    }
  }

  lemma SubsetOfSameSize<T>(a: set<T>, b: set<T>)
    requires a <= b && |a| == |b|
    ensures a == b
  {
    assert b == a + (b - a);
  }

  /** A unit permutes the nonzero residues. */
  lemma ScaledResidues(a: nat, p: nat)
    requires Prime(p) && a % p != 0
    ensures Scaled(a, Residues(p), p) == Residues(p)
  {
    var s := Residues(p);
    var image := Scaled(a, s, p);
    ScaledProduct(a, s, p);
    forall z | z in image ensures z in s {
      var x :| x in s && z == Scale(a, x, p);
      if z == 0 {
        Euclid(p, a, x);
        ModUnique(x, p, 0, x);
      }
    }
    SubsetOfSameSize(image, s);
  }

  lemma CancelUnit(a: int, x: int, p: nat)
    requires Prime(p)
    requires (a * x) % p == x % p && x % p != 0
    ensures a % p == 1
  {
    ModSub(a * x, x, p);
    assert a * x - x == x * (a - 1);
    Euclid(p, x, a - 1);
    ModSub(a, 1, p);
    ModUnique(1, p, 0, 1);
  }

  /** Fermat's little theorem. */
  lemma Fermat(a: nat, p: nat)
    requires Prime(p) && a % p != 0
    ensures Pow(a, p - 1) % p == 1
  {
    hide Product, Pow, Scaled, Residues;
    var s := Residues(p);
    ScaledProduct(a, s, p);
    ScaledResidues(a, p);
    ProductNotDivisible(s, p);
    FermatCancel(a, |s|, Product(s), p);
  }

  lemma FermatCancel(a: nat, size: nat, product: nat, p: nat)
    requires Prime(p)
    requires product % p == (Pow(a, size) * product) % p && product % p != 0
    ensures Pow(a, size) % p == 1
  {
    CancelUnit(Pow(a, size), product, p);
  }

  // ---------- RSA ----------

  /** Raising to a power that is 1 modulo p - 1 changes nothing modulo p. */
  lemma PowIdentityModPrime(m: nat, t: nat, p: nat)
    requires Prime(p)
    requires t >= 1 && (t - 1) % (p - 1) == 0
    ensures Pow(m, t) % p == m % p
  {
    var k := (t - 1) / (p - 1);
    assert t - 1 == (p - 1) * k;
    assert Pow(m, t) == m * Pow(m, t - 1);
    ModMul(m, Pow(m, t - 1), p);
    if m % p != 0 {
      UnitPower(m, k, p);
      assert (m % p) * 1 == m % p;
    }
    ModUnique(m % p, p, 0, m % p);
  }

  lemma UnitPower(m: nat, k: nat, p: nat)
    requires Prime(p) && m % p != 0
    ensures Pow(m, (p - 1) * k) % p == 1
  {
    Fermat(m, p);
    PowMul(m, p - 1, k);
    PowModBase(Pow(m, p - 1), k, p);
    PowOne(k);
    ModUnique(1, p, 0, 1);
  }

  /** What is divisible by two different primes is divisible by their product. */
  lemma DivisibleByBoth(x: int, p: nat, q: nat)
    requires Prime(p) && Prime(q) && p != q
    requires x % p == 0 && x % q == 0
    ensures x % (p * q) == 0
  {
    var k := x / p;
    assert x == p * k;
    assert p % q != 0 by {
      if q < p {
      } else {
        ModUnique(p, q, 0, p);
      }
    }
    Euclid(q, p, k);
    var j := k / q;
    assert x == j * (p * q) by {
      assert k == j * q;
      assert p * (j * q) == j * (p * q);
    }
    assert p * q > 0;
    ModAddMultiple(0, j, p * q);
  }

  /** The hypothesis on a key pair. Both the totient of the textbook and the
      least common multiple of p - 1 and q - 1 give exponents that meet it. */
  ghost predicate KeyPair(n: nat, e: nat, d: nat) {
    exists p: nat, q: nat :: KeyFactors(n, e, d, p, q)
  }

  ghost predicate KeyFactors(n: nat, e: nat, d: nat, p: nat, q: nat) {
    && Prime(p) && Prime(q) && p != q
    && n == p * q
    && e * d >= 1
    && (e * d - 1) % (p - 1) == 0
    && (e * d - 1) % (q - 1) == 0
  }

  /** RSA: the two exponents of a key undo each other below the modulus. */
  lemma RsaInverse(m: nat, n: nat, e: nat, d: nat)
    requires KeyPair(n, e, d)
    requires m < n
    ensures PowMod(PowMod(m, e, n), d, n) == m
    ensures PowMod(PowMod(m, d, n), e, n) == m
  {
    var p: nat, q: nat :| KeyFactors(n, e, d, p, q);
    var t := e * d;
    PowIdentityModPrime(m, t, p);
    PowIdentityModPrime(m, t, q);
    ModSub(Pow(m, t), m, p);
    ModSub(Pow(m, t), m, q);
    DivisibleByBoth(Pow(m, t) - m, p, q);
    ModSub(Pow(m, t), m, n);
    ModUnique(m, n, 0, m);
    PowMul(m, e, d);
    PowMul(m, d, e);
    assert d * e == t;
    PowModBase(Pow(m, e), d, n);
    PowModBase(Pow(m, d), e, n);
  }
}
