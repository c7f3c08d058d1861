/** Byte strings and their integer values: OS2IP and I2OSP of section 4 of
    RFC 3447 (`bytes_to_long` and `long_to_bytes`), and `strxor`. */
module Bytes {
  import opened NumberTheory

  type byte = n: nat | n < 256
  type bytes = seq<byte>

  function Zeros(n: nat): (z: bytes)
    ensures |z| == n && forall i :: 0 <= i < n ==> z[i] == 0
  {
    seq(n, i => 0)
  }

  // ---------- big-endian integers ----------

  function Os2ip(s: bytes): nat {
    if s == [] then 0 else Os2ip(s[..|s| - 1]) * 256 + s[|s| - 1]
  }

  function I2osp(n: nat, k: nat): (s: bytes)
    ensures |s| == k
  {
    if k == 0 then [] else I2osp(n / 256, k - 1) + [n % 256]
  }

  lemma {:induction false} Os2ipBound(s: bytes)
    ensures Os2ip(s) < Pow(256, |s|)
  {
    if s != [] {
      Os2ipBound(s[..|s| - 1]);
    }
  }

  lemma {:induction false} I2ospOs2ip(s: bytes)
    ensures I2osp(Os2ip(s), |s|) == s
  {
    if s != [] {
      var front, last := s[..|s| - 1], s[|s| - 1];
      I2ospOs2ip(front);
      assert s == front + [last];
      assert Os2ip(s) / 256 == Os2ip(front);
    }
  }

  lemma {:induction false} Os2ipI2osp(n: nat, k: nat)
    requires n < Pow(256, k)
    ensures Os2ip(I2osp(n, k)) == n
  {
    if k > 0 {
      Os2ipI2osp(n / 256, k - 1);
      var s := I2osp(n, k);
      assert s[..k - 1] == I2osp(n / 256, k - 1);
    }
  }

  lemma Os2ipOne(b: byte)
    ensures Os2ip([]) == 0 && Os2ip([b]) == b
  {
    assert [b][..0] == [];
  }

  lemma {:induction false} Os2ipAppend(s: bytes, t: bytes)
    ensures Os2ip(s + t) == Os2ip(s) * Pow(256, |t|) + Os2ip(t)
  {
    if t == [] {
      assert s + t == s;
    } else {
      var front, last := t[..|t| - 1], t[|t| - 1];
      Os2ipAppend(s, front);
      assert (s + t)[..|s + t| - 1] == s + front;
      assert Pow(256, |t|) == 256 * Pow(256, |front|);
      MulSwap(256, Os2ip(s), Pow(256, |front|));
    }
  }

  /** A leading zero octet leaves the value, and so bounds it by one octet less. */
  lemma Os2ipLeadingZero(s: bytes)
    ensures Os2ip([0] + s) == Os2ip(s)
  {
    Os2ipAppend([0], s);
  }

  // ---------- bitwise operations ----------

  /** Exclusive or of two numbers of k bits. */
  function XorBits(x: nat, y: nat, k: nat): nat {
    if k == 0 then 0
    else 2 * XorBits(x / 2, y / 2, k - 1) + (if x % 2 == y % 2 then 0 else 1)
  }

  /** Inclusive or of two numbers of k bits. */
  function OrBits(x: nat, y: nat, k: nat): nat {
    if k == 0 then 0
    else 2 * OrBits(x / 2, y / 2, k - 1) + (if x % 2 == 0 && y % 2 == 0 then 0 else 1)
  }

  lemma {:induction false} XorBitsBound(x: nat, y: nat, k: nat)
    ensures XorBits(x, y, k) < Pow(2, k)
  {
    if k > 0 {
      XorBitsBound(x / 2, y / 2, k - 1);
    }
  }

  lemma Halves(half: nat, bit: nat)
    requires bit < 2
    ensures (2 * half + bit) / 2 == half && (2 * half + bit) % 2 == bit
  {
  }

  lemma {:induction false} XorBitsUndo(x: nat, y: nat, k: nat)
    requires x < Pow(2, k)
    ensures XorBits(XorBits(x, y, k), y, k) == x
  {
    if k > 0 {
      XorBitsUndo(x / 2, y / 2, k - 1);
      Halves(XorBits(x / 2, y / 2, k - 1), if x % 2 == y % 2 then 0 else 1);
    }
  }

  lemma {:induction false} XorBitsZero(x: nat, y: nat, k: nat)
    requires x < Pow(2, k) && y < Pow(2, k)
    ensures XorBits(x, y, k) == 0 <==> x == y
  {
    if k > 0 {
      XorBitsZero(x / 2, y / 2, k - 1);
    }
  }

  /** Bit i of the exclusive or is set exactly when the two bits differ. */
  lemma {:induction false} XorBitsAt(x: nat, y: nat, k: nat, i: nat)
    requires i < k
    ensures XorBits(x, y, k) / Pow(2, i) % 2 == if x / Pow(2, i) % 2 == y / Pow(2, i) % 2 then 0 else 1
  {
    var bit := if x % 2 == y % 2 then 0 else 1;
    Halves(XorBits(x / 2, y / 2, k - 1), bit);
    if i > 0 {
      XorBitsAt(x / 2, y / 2, k - 1, i - 1);
      HalfFirst(XorBits(x, y, k), i);
      HalfFirst(x, i);
      HalfFirst(y, i);
    }
  }

  lemma HalfFirst(x: nat, i: nat)
    requires i > 0
    ensures x / Pow(2, i) == x / 2 / Pow(2, i - 1)
  {
    var p := Pow(2, i - 1);
    var q, r := x / 2 / p, x / 2 % p;
    assert x / 2 == q * p + r;
    assert x == q * (2 * p) + (2 * r + x % 2) by {
      MulSwap(2, q, p);
    }
    ModUnique(x, 2 * p, q, 2 * r + x % 2);
  }

  lemma {:induction false} OrBitsBound(x: nat, y: nat, k: nat)
    ensures OrBits(x, y, k) < Pow(2, k)
  {
    if k > 0 {
      OrBitsBound(x / 2, y / 2, k - 1);
    }
  }

  lemma {:induction false} OrBitsZero(x: nat, y: nat, k: nat)
    requires x < Pow(2, k) && y < Pow(2, k)
    ensures OrBits(x, y, k) == 0 <==> x == 0 && y == 0
  {
    if k > 0 {
      OrBitsZero(x / 2, y / 2, k - 1);
    }
  }

  lemma EightBits()
    ensures Pow(2, 8) == 256
  {
  }

  function XorByte(x: byte, y: byte): (r: byte)
    ensures XorBits(r, y, 8) == x
    ensures r == 0 <==> x == y
  {
    EightBits();
    XorBitsBound(x, y, 8);
    XorBitsUndo(x, y, 8);
    XorBitsZero(x, y, 8);
    XorBits(x, y, 8)
  }

  function OrByte(x: byte, y: byte): (r: byte)
    ensures r == 0 <==> x == 0 && y == 0
  {
    EightBits();
    OrBitsBound(x, y, 8);
    OrBitsZero(x, y, 8);
    OrBits(x, y, 8)
  }

  /** `strxor`, for operands of one length. */
  function Xor(s: bytes, t: bytes): (r: bytes)
    requires |s| == |t|
    ensures |r| == |s|
  {
    seq(|s|, i requires 0 <= i < |s| => XorByte(s[i], t[i]))
  }

  lemma XorUndo(s: bytes, t: bytes)
    requires |s| == |t|
    ensures Xor(Xor(s, t), t) == s
  {
    hide XorBits;
    forall i | 0 <= i < |s| ensures Xor(Xor(s, t), t)[i] == s[i] {
      assert XorByte(XorByte(s[i], t[i]), t[i]) == s[i];
    }
  }

  /** `strxor` of equal strings is all zero, and only of equal strings. */
  lemma XorZero(s: bytes, t: bytes)
    requires |s| == |t|
    ensures s == t <==> Xor(s, t) == Zeros(|s|)
  {
    if Xor(s, t) == Zeros(|s|) {
      forall i | 0 <= i < |s| ensures s[i] == t[i] {
        assert Xor(s, t)[i] == XorByte(s[i], t[i]);
      }
    }
  }
}
