/** Bitwise OR on unsigned integers, defined one bit at a time, with the
    laws the 64-bit assembler relies on: it is associative, commutative and
    idempotent, keeps values below a power of two, and is addition when the
    two operands have no bit in common. */
module Bitwise {
  import opened Words

  function Pow2(k: nat): (p: nat)
    ensures p >= 1
  {
    if k == 0 then 1 else 2 * Pow2(k - 1)
  }

  lemma {:induction false} Pow2Add(a: nat, b: nat)
    ensures Pow2(a + b) == Pow2(a) * Pow2(b)
    decreases b
  {
    if b > 0 {
      Pow2Add(a, b - 1);
      assert Pow2(a + b) == 2 * Pow2(a + b - 1);
    }
  }

  lemma Pow2Values()
    ensures Pow2(13) == 0x2000 && Pow2(26) == 0x400_0000 && Pow2(32) == TWO32 && Pow2(64) == TWO64
  {
    assert Pow2(4) == 16;
    Pow2Add(4, 4);
    Pow2Add(8, 5);
    assert Pow2(5) == 32;
    Pow2Add(13, 13);
    Pow2Add(8, 8);
    Pow2Add(16, 16);
    Pow2Add(32, 32);
  }

  /** `x | y`: the lowest bit is set when it is set in either operand, and
      the rest is the OR of the remaining bits. */
  function BitOr(x: nat, y: nat): nat
    decreases x + y
  {
    if x == 0 then y
    else if y == 0 then x
    else 2 * BitOr(x / 2, y / 2) + (if x % 2 == 1 || y % 2 == 1 then 1 else 0)
  }

  /** The two halves of an OR: its lowest bit and the OR of the rest. */
  lemma BitOrHalves(x: nat, y: nat)
    ensures BitOr(x, y) / 2 == BitOr(x / 2, y / 2)
    ensures BitOr(x, y) % 2 == (if x % 2 == 1 || y % 2 == 1 then 1 else 0)
  {
  }

  lemma {:induction false} BitOrBelow(x: nat, y: nat, k: nat)
    requires x < Pow2(k) && y < Pow2(k)
    ensures BitOr(x, y) < Pow2(k)
    decreases k
  {
    if x != 0 && y != 0 {
      BitOrBelow(x / 2, y / 2, k - 1);
    }
  }

  /** `x | y` on `uword_t`. */
  function Or(x: u64, y: u64): (r: u64)
  {
    Pow2Values();
    BitOrBelow(x, y, 64);
    BitOr(x, y)
  }

  lemma {:induction false} BitOrComm(x: nat, y: nat)
    ensures BitOr(x, y) == BitOr(y, x)
    decreases x + y
  {
    if x != 0 && y != 0 {
      BitOrComm(x / 2, y / 2);
    }
  }

  lemma {:induction false} BitOrIdem(x: nat)
    ensures BitOr(x, x) == x
    decreases x
  {
    if x != 0 {
      BitOrIdem(x / 2);
    }
  }

  lemma {:induction false} BitOrAssoc(x: nat, y: nat, z: nat)
    ensures BitOr(BitOr(x, y), z) == BitOr(x, BitOr(y, z))
    decreases x + y + z
  {
    if x + y + z != 0 {
      var l, r := BitOr(BitOr(x, y), z), BitOr(x, BitOr(y, z));
      BitOrAssoc(x / 2, y / 2, z / 2);
      BitOrHalves(x, y);
      BitOrHalves(y, z);
      BitOrHalves(BitOr(x, y), z);
      BitOrHalves(x, BitOr(y, z));
      assert l / 2 == r / 2 && l % 2 == r % 2;
    }
  }

  /** ORing in bits the operand already has changes nothing. */
  lemma BitOrAbsorbs(x: nat, y: nat)
    ensures BitOr(BitOr(x, y), y) == BitOr(x, y)
  {
    BitOrAssoc(x, y, y);
    BitOrIdem(y);
  }

  /** Operands with no bit in common: the OR is the sum. */
  lemma {:induction false} BitOrDisjoint(q: nat, y: nat, k: nat)
    requires y < Pow2(k)
    ensures BitOr(q * Pow2(k), y) == q * Pow2(k) + y
    decreases k
  {
    if k > 0 {
      var p := Pow2(k - 1);
      var x := q * Pow2(k);
      assert x == 2 * (q * p);
      BitOrDisjoint(q, y / 2, k - 1);
      BitOrHalves(x, y);
    }
  }

  /** ORing two numbers moved up by `k` bits is moving their OR up: the `k`
      low bits stay clear. */
  lemma {:induction false} BitOrScaled(x: nat, y: nat, k: nat)
    ensures BitOr(x * Pow2(k), y * Pow2(k)) == BitOr(x, y) * Pow2(k)
    decreases k
  {
    if k > 0 {
      var p := Pow2(k - 1);
      var xs, ys, q := x * p, y * p, BitOr(x, y);
      assert Pow2(k) == 2 * p;
      assert x * Pow2(k) == 2 * xs && y * Pow2(k) == 2 * ys && q * Pow2(k) == 2 * (q * p) by {
        DoubleFactor(x, p);
        DoubleFactor(y, p);
        DoubleFactor(q, p);
      }
      BitOrScaled(x, y, k - 1);
      BitOrHalves(2 * xs, 2 * ys);
    }
  }

  lemma DoubleFactor(a: nat, p: nat)
    ensures a * (2 * p) == 2 * (a * p)
  {
  }

  /** `x` has every bit of `z`, so `w | x` has too. */
  lemma BitOrHasLeft(w: nat, x: nat, z: nat)
    requires BitOr(x, z) == x
    ensures BitOr(BitOr(w, x), z) == BitOr(w, x)
  {
    BitOrAssoc(w, x, z);
  }

  /** `w` has every bit of `z`, so `w | x` has too. */
  lemma BitOrHasRight(w: nat, x: nat, z: nat)
    requires BitOr(w, z) == w
    ensures BitOr(BitOr(w, x), z) == BitOr(w, x)
  {
    BitOrAssoc(w, x, z);
    BitOrComm(x, z);
    BitOrAssoc(w, z, x);
  }

  /** Having every bit of another number is transitive. */
  lemma BitOrHasTrans(x: nat, y: nat, z: nat)
    requires BitOr(x, y) == x && BitOr(y, z) == y
    ensures BitOr(x, z) == x
  {
    BitOrAssoc(x, y, z);
  }

  /** `x | y` has every bit of `x`. */
  lemma BitOrHasFirst(x: nat, y: nat)
    ensures BitOr(BitOr(x, y), x) == BitOr(x, y)
  {
    BitOrComm(x, y);
    BitOrAbsorbs(y, x);
  }
}
