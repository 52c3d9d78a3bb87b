/** The binary digits of a number. */
module Bits {
  import opened Bytes

  /** Bit k of a number. */
  predicate Bit(w: nat, k: nat) {
    w / Pow2(k) % 2 == 1
  }

  lemma HalfBit(w: nat, k: nat)
    requires k > 0
    ensures Bit(w, k) <==> Bit(w / 2, k - 1)
  {
    DivTwice(w, Pow2(k - 1));
  }

  lemma LowestBit(w: nat)
    ensures Bit(w, 0) <==> w % 2 == 1
  {
  }

  /** Cutting a number to n bits keeps the bits below n. */
  lemma {:induction false} LowBit(x: nat, n: nat, k: nat)
    requires k < n
    ensures Bit(x % Pow2(n), k) <==> Bit(x, k)
  {
    HalfOfLow(x, n);
    if k == 0 {
      LowestBit(x);
      LowestBit(x % Pow2(n));
    } else {
      HalfBit(x, k);
      HalfBit(x % Pow2(n), k);
      LowBit(x / 2, n - 1, k - 1);
    }
  }

  lemma HalfOfLow(x: nat, n: nat)
    requires n > 0
    ensures (x % Pow2(n)) % 2 == x % 2 && (x % Pow2(n)) / 2 == (x / 2) % Pow2(n - 1)
  {
    var p := Pow2(n - 1);
    var q, r := x / (2 * p), x % (2 * p);
    assert x == 2 * (p * q) + r;
    DivUnique(x / 2, p, q, r / 2);
  }

  lemma {:induction false} ShiftedBit(a: nat, s: nat, k: nat)
    ensures Bit(a * Pow2(s), k) <==> k >= s && Bit(a, k - s)
  {
    if s > 0 {
      var h := a * Pow2(s - 1);
      assert a * Pow2(s) == 2 * h;
      if k == 0 {
        LowestBit(2 * h);
      } else {
        HalfBit(2 * h, k);
        ShiftedBit(a, s - 1, k - 1);
      }
    }
  }

  lemma {:induction false} DroppedBit(a: nat, s: nat, k: nat, q: nat)
    requires q == a / Pow2(s)
    ensures Bit(q, k) <==> Bit(a, k + s)
  {
    if s > 0 {
      DivTwice(a, Pow2(s - 1));
      DroppedBit(a / 2, s - 1, k, q);
      HalfBit(a, k + s);
    }
  }

  /** Bit k of an exclusive or is set exactly if it is set in one of the operands. */
  lemma {:induction false} XorBit(a: nat, b: nat, k: nat)
    ensures Bit(Xor(a, b), k) <==> Bit(a, k) != Bit(b, k)
    decreases k
  {
    var w := Xor(a, b);
    if a == 0 && b == 0 {
      ZeroBit(k);
    } else {
      assert w / 2 == Xor(a / 2, b / 2) && w % 2 == (a % 2 + b % 2) % 2;
      if k == 0 {
        LowestBit(w);
        LowestBit(a);
        LowestBit(b);
      } else {
        HalfBit(w, k);
        HalfBit(a, k);
        HalfBit(b, k);
        XorBit(a / 2, b / 2, k - 1);
      }
    }
  }

  lemma ZeroBit(k: nat)
    ensures !Bit(0, k)
  {
    DivUnique(0, Pow2(k), 0, 0);
  }
}
