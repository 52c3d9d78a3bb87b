/** Bytes, C strings inside byte buffers, and the two bit operations the hash functions need. */
module Bytes {

  type Byte = b: int | 0 <= b < 256

  const TWO_32: nat := 0x1_0000_0000
  const TWO_64: nat := 0x1_0000_0000_0000_0000

  type Word32 = w: int | 0 <= w < 0x1_0000_0000
  type Word64 = w: int | 0 <= w < 0x1_0000_0000_0000_0000

  /** The low 32 and 64 bits of a number, and the C integers they stand for. */
  function Low32(n: int): (w: Word32) { n % 0x1_0000_0000 }

  function Low64(n: int): (w: Word64) { n % 0x1_0000_0000_0000_0000 }

  function ToInt(n: int): (i: int)
    ensures -0x8000_0000 <= i < 0x8000_0000
  {
    if Low32(n) < 0x8000_0000 then Low32(n) else Low32(n) - 0x1_0000_0000
  }

  function Signed64(w: Word64): (n: int) {
    if w < 0x8000_0000_0000_0000 then w else w - 0x1_0000_0000_0000_0000
  }

  /** A name as the C code passes it: its bytes up to, not including, the terminator. */
  predicate NoNul(s: seq<Byte>) {
    forall i :: 0 <= i < |s| ==> s[i] != 0
  }

  /** The C string that starts at `off`. */
  function StrAt(buf: seq<Byte>, off: nat): (s: seq<Byte>)
    decreases |buf| - off
  {
    if off < |buf| && buf[off] != 0 then [buf[off]] + StrAt(buf, off + 1) else []
  }

  /** Two buffers that agree from `off` up to a terminator at `end` hold the same string there. */
  lemma {:induction false} StrAtFrame(a: seq<Byte>, b: seq<Byte>, off: nat, end: nat)
    requires off <= end < |a| && end < |b|
    requires a[end] == 0
    requires forall k :: off <= k <= end ==> a[k] == b[k]
    ensures StrAt(a, off) == StrAt(b, off)
    decreases end - off
  {
    if a[off] != 0 {
      StrAtFrame(a, b, off + 1, end);
    }
  }

  /** Writing a name and its terminator at `off` makes that name readable there. */
  lemma {:induction false} StrAtReads(buf: seq<Byte>, off: nat, s: seq<Byte>)
    requires NoNul(s)
    requires off + |s| < |buf| && buf[off + |s|] == 0
    requires forall k :: 0 <= k < |s| ==> buf[off + k] == s[k]
    ensures StrAt(buf, off) == s
    decreases |s|
  {
    if s != [] {
      assert buf[off + 0] == s[0];
      forall k | 0 <= k < |s| - 1
        ensures buf[off + 1 + k] == s[1..][k]
      {
        assert buf[off + (k + 1)] == s[k + 1];
      }
      StrAtReads(buf, off + 1, s[1..]);
    }
  }

  lemma {:induction false} StrAtNoNul(buf: seq<Byte>, off: nat)
    ensures NoNul(StrAt(buf, off))
    decreases |buf| - off
  {
    if off < |buf| && buf[off] != 0 {
      StrAtNoNul(buf, off + 1);
    }
  }

  /** The string at `off` ends at the first terminator, which is no later than any known one. */
  lemma {:induction false} StrAtEnds(buf: seq<Byte>, off: nat, end: nat)
    requires off <= end < |buf| && buf[end] == 0
    ensures off + |StrAt(buf, off)| <= end
    ensures buf[off + |StrAt(buf, off)|] == 0
    ensures forall k :: off <= k < off + |StrAt(buf, off)| ==> buf[k] == StrAt(buf, off)[k - off]
    decreases end - off
  {
    if buf[off] != 0 {
      StrAtEnds(buf, off + 1, end);
      var rest := StrAt(buf, off + 1);
      var s := StrAt(buf, off);
      assert s == [buf[off]] + rest;
      forall k | off < k < off + |s|
        ensures buf[k] == s[k - off]
      {
        assert buf[k] == rest[k - (off + 1)];
      }
    }
  }

  /** Exclusive or of two non-negative integers, bit by bit. */
  function Xor(a: nat, b: nat): (r: nat)
  {
    if a == 0 && b == 0 then 0 else (a % 2 + b % 2) % 2 + 2 * Xor(a / 2, b / 2)
  }

  /** An operand below 2^k leaves every bit from k upwards alone. */
  lemma {:induction false} XorKeepsHighBits(a: nat, b: nat, k: nat)
    requires b < Pow2(k)
    ensures Xor(a, b) / Pow2(k) == a / Pow2(k)
    decreases k
  {
    if k == 0 {
      XorZero(a);
    } else if a != 0 || b != 0 {
      XorKeepsHighBits(a / 2, b / 2, k - 1);
      var p := Pow2(k - 1);
      var x := Xor(a / 2, b / 2);
      DivTwice(a, p);
      DivTwice(Xor(a, b), p);
      assert Xor(a, b) / 2 == x;
    }
  }

  lemma {:induction false} XorZero(a: nat)
    ensures Xor(a, 0) == a
  {
    if a != 0 {
      XorZero(a / 2);
    }
  }

  function Pow2(k: nat): (p: nat)
    ensures p > 0
  {
    if k == 0 then 1 else 2 * Pow2(k - 1)
  }

  lemma DivTwice(a: nat, p: nat)
    requires p > 0
    ensures a / (2 * p) == (a / 2) / p
  {
    var q := a / (2 * p);
    var r := a % (2 * p);
    assert a == 2 * (p * q) + r;
    var m := a / 2;
    assert m == p * q + r / 2;
    assert 0 <= r / 2 < p;
    DivUnique(m, p, q, r / 2);
  }

  lemma MulAtLeast(d: nat, x: nat)
    requires x >= 1
    ensures d * x >= d
  {
  }

  lemma DivUnique(a: int, d: int, q: int, r: int)
    requires d > 0 && 0 <= r < d && a == d * q + r
    ensures a / d == q && a % d == r
  {
    var q1, r1 := a / d, a % d;
    assert d * q + r == d * q1 + r1;
    if q > q1 {
      MulAtLeast(d, q - q1);
    } else if q < q1 {
      MulAtLeast(d, q1 - q);
    }
  }
}
