/** LEB128: what the writers emit, what the readers take back. */
module Leb128 {
  import opened Bytes

  type Int64 = v: int | -0x8000_0000_0000_0000 <= v < 0x8000_0000_0000_0000

  const MAX_BYTES: nat := 10 // (8 * 8 + 6) / 7

  /** The bytes of an unsigned value: seven bits each, low bits first, the top bit set on all but the last. */
  function Uleb(v: Word64): (r: seq<Byte>) {
    if v < 128 then [v] else [128 + v % 128] + Uleb(v / 128)
  }

  /** The bytes of a signed value: they stop when the rest is all sign bits and bit 6 shows the sign. */
  function Sleb(v: Int64): (r: seq<Byte>)
    decreases if v < 0 then -(v as int) else v as int
  {
    if -64 <= v < 64 then [v % 128] else [128 + v % 128] + Sleb(v / 128)
  }

  function Pow128(i: nat): (p: nat)
    ensures p > 0
  {
    if i == 0 then 1 else 128 * Pow128(i - 1)
  }

  lemma {:induction false} PowGrows(i: nat, j: nat)
    requires i <= j
    ensures Pow128(i) <= Pow128(j)
    decreases j
  {
    if i < j {
      PowGrows(i, j - 1);
    }
  }

  lemma PowNine()
    ensures Pow128(9) == 0x8000_0000_0000_0000
  {
    assert Pow128(3) == 0x20_0000;
    assert Pow128(6) == 0x400_0000_0000;
  }

  /** What a reader returns: the value, and the position after the bytes it took. */
  datatype Read = Read(value: Word64, pos: nat)

  /** The byte at the cursor, or 0 at the end of the data. */
  function ByteAt(buf: seq<Byte>, pos: nat): (b: Byte) {
    if pos < |buf| then buf[pos] else 0
  }

  function Next(buf: seq<Byte>, pos: nat): (p: nat) {
    if pos < |buf| then pos + 1 else pos
  }

  /** Seven bits of a byte, shifted into place i and cut to 64 bits. */
  function Septet(b: Byte, i: nat): (w: Word64) {
    (b % 128) * Pow128(i) % 0x1_0000_0000_0000_0000
  }

  /** The loop of the unsigned reader from round i on, with acc the bits collected so far. The bits
      of one round do not meet those of the others, so or-ing them in is adding them. */
  function ReadUlebFrom(buf: seq<Byte>, pos: nat, i: nat, acc: nat): (r: Read)
    requires i <= MAX_BYTES && acc < Pow128(i) && acc < TWO_64
    ensures pos <= r.pos
    decreases MAX_BYTES - i
  {
    if i == MAX_BYTES then Read(acc, pos)
    else
      var b := ByteAt(buf, pos);
      SeptetFits(b, i, acc);
      var acc' := acc + Septet(b, i);
      if b < 128 then Read(acc', Next(buf, pos))
      else ReadUlebFrom(buf, Next(buf, pos), i + 1, acc')
  }

  lemma SeptetFits(b: Byte, i: nat, acc: nat)
    requires i < MAX_BYTES && acc < Pow128(i) && acc < TWO_64
    ensures acc + Septet(b, i) < Pow128(i + 1)
    ensures acc + Septet(b, i) < TWO_64
    ensures i < 9 ==> Septet(b, i) == (b % 128) * Pow128(i)
  {
    PowNine();
    var p, s := Pow128(i), b % 128;
    assert s * p <= 127 * p;
    if i < 9 {
      PowGrows(i + 1, 9);
      assert Pow128(i + 1) == 128 * p;
    } else {
      assert p == 0x8000_0000_0000_0000;
      TopSeptet(s);
    }
  }

  lemma TopSeptet(s: nat)
    requires s < 128
    ensures s * 0x8000_0000_0000_0000 % 0x1_0000_0000_0000_0000 == s % 2 * 0x8000_0000_0000_0000
  {
    var t, r := s / 2, s % 2;
    assert s * 0x8000_0000_0000_0000 == t * 0x1_0000_0000_0000_0000 + r * 0x8000_0000_0000_0000;
  }

  function ReadUleb(buf: seq<Byte>, pos: nat): (r: Read)
    ensures pos <= r.pos
  {
    ReadUlebFrom(buf, pos, 0, 0)
  }

  /** s lies in buf at pos. */
  predicate LiesAt(buf: seq<Byte>, pos: nat, s: seq<Byte>) {
    pos + |s| <= |buf| && buf[pos..pos + |s|] == s
  }

  lemma LiesAtCons(buf: seq<Byte>, pos: nat, b: Byte, s: seq<Byte>)
    requires LiesAt(buf, pos, [b] + s)
    ensures pos < |buf| && buf[pos] == b && LiesAt(buf, pos + 1, s)
  {
    var x := buf[pos..pos + 1 + |s|];
    assert x[0] == b && x[1..] == s;
  }

  /** One round of the unsigned reader on a byte of v. */
  lemma UlebRound(v: Word64, i: nat, acc: nat, b: Byte)
    requires i < MAX_BYTES && acc < Pow128(i) && acc < TWO_64 && v * Pow128(i) < TWO_64
    requires b == if v < 128 then v else 128 + v % 128
    ensures var acc' := acc + Septet(b, i);
            && acc' < Pow128(i + 1) && acc' < TWO_64
            && (v < 128 ==> acc' == acc + v * Pow128(i))
            && (v >= 128 ==> i < 9 && (v / 128) * Pow128(i + 1) < TWO_64
                             && acc' + (v / 128) * Pow128(i + 1) == acc + v * Pow128(i))
  {
    var p := Pow128(i);
    PowNine();
    SeptetFits(b, i, acc);
    MulMono(v % 128, v, p);
    assert Septet(b, i) == (v % 128) * p;
    if v >= 128 {
      Split(v, p);
      MulMono(128, v, p);
      assert i < 9;
    }
  }

  /** From round i on, the reader adds v * 128^i and takes exactly the bytes of v. */
  lemma {:induction false} ReadsUlebFrom(buf: seq<Byte>, pos: nat, i: nat, acc: nat, v: Word64)
    requires i < MAX_BYTES && acc < Pow128(i) && acc < TWO_64
    requires v * Pow128(i) < TWO_64 && LiesAt(buf, pos, Uleb(v))
    ensures acc + v * Pow128(i) < TWO_64
    ensures ReadUlebFrom(buf, pos, i, acc) == Read(acc + v * Pow128(i), pos + |Uleb(v)|)
    decreases v
  {
    hide Pow128, Septet, LiesAt;
    var b: Byte := if v < 128 then v else 128 + v % 128;
    assert Uleb(v) == [b] + if v < 128 then [] else Uleb(v / 128);
    LiesAtCons(buf, pos, b, if v < 128 then [] else Uleb(v / 128));
    UlebRound(v, i, acc, b);
    if v >= 128 {
      ReadsUlebFrom(buf, pos + 1, i + 1, acc + Septet(b, i), v / 128);
    }
  }

  lemma MulMono(a: nat, b: nat, p: nat)
    requires a <= b
    ensures a * p <= b * p
  {
  }

  lemma Split(v: int, p: nat)
    ensures v * p == (v / 128) * (128 * p) + (v % 128) * p
  {
    var q, r := v / 128, v % 128;
    assert v == 128 * q + r;
    assert (128 * q + r) * p == q * (128 * p) + r * p;
  }

  /** Reading back what was written, whatever surrounds it. */
  lemma UlebRoundTrip(before: seq<Byte>, v: Word64, after: seq<Byte>)
    ensures ReadUleb(before + Uleb(v) + after, |before|) == Read(v, |before| + |Uleb(v)|)
  {
    var buf := before + Uleb(v) + after;
    assert LiesAt(buf, |before|, Uleb(v));
    ReadsUlebFrom(buf, |before|, 0, 0, v);
  }

  lemma {:induction false} UlebShort(v: Word64, n: nat)
    requires 1 <= n && v < Pow128(n)
    ensures |Uleb(v)| <= n
    decreases n
  {
    if v >= 128 {
      UlebShort(v / 128, n - 1);
    }
  }

  lemma UlebAtMostTen(v: Word64)
    ensures 1 <= |Uleb(v)| <= MAX_BYTES
  {
    PowNine();
    UlebShort(v, 10);
  }

  /** The signed reading of a 64-bit word. */
  function ToSigned(w: Word64): (v: Int64) {
    if w < 0x8000_0000_0000_0000 then w else w - 0x1_0000_0000_0000_0000
  }

  function ToWord(v: int): (w: Word64) {
    v % 0x1_0000_0000_0000_0000
  }

  /** The loop of the signed reader: as the unsigned one, and a last byte with bit 6 set fills the bits
      above it, if any are left. */
  function ReadSlebFrom(buf: seq<Byte>, pos: nat, i: nat, acc: nat): (r: Read)
    requires i <= MAX_BYTES && acc < Pow128(i) && acc < TWO_64
    ensures pos <= r.pos
    decreases MAX_BYTES - i
  {
    if i == MAX_BYTES then Read(acc, pos)
    else
      var b := ByteAt(buf, pos);
      SeptetFits(b, i, acc);
      var acc' := acc + Septet(b, i);
      if b < 128 then Read(acc' + SignFill(b, i, acc'), Next(buf, pos))
      else ReadSlebFrom(buf, Next(buf, pos), i + 1, acc')
  }

  /** The ones above bit 7 * (i + 1), if bit 6 of the last byte asks for them. */
  function SignFill(b: Byte, i: nat, acc: nat): (f: nat)
    requires i < MAX_BYTES && acc < Pow128(i + 1) && acc < TWO_64
    ensures acc + f < TWO_64
  {
    PowNine();
    PowGrows(i + 1, if i < 9 then 9 else i + 1);
    if b / 64 % 2 == 1 && (i + 1) * 7 < 64 then TWO_64 - Pow128(i + 1) else 0
  }

  function ReadSleb(buf: seq<Byte>, pos: nat): (r: Read)
    ensures pos <= r.pos
  {
    ReadSlebFrom(buf, pos, 0, 0)
  }

  /** v * 128^i is a 64-bit value. */
  predicate FitsAt(v: int, i: nat) {
    -0x8000_0000_0000_0000 <= v * Pow128(i) < 0x8000_0000_0000_0000
  }

  lemma FitsNext(v: int, i: nat)
    requires FitsAt(v, i) && i < MAX_BYTES && !(-64 <= v < 64)
    ensures i < 9 && FitsAt(v / 128, i + 1)
  {
    PowNine();
    var p := Pow128(i);
    Split(v, p);
    assert 0 <= (v % 128) * p <= 127 * p;
    if v >= 64 {
      MulMono(64, v, p);
    } else {
      MulMono(64, -v, p);
      assert (-v) * p == -(v * p);
    }
    assert i < 9;
    PowGrows(i + 1, 9);
    assert (v / 128) * (128 * p) + 128 * p > v * p;
    MultipleInRange(v / 128, i);
  }

  /** A multiple of 128^(i+1) above -2^63 - 128^(i+1) is at least -2^63. */
  lemma MultipleInRange(q: int, i: nat)
    requires i < 9 && q * Pow128(i + 1) > -0x8000_0000_0000_0000 - Pow128(i + 1)
    ensures q * Pow128(i + 1) >= -0x8000_0000_0000_0000
  {
    PowNine();
    var k := PowDivides(i + 1);
    var p := Pow128(i + 1);
    assert k * p == 0x8000_0000_0000_0000;
    assert (q + k + 1) * p == q * p + k * p + p;
    if q < -(k as int) {
      MulMono(0, -(q + k + 1), p);
    } else {
      MulMono(0, q + k, p);
      assert (q + k) * p == q * p + k * p;
    }
  }

  lemma {:induction false} PowDivides(i: nat) returns (k: nat)
    requires i <= 9
    ensures k * Pow128(i) == Pow128(9)
    decreases 9 - i
  {
    if i == 9 {
      k := 1;
    } else {
      var k1 := PowDivides(i + 1);
      k := 128 * k1;
      assert k * Pow128(i) == k1 * (128 * Pow128(i));
    }
  }

  /** The last byte of a signed value, sign bits filled in, completes the 64-bit word. */
  lemma LastSignedLow(v: int, i: nat, acc: nat, b: Byte)
    requires i < 9 && acc < Pow128(i) && acc < TWO_64 && FitsAt(v, i)
    requires -64 <= v < 64 && b == v % 128
    requires var acc' := acc + Septet(b, i); acc' < Pow128(i + 1) && acc' < TWO_64
    ensures acc + Septet(b, i) + SignFill(b, i, acc + Septet(b, i)) == ToWord(acc + v * Pow128(i))
  {
    PowNine();
    var p := Pow128(i);
    assert Septet(b, i) == b * p;
    if v < 0 {
      assert b == v + 128 && b * p == v * p + 128 * p by {
        assert (v + 128) * p == v * p + 128 * p;
      }
      assert (i + 1) * 7 < 64;
      assert v * p <= -(p as int) by { assert (-v) * p >= p; assert (-v) * p == -(v * p); }
    } else {
      assert v * p >= 0;
    }
  }

  lemma LastSignedTop(v: int, acc: nat, b: Byte)
    requires acc < Pow128(9) && acc < TWO_64 && FitsAt(v, 9)
    requires -64 <= v < 64 && b == v % 128
    requires var acc' := acc + Septet(b, 9); acc' < Pow128(10) && acc' < TWO_64
    ensures acc + Septet(b, 9) + SignFill(b, 9, acc + Septet(b, 9)) == ToWord(acc + v * Pow128(9))
  {
    PowNine();
    TopSeptet(b);
    assert v * Pow128(9) == v * 0x8000_0000_0000_0000;
  }

  lemma LastSigned(v: int, i: nat, acc: nat, b: Byte)
    requires i < MAX_BYTES && acc < Pow128(i) && acc < TWO_64 && FitsAt(v, i)
    requires -64 <= v < 64 && b == v % 128
    ensures var acc' := acc + Septet(b, i);
            acc' < Pow128(i + 1) && acc' < TWO_64 && acc' + SignFill(b, i, acc') == ToWord(acc + v * Pow128(i))
  {
    PowNine();
    SeptetFits(b, i, acc);
    if i < 9 {
      LastSignedLow(v, i, acc, b);
    } else {
      LastSignedTop(v, acc, b);
    }
  }

  /** One round of the signed reader on a byte that is not the last. */
  lemma SlebRound(v: Int64, i: nat, acc: nat, b: Byte)
    requires i < MAX_BYTES && acc < Pow128(i) && acc < TWO_64 && FitsAt(v, i)
    requires !(-64 <= v < 64) && b == 128 + v % 128
    ensures var acc' := acc + Septet(b, i);
            && acc' < Pow128(i + 1) && acc' < TWO_64 && i < 9 && FitsAt(v / 128, i + 1)
            && acc' + (v / 128) * Pow128(i + 1) == acc + v * Pow128(i)
  {
    FitsNext(v, i);
    SeptetFits(b, i, acc);
    Split(v, Pow128(i));
  }

  /** From round i on, the signed reader adds v * 128^i, modulo 2^64, and takes exactly the bytes of v. */
  lemma {:induction false} ReadsSlebFrom(buf: seq<Byte>, pos: nat, i: nat, acc: nat, v: Int64)
    requires i < MAX_BYTES && acc < Pow128(i) && acc < TWO_64 && FitsAt(v, i)
    requires LiesAt(buf, pos, Sleb(v))
    ensures ReadSlebFrom(buf, pos, i, acc) == Read(ToWord(acc + v * Pow128(i)), pos + |Sleb(v)|)
    decreases if v < 0 then -(v as int) else v as int
  {
    hide Pow128, Septet, LiesAt, FitsAt, SignFill, ToWord;
    if -64 <= v < 64 {
      assert [v % 128] + [] == Sleb(v);
      LiesAtCons(buf, pos, v % 128, []);
      LastSigned(v, i, acc, v % 128);
    } else {
      var b: Byte := 128 + v % 128;
      LiesAtCons(buf, pos, b, Sleb(v / 128));
      SlebRound(v, i, acc, b);
      ReadsSlebFrom(buf, pos + 1, i + 1, acc + Septet(b, i), v / 128);
    }
  }

  /** Reading back a signed value, whatever surrounds it. */
  lemma SlebRoundTrip(before: seq<Byte>, v: Int64, after: seq<Byte>)
    ensures var r := ReadSleb(before + Sleb(v) + after, |before|);
            ToSigned(r.value) == v && r.pos == |before| + |Sleb(v)|
  {
    hide ReadSlebFrom, Sleb;
    var buf := before + Sleb(v) + after;
    assert LiesAt(buf, |before|, Sleb(v));
    assert FitsAt(v, 0);
    ReadsSlebFrom(buf, |before|, 0, 0, v);
    SignedOfWord(v);
  }

  lemma SignedOfWord(v: Int64)
    ensures ToSigned(ToWord(v)) == v
  {
    assert v < 0 ==> ToWord(v) == v + 0x1_0000_0000_0000_0000;
  }

  lemma {:induction false} SlebShort(v: Int64, n: nat)
    requires 1 <= n && -64 * Pow128(n - 1) <= v < 64 * Pow128(n - 1)
    ensures |Sleb(v)| <= n
    decreases n
  {
    if !(-64 <= v < 64) {
      assert Pow128(n - 1) == 128 * Pow128(n - 2);
      SlebShort(v / 128, n - 1);
    }
  }

  lemma SlebAtMostTen(v: Int64)
    ensures 1 <= |Sleb(v)| <= MAX_BYTES
  {
    PowNine();
    SlebShort(v, 10);
  }

  /** How long the signed encoding is: the loop of dwarf_sleb128_size. */
  method SlebSize(v: Int64) returns (size: nat)
    ensures size == |Sleb(v)|
  {
    size := 0;
    var value := v;
    var end: int := if v < 0 then -1 else 0;
    while true
      invariant size + |Sleb(value)| == |Sleb(v)| && (value < 0 <==> v < 0)
      decreases if value < 0 then -(value as int) else value as int
    {
      var byte := value % 128;
      ghost var last := value;
      value := value / 128;
      size := size + 1;
      LastByte(last);
      if !(value != end || byte / 64 != (if v < 0 then 1 else 0)) {
        break;
      }
    }
  }

  /** The test that ends the signed loops: the rest is the sign, and bit 6 agrees with it. */
  lemma LastByte(v: Int64)
    ensures (v / 128 == (if v < 0 then -1 else 0) && v % 128 / 64 == (if v < 0 then 1 else 0)) <==> -64 <= v < 64
  {
  }
}
