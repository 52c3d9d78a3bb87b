/** What the operators of assembler expressions compute, bit by bit or as congruences, and how tightly they
    bind. */
module AsmArithmetic {
  import opened Bits
  import opened Bytes
  import opened Wrappers
  import opened AsmExpr
  import opened AsmValue

  /** The truth table of a bitwise operator. */
  predicate Table(op: Op, x: bool, y: bool) {
    match op
    case And => x && y
    case Or => x || y
    case _ => x != y
  }

  lemma {:induction false} BitwiseBit(op: Op, a: nat, b: nat, n: nat, k: nat)
    requires k < n && op in {And, Or, Xor}
    ensures Bit(Bitwise(op, a, b, n), k) <==> Table(op, Bit(a, k), Bit(b, k))
  {
    var w := Bitwise(op, a, b, n);
    assert w / 2 == Bitwise(op, a / 2, b / 2, n - 1) && w % 2 == BitOf(op, a, b);
    if k == 0 {
      LowestBit(w);
      LowestBit(a);
      LowestBit(b);
    } else {
      HalfBit(w, k);
      HalfBit(a, k);
      HalfBit(b, k);
      BitwiseBit(op, a / 2, b / 2, n - 1, k - 1);
    }
  }

  lemma {:induction false} ComplementBits(a: nat, n: nat, k: nat)
    requires k < n && a < Pow2(n)
    ensures Bit(Pow2(n) - 1 - a, k) <==> !Bit(a, k)
  {
    var w := Pow2(n) - 1 - a;
    assert w / 2 == Pow2(n - 1) - 1 - a / 2 && w % 2 == 1 - a % 2;
    if k == 0 {
      LowestBit(w);
      LowestBit(a);
    } else {
      HalfBit(w, k);
      HalfBit(a, k);
      ComplementBits(a / 2, n - 1, k - 1);
    }
  }

  /** Bit k of the complement is the opposite of bit k. */
  lemma ComplementBit(a: Word64, k: nat)
    requires k < 64
    ensures Bit(Complement(a), k) <==> !Bit(a, k)
  {
    Pow2Of64();
    ComplementBits(a, 64, k);
  }

  lemma NoHighBit(a: Word64, k: nat)
    requires k >= 64
    ensures !Bit(a, k)
  {
    Pow2Of64();
    Pow2Sum(64, k - 64);
    MulAtLeast(Pow2(64), Pow2(k - 64));
    DivUnique(a, Pow2(k), 0, a);
  }

  /** x and y differ by a multiple of 2^64. */
  predicate Congruent(x: int, y: int) {
    (x - y) % 0x1_0000_0000_0000_0000 == 0
  }

  /** What w has to be for op applied to a and b. */
  ghost predicate Means(op: Op, a: Word64, b: Word64, w: Word64) {
    match op
    case Mul => Congruent(w, a * b)
    case Div => b != 0 ==> b * w <= a < b * w + b
    case Mod => b != 0 ==> w < b && exists q: nat :: a == b * q + w
    case Shl => b < 64 ==> forall k :: 0 <= k < 64 ==> (Bit(w, k) <==> k >= b && Bit(a, k - b))
    case Shr => b < 64 ==> forall k :: 0 <= k < 64 ==> (Bit(w, k) <==> k + b < 64 && Bit(a, k + b))
    case And => forall k :: 0 <= k < 64 ==> (Bit(w, k) <==> Bit(a, k) && Bit(b, k))
    case Or => forall k :: 0 <= k < 64 ==> (Bit(w, k) <==> Bit(a, k) || Bit(b, k))
    case Xor => forall k :: 0 <= k < 64 ==> (Bit(w, k) <==> Bit(a, k) != Bit(b, k))
    case Add => Congruent(w, a + b)
    case Sub => Congruent(w, a - b)
    case Eq => w == AllOnesIf(a == b)
    case Ne => w == AllOnesIf(a != b)
    case Lt => w == AllOnesIf(Shown(a) < Shown(b))
    case Ge => w == AllOnesIf(Shown(a) >= Shown(b))
    case Le => w == AllOnesIf(Shown(a) <= Shown(b))
    case Gt => w == AllOnesIf(Shown(a) > Shown(b))
  }

  function AllOnesIf(b: bool): (w: Word64) {
    if b then 0xffff_ffff_ffff_ffff else 0
  }

  /** The signed number of a word: its highest bit counts negatively. */
  function Shown(w: Word64): (n: int) {
    w - (if Bit(w, 63) then 0x1_0000_0000_0000_0000 else 0)
  }

  lemma ShownIsSigned(w: Word64)
    ensures Signed64(w) == Shown(w)
  {
    Pow2Sum(1, 63);
    Pow2Of64();
    assert Pow2(63) == 0x8000_0000_0000_0000;
  }

  lemma ShiftMeans(a: Word64, b: nat)
    requires b < 64
    ensures forall k :: 0 <= k < 64 ==> (Bit(Low64(a * Pow2(b)), k) <==> k >= b && Bit(a, k - b))
    ensures forall k :: 0 <= k < 64 ==> (Bit(Quotient(a, Pow2(b)), k) <==> k + b < 64 && Bit(a, k + b))
  {
    hide Bit;
    Pow2Of64();
    forall k | 0 <= k < 64
      ensures Bit(Low64(a * Pow2(b)), k) <==> k >= b && Bit(a, k - b)
      ensures Bit(Quotient(a, Pow2(b)), k) <==> k + b < 64 && Bit(a, k + b)
    {
      LowBit(a * Pow2(b), 64, k);
      ShiftedBit(a, b, k);
      DroppedBit(a, b, k, Quotient(a, Pow2(b)));
      if k + b >= 64 {
        NoHighBit(a, k + b);
      }
    }
  }

  lemma BitwiseMeans(op: Op, a: Word64, b: Word64)
    requires op in {And, Or, Xor}
    ensures forall k :: 0 <= k < 64 ==> (Bit(BitwiseWord(op, a, b), k) <==> Table(op, Bit(a, k), Bit(b, k)))
  {
    hide Bit, Bitwise;
    forall k | 0 <= k < 64
      ensures Bit(BitwiseWord(op, a, b), k) <==> Table(op, Bit(a, k), Bit(b, k))
    {
      BitwiseBit(op, a, b, 64, k);
    }
  }

  lemma LowIsCongruent(x: int)
    ensures Congruent(Low64(x), x)
  {
  }

  /** Every operator computes what it stands for. */
  lemma ComputeMeans(op: Op, a: Word64, b: Word64)
    ensures Means(op, a, b, Compute(op, a, b))
  {
    hide Bit, Bitwise, BitwiseWord, Low64, Congruent, Shown, Signed64;
    ShownIsSigned(a);
    ShownIsSigned(b);
    match op {
      case Mul => LowIsCongruent(a * b);
      case Div =>
      case Mod =>
        if b != 0 {
          assert a == b * (a / b) + a % b;
          QuotientIsSmall(a, b);
        }
      case Shl => if b < 64 { ShiftMeans(a, b); }
      case Shr => if b < 64 { ShiftMeans(a, b); }
      case And => BitwiseMeans(op, a, b);
      case Or => BitwiseMeans(op, a, b);
      case Xor => BitwiseMeans(op, a, b);
      case Add => LowIsCongruent(a + b);
      case Sub => LowIsCongruent(a - b);
      case _ => AllOnes();
    }
  }

  lemma AllOnes()
    ensures Low64(-1) == 0xffff_ffff_ffff_ffff
  {
  }

  /** A sign makes the sum with the operand vanish, a tilde flips every bit. */
  lemma SignsMean(ctx: Context, p: Placement, e: Expr)
    ensures Congruent(Denoted(ctx, p, Neg(e)) + Denoted(ctx, p, e), 0)
    ensures Denoted(ctx, p, Pos(e)) == Denoted(ctx, p, e) == Denoted(ctx, p, Paren(e))
    ensures forall k :: 0 <= k < 64 ==> (Bit(Denoted(ctx, p, Not(e)), k) <==> !Bit(Denoted(ctx, p, e), k))
  {
    var a := Denoted(ctx, p, e);
    var k := Low64Is(-(a as int));
    assert Low64(-(a as int)) + a == k * TWO_64;
    forall k | 0 <= k < 64
      ensures Bit(Complement(a), k) <==> !Bit(a, k)
    {
      ComplementBit(a, k);
    }
  }

  /** Exactly these operations are accepted: a sum of at most one symbol; a difference whose right symbol, if there
      is one, is that of the left, or has a place in its section or in the current one; and anything else on plain
      numbers, but for divisions by 0 and shifts by 64 or more. */
  lemma AcceptedIff(ctx: Context, op: Op, a: Value, b: Value)
    ensures Apply(ctx, op, a, b).Ok? <==>
            match op
            case Add => a.sym.None? || b.sym.None?
            case Sub =>
              || b.sym.None? || a.sym == b.sym
              || (ctx.table(b.sym.value).Entry?
                  && (ctx.table(b.sym.value).shndx == ctx.section
                      || (a.sym.Some? && ctx.table(a.sym.value).Entry? && ctx.table(b.sym.value).shndx != 0
                          && ctx.table(a.sym.value).shndx == ctx.table(b.sym.value).shndx)))
            case Div | Mod => a.sym.None? && b.sym.None? && b.v > 0
            case Shl | Shr => a.sym.None? && b.sym.None? && b.v < 64
            case _ => a.sym.None? && b.sym.None?
  {
  }

  // How tightly operators bind

  /** The first operator takes its operands before the second one does. */
  predicate BindsTighter(first: Op, second: Op) {
    || (first in {Mul, Div, Mod, Shl, Shr} && second !in {Mul, Div, Mod, Shl, Shr})
    || (first in {And, Or, Xor} && second in {Add, Sub, Eq, Ne, Lt, Ge, Le, Gt})
    || (first in {Add, Sub} && second in {Eq, Ne, Lt, Ge, Le, Gt})
  }

  /** Of two operators in a row the left one goes first, unless the right one binds tighter. */
  lemma TighterGoesFirst(x: Word64, y: Word64, z: Word64, p: Op, q: Op)
    ensures Parse(4, [Number(x), Oper(p), Number(y), Oper(q), Number(z)], 0)
            == Tree(if BindsTighter(q, p) then Bin(p, Num(x), Bin(q, Num(y), Num(z))) else Bin(q, Bin(p, Num(x), Num(y)), Num(z)), 5)
  {
    hide Parse;
    var t := [Number(x), Oper(p), Number(y), Oper(q), Number(z)];
    assert BindsTighter(q, p) <==> LevelOfOp(q) < LevelOfOp(p);
    if BindsTighter(q, p) {
      RightFirst(x, y, z, p, q);
    } else {
      LeftFirst(x, y, z, p, q);
    }
  }

  lemma LeftFirst(x: Word64, y: Word64, z: Word64, p: Op, q: Op)
    requires LevelOfOp(p) <= LevelOfOp(q)
    ensures Parse(4, [Number(x), Oper(p), Number(y), Oper(q), Number(z)], 0) == Tree(Bin(q, Bin(p, Num(x), Num(y)), Num(z)), 5)
  {
    hide Parse, LevelOfOp;
    var l := Bin(p, Num(x), Num(y));
    var e := Bin(q, l, Num(z));
    assert LevelOf(Num(x)) == 0;
    assert Grammatical(l) && Grammatical(e);
    assert Flatten(l) == [Number(x), Oper(p), Number(y)];
    assert Flatten(e) + [] == [Number(x), Oper(p), Number(y), Oper(q), Number(z)];
    ParseFlatten(e, []);
  }

  lemma RightFirst(x: Word64, y: Word64, z: Word64, p: Op, q: Op)
    requires LevelOfOp(q) < LevelOfOp(p)
    ensures Parse(4, [Number(x), Oper(p), Number(y), Oper(q), Number(z)], 0) == Tree(Bin(p, Num(x), Bin(q, Num(y), Num(z))), 5)
  {
    hide Parse, LevelOfOp;
    var r := Bin(q, Num(y), Num(z));
    var e := Bin(p, Num(x), r);
    assert LevelOf(Num(x)) == 0;
    assert Grammatical(r) && Grammatical(e);
    assert Flatten(r) == [Number(y), Oper(q), Number(z)];
    assert Flatten(e) + [] == [Number(x), Oper(p), Number(y), Oper(q), Number(z)];
    ParseFlatten(e, []);
  }
}
