/** What an assembler expression evaluates to, and that it does not depend on where sections are placed. */
module AsmValue {
  import opened Bytes
  import opened Wrappers
  import opened AsmExpr

  // The value the assembler computes

  function Quotient(a: Word64, b: nat): (w: Word64)
    requires b > 0
    ensures 0 <= a - b * w < b
  {
    QuotientIsSmall(a, b);
    a / b
  }

  lemma QuotientIsSmall(a: nat, b: nat)
    requires b > 0
    ensures 0 <= a / b <= a
  {
    if a / b > a {
      MulAtLeast(a / b, b);
    }
  }

  function Remainder(a: Word64, b: Word64): (w: Word64)
    requires b > 0
    ensures w < b
  {
    a % b
  }

  /** The numeric operators, on words; dividing by zero and shifting out of range are caught before. */
  function Compute(op: Op, a: Word64, b: Word64): (w: Word64) {
    match op
    case Mul => Low64(a * b)
    case Div => if b == 0 then 0 else Quotient(a, b)
    case Mod => if b == 0 then 0 else Remainder(a, b)
    case Shl => if b < 64 then Low64(a * Pow2(b)) else 0
    case Shr => if b < 64 then Quotient(a, Pow2(b)) else 0
    case And | Or | Xor => BitwiseWord(op, a, b)
    case Add => Low64(a + b)
    case Sub => Low64(a - b)
    case _ => if Compare(op, a, b) then Low64(-1) else 0
  }

  function Complement(a: Word64): (w: Word64) {
    0xffff_ffff_ffff_ffff - a
  }

  /** Sums keep one symbol; what they are relative to is that of the left operand. */
  function Plus(a: Value, b: Value): (r: Outcome<Value>) {
    if a.sym.Some? && b.sym.Some? then Err(InvalidWithLabel)
    else Ok(Value(Low64(a.v + b.v), if a.sym.None? then b.sym else a.sym, a.pcrel))
  }

  /** Differences cancel a symbol against itself or against another one of its section. Subtracting a symbol of
      the current section leaves the rest, relative to that section. */
  function Minus(ctx: Context, a: Value, b: Value): (r: Outcome<Value>) {
    if b.sym.None? then Ok(Value(Low64(a.v - b.v), a.sym, a.pcrel))
    else if a.sym == b.sym then Ok(Value(Low64(a.v - b.v), None, a.pcrel))
    else
      match ctx.table(b.sym.value)
      case NoEntry => Err(InvalidWithLabel)
      case Entry(shndx, value) =>
        if SameSection(ctx, a.sym, shndx) then
          Ok(Value(Low64(Low64(a.v - b.v) + ToInt(ctx.table(a.sym.value).value - value)), None, a.pcrel))
        else if shndx == ctx.section then
          Ok(Value(Low64(Low64(a.v - b.v) + ToInt(-(value as int))), a.sym, true))
        else Err(InvalidWithLabel)
  }

  predicate SameSection(ctx: Context, sym: Option<nat>, shndx: nat) {
    sym.Some? && ctx.table(sym.value).Entry? && ctx.table(sym.value).shndx == shndx && shndx != SHN_UNDEF
  }

  function Apply(ctx: Context, op: Op, a: Value, b: Value): (r: Outcome<Value>) {
    if op == Add then Plus(a, b)
    else if op == Sub then Minus(ctx, a, b)
    else if a.sym.Some? || b.sym.Some? then Err(InvalidWithLabel)
    else if (op == Div || op == Mod) && b.v == 0 then Err(DivisionByZero)
    else if (op == Shl || op == Shr) && b.v >= 64 then Err(ShiftOutOfRange)
    else Ok(Value(Compute(op, a.v, b.v), None, a.pcrel))
  }

  function Eval(ctx: Context, e: Expr): (r: Outcome<Value>) {
    match e
    case Num(n) => Ok(Value(n, None, false))
    case Label(s) => Ok(Value(0, Some(s), false))
    case Ident(s) =>
      if ctx.table(s).Entry? && ctx.table(s).shndx == SHN_ABS then Ok(Value(ctx.table(s).value, None, false))
      else Ok(Value(0, Some(s), false))
    case Here => Ok(Value(ctx.ind, Some(ctx.here), false))
    case Pos(a) => Eval(ctx, a)
    case Paren(a) => Eval(ctx, a)
    case Neg(a) => Negated(Eval(ctx, a), true)
    case Not(a) => Negated(Eval(ctx, a), false)
    case Bin(op, l, r) =>
      var a := Eval(ctx, l);
      if a.Err? then a
      else
        var b := Eval(ctx, r);
        if b.Err? then b else Apply(ctx, op, a.value, b.value)
  }

  function Negated(a: Outcome<Value>, minus: bool): (r: Outcome<Value>) {
    if a.Err? then a
    else if a.value.sym.Some? then Err(InvalidWithLabel)
    else Ok(a.value.(v := if minus then Low64(-(a.value.v as int)) else Complement(a.value.v)))
  }

  // The number an expression denotes, once addresses are known

  /** Addresses: of every section, and of the symbols that have none of their own yet. Absolute symbols are
      not moved. */
  datatype Placement = Placement(base: nat -> Word64, elsewhere: nat -> Word64)

  function Address(ctx: Context, p: Placement, sym: nat): (a: Word64) {
    match ctx.table(sym)
    case NoEntry => p.elsewhere(sym)
    case Entry(shndx, value) =>
      if shndx == SHN_UNDEF || shndx == SHN_COMMON then p.elsewhere(sym)
      else if shndx == SHN_ABS then value
      else Low64(p.base(shndx) + value)
  }

  function Denoted(ctx: Context, p: Placement, e: Expr): (w: Word64) {
    match e
    case Num(n) => n
    case Label(s) => Address(ctx, p, s)
    case Ident(s) => Address(ctx, p, s)
    case Here => Low64(ctx.ind + Address(ctx, p, ctx.here))
    case Pos(a) => Denoted(ctx, p, a)
    case Paren(a) => Denoted(ctx, p, a)
    case Neg(a) => Low64(-(Denoted(ctx, p, a) as int))
    case Not(a) => Complement(Denoted(ctx, p, a))
    case Bin(op, l, r) => Compute(op, Denoted(ctx, p, l), Denoted(ctx, p, r))
  }

  function SymAddress(ctx: Context, p: Placement, sym: Option<nat>): (w: Word64) {
    if sym.Some? then Address(ctx, p, sym.value) else 0
  }

  function Origin(ctx: Context, p: Placement, pcrel: bool): (w: Word64) {
    if pcrel then p.base(ctx.section) else 0
  }

  /** The number, plus the address of the symbol if there is one, less that of the current section if the value
      is relative to it, as its relocation makes it. */
  function Located(ctx: Context, p: Placement, val: Value): (w: Word64) {
    Low64(val.v + SymAddress(ctx, p, val.sym) - Origin(ctx, p, val.pcrel))
  }

  /** The two values are about different symbols of one section. */
  predicate CancelsSection(ctx: Context, a: Value, b: Value) {
    && b.sym.Some? && a.sym != b.sym && ctx.table(b.sym.value).Entry?
    && SameSection(ctx, a.sym, ctx.table(b.sym.value).shndx)
  }

  /** A symbol of the current section is subtracted that nothing cancels. */
  predicate BecomesRelative(ctx: Context, a: Value, b: Value) {
    && b.sym.Some? && a.sym != b.sym && ctx.table(b.sym.value).Entry?
    && !SameSection(ctx, a.sym, ctx.table(b.sym.value).shndx) && ctx.table(b.sym.value).shndx == ctx.section
  }

  /** The number survives as a C int. */
  predicate Fits(d: int) {
    -0x8000_0000 <= Signed64(Low64(d)) < 0x8000_0000
  }

  /** What a difference takes for a distance or an offset is one: common symbols, whose value is an alignment,
      are not subtracted from each other, and the number survives as a C int. */
  predicate FaithfulDistance(ctx: Context, a: Value, b: Value) {
    && (CancelsSection(ctx, a, b) ==>
          && ctx.table(a.sym.value).shndx != 0xfff2
          && Fits(ctx.table(a.sym.value).value as int - ctx.table(b.sym.value).value as int))
    && (BecomesRelative(ctx, a, b) ==> Fits(-(ctx.table(b.sym.value).value as int)))
  }

  /** The result remembers that an operand was relative to the current section. A value records at most one such
      section, and only the left operand is asked; a difference keeps it if two are taken away and one given back. */
  predicate KeepsOrigin(ctx: Context, op: Op, a: Value, b: Value) {
    if op == Add then !b.pcrel
    else if op == Sub then b.pcrel <==> a.pcrel && BecomesRelative(ctx, a, b)
    else !a.pcrel && !b.pcrel
  }

  predicate FaithfulOperation(ctx: Context, op: Op, a: Value, b: Value) {
    KeepsOrigin(ctx, op, a, b) && (op == Sub ==> FaithfulDistance(ctx, a, b))
  }

  predicate NotRelative(a: Outcome<Value>) {
    a.Ok? ==> !a.value.pcrel
  }

  /** Every operation in the expression is faithful. */
  predicate Faithful(ctx: Context, e: Expr) {
    match e
    case Num(_) => true
    case Label(_) => true
    case Ident(_) => true
    case Here => true
    case Pos(a) => Faithful(ctx, a)
    case Paren(a) => Faithful(ctx, a)
    case Neg(a) => Faithful(ctx, a) && NotRelative(Eval(ctx, a))
    case Not(a) => Faithful(ctx, a) && NotRelative(Eval(ctx, a))
    case Bin(op, l, r) =>
      && Faithful(ctx, l) && Faithful(ctx, r)
      && (Eval(ctx, l).Ok? && Eval(ctx, r).Ok? ==> FaithfulOperation(ctx, op, Eval(ctx, l).value, Eval(ctx, r).value))
  }

  /** No operation in the expression forgets that an operand was relative to the current section. */
  predicate OriginsKept(ctx: Context, e: Expr) {
    match e
    case Num(_) => true
    case Label(_) => true
    case Ident(_) => true
    case Here => true
    case Pos(a) => OriginsKept(ctx, a)
    case Paren(a) => OriginsKept(ctx, a)
    case Neg(a) => OriginsKept(ctx, a) && NotRelative(Eval(ctx, a))
    case Not(a) => OriginsKept(ctx, a) && NotRelative(Eval(ctx, a))
    case Bin(op, l, r) =>
      && OriginsKept(ctx, l) && OriginsKept(ctx, r)
      && (Eval(ctx, l).Ok? && Eval(ctx, r).Ok? ==> KeepsOrigin(ctx, op, Eval(ctx, l).value, Eval(ctx, r).value))
  }

  // Arithmetic modulo 2^64

  lemma Low64Shift(a: int, k: int)
    ensures Low64(a + k * TWO_64) == Low64(a)
  {
    DivUnique(a + k * TWO_64, TWO_64, a / TWO_64 + k, a % TWO_64);
  }

  lemma Low64Is(a: int) returns (k: int)
    ensures Low64(a) == a + k * TWO_64
  {
    k := -(a / TWO_64);
  }

  lemma Low64Equal(a: int, b: int)
    ensures Low64(a) == Low64(b) <==> Low64(a - b) == 0
  {
    hide Low64;
    var i := Low64Is(a);
    var j := Low64Is(b);
    var k := Low64Is(a - b);
    if Low64(a) == Low64(b) {
      Low64Shift(0, j - i);
      assert Low64(0) == 0 by { Low64Small(0); }
    } else if Low64(a - b) == 0 {
      Low64Shift(b, -k);
    }
  }

  lemma Low64Small(a: Word64)
    ensures Low64(a) == a
  {
  }

  /** Numbers one apart are not both multiples of 2^64. */
  lemma OneApart(a: int, b: int, k: int)
    requires a - b == 1 + k * TWO_64 || b - a == 1 + k * TWO_64
    ensures Low64(a) != 0 || Low64(b) != 0
  {
    hide Low64;
    if Low64(a) == Low64(b) {
      Low64Equal(a, b);
      Low64Equal(b, a);
      Low64Shift(1, k);
      Low64Small(1);
    }
  }

  lemma ToIntShift(d: int)
    ensures exists k :: d == ToInt(d) + k * TWO_32
  {
    assert d == ToInt(d) + (if d % TWO_32 < 0x8000_0000 then d / TWO_32 else d / TWO_32 + 1) * TWO_32;
  }

  /** A number cut to a C int is the number, modulo 2^64, exactly when it fits. */
  lemma CutIsExact(d: int)
    ensures Low64(ToInt(d)) == Low64(d) <==> Fits(d)
  {
    ToIntShift(d);
    Low64Signed(ToInt(d));
    Low64Signed(Signed64(Low64(d)));
    if Fits(d) {
      SignedShift(d);
      ToIntUnique(d, Signed64(Low64(d)));
    }
  }

  lemma Low64Signed(n: int)
    requires -0x8000_0000_0000_0000 <= n < 0x8000_0000_0000_0000
    ensures Signed64(Low64(n)) == n
  {
    if n < 0 {
      Low64Shift(n, 1);
    }
  }

  lemma SignedShift(d: int)
    ensures exists k :: d == Signed64(Low64(d)) + k * TWO_64
    ensures Low64(Signed64(Low64(d))) == Low64(d)
  {
    var k := if Low64(d) < 0x8000_0000_0000_0000 then d / TWO_64 else d / TWO_64 + 1;
    assert d == Signed64(Low64(d)) + k * TWO_64;
    Low64Shift(Signed64(Low64(d)), k);
  }

  lemma ToIntUnique(d: int, n: int)
    requires -0x8000_0000 <= n < 0x8000_0000 && exists k :: d == n + k * TWO_64
    ensures ToInt(d) == n
  {
    var k :| d == n + k * TWO_64;
    DivUnique(d, TWO_32, k * TWO_32 + (if n < 0 then -1 else 0), if n < 0 then n + TWO_32 else n);
  }

  // Placement independence

  /** By how much the value computed at a difference is off, once addresses are known. */
  function Defect(ctx: Context, p: Placement, a: Value, b: Value): (d: int) {
    (if CancelsSection(ctx, a, b) then
       ToInt(ctx.table(a.sym.value).value as int - ctx.table(b.sym.value).value as int)
       - (Address(ctx, p, a.sym.value) as int - Address(ctx, p, b.sym.value) as int)
     else if BecomesRelative(ctx, a, b) then
       ToInt(-(ctx.table(b.sym.value).value as int)) + Address(ctx, p, b.sym.value)
       - (if a.pcrel then 0 else p.base(ctx.section))
     else 0)
    - Origin(ctx, p, b.pcrel)
  }

  lemma MinusDefect(ctx: Context, p: Placement, a: Value, b: Value)
    requires Minus(ctx, a, b).Ok?
    ensures Located(ctx, p, Minus(ctx, a, b).value) == Low64(Located(ctx, p, a) - Located(ctx, p, b))
            <==> Low64(Defect(ctx, p, a, b)) == 0
  {
    hide Low64, ToInt, Address, Minus;
    var r := Minus(ctx, a, b).value;
    var x := r.v + SymAddress(ctx, p, r.sym) - Origin(ctx, p, r.pcrel);
    var y := Located(ctx, p, a) - Located(ctx, p, b);
    var i := Low64Is(a.v + SymAddress(ctx, p, a.sym) - Origin(ctx, p, a.pcrel));
    var j := Low64Is(b.v + SymAddress(ctx, p, b.sym) - Origin(ctx, p, b.pcrel));
    var k := MinusWord(ctx, a, b);
    Low64Equal(x, y);
    Low64Shift(Defect(ctx, p, a, b), k - i + j);
    assert x - y == Defect(ctx, p, a, b) + (k - i + j) * TWO_64;
  }

  /** What a difference comes to, modulo 2^64. */
  lemma MinusWord(ctx: Context, a: Value, b: Value) returns (k: int)
    requires Minus(ctx, a, b).Ok?
    ensures Minus(ctx, a, b).value.v == a.v - b.v + k * TWO_64
            + (if CancelsSection(ctx, a, b) then
                 ToInt(ctx.table(a.sym.value).value as int - ctx.table(b.sym.value).value as int)
               else if BecomesRelative(ctx, a, b) then ToInt(-(ctx.table(b.sym.value).value as int))
               else 0)
    ensures Minus(ctx, a, b).value.sym == if b.sym.Some? && (a.sym == b.sym || CancelsSection(ctx, a, b)) then None else a.sym
    ensures Minus(ctx, a, b).value.pcrel == (a.pcrel || BecomesRelative(ctx, a, b))
    ensures b.sym.Some? && a.sym != b.sym ==> CancelsSection(ctx, a, b) || BecomesRelative(ctx, a, b)
  {
    hide Low64, ToInt;
    k := Low64Is(a.v as int - b.v as int);
    if CancelsSection(ctx, a, b) {
      var j := Low64Is(Low64(a.v - b.v) + ToInt(ctx.table(a.sym.value).value as int - ctx.table(b.sym.value).value as int));
      k := k + j;
    } else if BecomesRelative(ctx, a, b) {
      var j := Low64Is(Low64(a.v - b.v) + ToInt(-(ctx.table(b.sym.value).value as int)));
      k := k + j;
    }
  }

  /** The address of a symbol of a section, modulo 2^64. */
  lemma AddressIs(ctx: Context, p: Placement, sym: nat) returns (k: int)
    requires ctx.table(sym).Entry? && ctx.table(sym).shndx !in {SHN_UNDEF, SHN_COMMON, SHN_ABS}
    ensures Address(ctx, p, sym) == p.base(ctx.table(sym).shndx) + ctx.table(sym).value + k * TWO_64
  {
    k := Low64Is(p.base(ctx.table(sym).shndx) + ctx.table(sym).value);
  }

  lemma FaithfulHasNoDefect(ctx: Context, p: Placement, a: Value, b: Value)
    requires Minus(ctx, a, b).Ok? && FaithfulOperation(ctx, Sub, a, b)
    ensures Low64(Defect(ctx, p, a, b)) == 0
  {
    hide Low64, ToInt, Fits, Address;
    var k := DistanceError(ctx, p, a, b);
    if CancelsSection(ctx, a, b) || BecomesRelative(ctx, a, b) {
      CutIsExact(Cut(ctx, a, b));
      Low64Equal(ToInt(Cut(ctx, a, b)), Cut(ctx, a, b));
      Low64Shift(ToInt(Cut(ctx, a, b)) - Cut(ctx, a, b), k);
    } else {
      Low64Small(0);
      Low64Shift(0, k);
    }
  }

  /** The number a difference cuts to a C int. */
  function Cut(ctx: Context, a: Value, b: Value): (d: int)
    requires CancelsSection(ctx, a, b) || BecomesRelative(ctx, a, b)
  {
    (if CancelsSection(ctx, a, b) then ctx.table(a.sym.value).value as int else 0) - ctx.table(b.sym.value).value as int
  }

  /** Common symbols aside, the defect is what the cut takes away and the sections that are not accounted for. */
  lemma DistanceError(ctx: Context, p: Placement, a: Value, b: Value) returns (k: int)
    requires Minus(ctx, a, b).Ok?
    requires CancelsSection(ctx, a, b) ==> ctx.table(a.sym.value).shndx != SHN_COMMON
    ensures Defect(ctx, p, a, b)
            == (if CancelsSection(ctx, a, b) || BecomesRelative(ctx, a, b) then
                  ToInt(Cut(ctx, a, b)) - Cut(ctx, a, b)
                else 0)
               + k * TWO_64 + Origin(ctx, p, a.pcrel && BecomesRelative(ctx, a, b)) - Origin(ctx, p, b.pcrel)
  {
    hide Low64, ToInt;
    k := 0;
    if CancelsSection(ctx, a, b) && ctx.table(a.sym.value).shndx != SHN_ABS {
      hide Address;
      var i := AddressIs(ctx, p, a.sym.value);
      var j := AddressIs(ctx, p, b.sym.value);
      k := j - i;
    } else if BecomesRelative(ctx, a, b) {
      hide Address;
      k := AddressIs(ctx, p, b.sym.value);
    }
  }

  /** The current section at `base`, everything else at 0, and the left symbol, if it has no section, at `at`. */
  function Probe(ctx: Context, a: Value, base: Word64, at: Word64): (p: Placement) {
    Placement(s => if s == ctx.section then base else 0, s => if a.sym == Some(s) then at else 0)
  }

  /** An unfaithful difference comes out wrong under one of three placements. */
  lemma UnfaithfulHasDefect(ctx: Context, a: Value, b: Value)
    requires Minus(ctx, a, b).Ok? && !FaithfulOperation(ctx, Sub, a, b)
    ensures Low64(Defect(ctx, Probe(ctx, a, 0, 0), a, b)) != 0 || Low64(Defect(ctx, Probe(ctx, a, 1, 0), a, b)) != 0
            || Low64(Defect(ctx, Probe(ctx, a, 0, 1), a, b)) != 0
  {
    hide Low64, ToInt, Fits;
    var p, q := Probe(ctx, a, 0, 0), Probe(ctx, a, 1, 0);
    if CancelsSection(ctx, a, b) && ctx.table(a.sym.value).shndx == SHN_COMMON {
      OneApart(Defect(ctx, p, a, b), Defect(ctx, Probe(ctx, a, 0, 1), a, b), 0);
    } else {
      hide Address;
      var i := DistanceError(ctx, p, a, b);
      var j := DistanceError(ctx, q, a, b);
      if !KeepsOrigin(ctx, Sub, a, b) {
        OneApart(Defect(ctx, p, a, b), Defect(ctx, q, a, b), if b.pcrel then i - j else j - i);
      } else {
        CutIsExact(Cut(ctx, a, b));
        Low64Equal(ToInt(Cut(ctx, a, b)), Cut(ctx, a, b));
        Low64Shift(ToInt(Cut(ctx, a, b)) - Cut(ctx, a, b), i);
      }
    }
  }

  /** The value computed at a difference is right wherever things are placed, exactly when the difference is
      faithful. */
  lemma DifferenceIsFaithful(ctx: Context, a: Value, b: Value)
    requires Minus(ctx, a, b).Ok?
    ensures (forall p :: Located(ctx, p, Minus(ctx, a, b).value) == Low64(Located(ctx, p, a) - Located(ctx, p, b)))
            <==> FaithfulOperation(ctx, Sub, a, b)
  {
    hide Located, Minus, Defect, FaithfulOperation;
    forall p
      ensures Located(ctx, p, Minus(ctx, a, b).value) == Low64(Located(ctx, p, a) - Located(ctx, p, b))
              <==> Low64(Defect(ctx, p, a, b)) == 0
    {
      MinusDefect(ctx, p, a, b);
    }
    if FaithfulOperation(ctx, Sub, a, b) {
      forall p
        ensures Low64(Defect(ctx, p, a, b)) == 0
      {
        FaithfulHasNoDefect(ctx, p, a, b);
      }
    } else {
      UnfaithfulHasDefect(ctx, a, b);
    }
  }

  lemma PlusDefect(ctx: Context, p: Placement, a: Value, b: Value)
    requires Plus(a, b).Ok?
    ensures Located(ctx, p, Plus(a, b).value) == Low64(Located(ctx, p, a) + Located(ctx, p, b))
            <==> Low64(Origin(ctx, p, b.pcrel)) == 0
  {
    hide Low64, Address;
    var r := Plus(a, b).value;
    var x := r.v + SymAddress(ctx, p, r.sym) - Origin(ctx, p, r.pcrel);
    var y := Located(ctx, p, a) + Located(ctx, p, b);
    var i := Low64Is(a.v + SymAddress(ctx, p, a.sym) - Origin(ctx, p, a.pcrel));
    var j := Low64Is(b.v + SymAddress(ctx, p, b.sym) - Origin(ctx, p, b.pcrel));
    var k := Low64Is(a.v + b.v);
    Low64Equal(x, y);
    Low64Shift(Origin(ctx, p, b.pcrel), k - i - j);
    assert x - y == Origin(ctx, p, b.pcrel) + (k - i - j) * TWO_64;
  }

  /** The value computed at a sum is right wherever things are placed, exactly when its right operand is not
      relative to the current section. */
  lemma SumIsFaithful(ctx: Context, a: Value, b: Value)
    requires Plus(a, b).Ok?
    ensures (forall p :: Located(ctx, p, Plus(a, b).value) == Low64(Located(ctx, p, a) + Located(ctx, p, b)))
            <==> FaithfulOperation(ctx, Add, a, b)
  {
    hide Located, Plus;
    forall p
      ensures Located(ctx, p, Plus(a, b).value) == Low64(Located(ctx, p, a) + Located(ctx, p, b))
              <==> Low64(Origin(ctx, p, b.pcrel)) == 0
    {
      PlusDefect(ctx, p, a, b);
    }
    assert Low64(Origin(ctx, Probe(ctx, a, 1, 0), true)) == 1;
  }

  /** What an expression evaluates to, plus the address of its symbol, is what it denotes, under every placement
      of sections and symbols, if its operations are faithful. */
  lemma {:induction false} EvalIsPlacementIndependent(ctx: Context, p: Placement, e: Expr)
    requires Eval(ctx, e).Ok? && Faithful(ctx, e)
    ensures Located(ctx, p, Eval(ctx, e).value) == Denoted(ctx, p, e)
    decreases e
  {
    hide Compute, Complement, Minus, Plus, FaithfulDistance, KeepsOrigin, Located;
    match e {
      case Num(_) => Leaf(ctx, p, e);
      case Label(_) => Leaf(ctx, p, e);
      case Ident(_) => Leaf(ctx, p, e);
      case Here => Leaf(ctx, p, e);
      case Pos(a) => EvalIsPlacementIndependent(ctx, p, a);
      case Paren(a) => EvalIsPlacementIndependent(ctx, p, a);
      case Neg(a) =>
        EvalIsPlacementIndependent(ctx, p, a);
        Numeric(ctx, p, Eval(ctx, a).value);
        Numeric(ctx, p, Eval(ctx, e).value);
      case Not(a) =>
        EvalIsPlacementIndependent(ctx, p, a);
        Numeric(ctx, p, Eval(ctx, a).value);
        Numeric(ctx, p, Eval(ctx, e).value);
      case Bin(op, l, r) =>
        EvalIsPlacementIndependent(ctx, p, l);
        EvalIsPlacementIndependent(ctx, p, r);
        Operation(ctx, p, op, Eval(ctx, l).value, Eval(ctx, r).value);
    }
  }

  lemma Leaf(ctx: Context, p: Placement, e: Expr)
    requires e.Num? || e.Label? || e.Ident? || e.Here?
    ensures Eval(ctx, e).Ok? && Located(ctx, p, Eval(ctx, e).value) == Denoted(ctx, p, e)
  {
  }

  lemma Numeric(ctx: Context, p: Placement, a: Value)
    requires a.sym.None? && !a.pcrel
    ensures Located(ctx, p, a) == a.v
  {
  }

  lemma Operation(ctx: Context, p: Placement, op: Op, a: Value, b: Value)
    requires Apply(ctx, op, a, b).Ok? && FaithfulOperation(ctx, op, a, b)
    ensures Located(ctx, p, Apply(ctx, op, a, b).value) == Compute(op, Located(ctx, p, a), Located(ctx, p, b))
  {
    hide Located, Minus, Plus, FaithfulDistance;
    if op == Add {
      SumIsFaithful(ctx, a, b);
    } else if op == Sub {
      DifferenceIsFaithful(ctx, a, b);
    } else {
      Numeric(ctx, p, a);
      Numeric(ctx, p, b);
      Numeric(ctx, p, Apply(ctx, op, a, b).value);
    }
  }

  /** No symbol is a common one, and every offset is below 2^31. */
  ghost predicate SmallOffsets(ctx: Context) {
    forall s: nat {:trigger ctx.table(s)} :: ctx.table(s).Entry? ==>
      ctx.table(s).shndx != SHN_COMMON && ctx.table(s).value < 0x8000_0000
  }

  /** With offsets below 2^31 and no common symbols, all that matters is what is relative to the current section. */
  lemma {:induction false} SmallOffsetsAreFaithful(ctx: Context, e: Expr)
    requires SmallOffsets(ctx)
    ensures Faithful(ctx, e) <==> OriginsKept(ctx, e)
    decreases e
  {
    hide Eval;
    match e {
      case Num(_) =>
      case Label(_) =>
      case Ident(_) =>
      case Here =>
      case Pos(a) => SmallOffsetsAreFaithful(ctx, a);
      case Paren(a) => SmallOffsetsAreFaithful(ctx, a);
      case Neg(a) => SmallOffsetsAreFaithful(ctx, a);
      case Not(a) => SmallOffsetsAreFaithful(ctx, a);
      case Bin(op, l, r) =>
        SmallOffsetsAreFaithful(ctx, l);
        SmallOffsetsAreFaithful(ctx, r);
        if Eval(ctx, l).Ok? && Eval(ctx, r).Ok? {
          SmallDistance(ctx, Eval(ctx, l).value, Eval(ctx, r).value);
        }
    }
  }

  lemma SmallDistance(ctx: Context, a: Value, b: Value)
    requires SmallOffsets(ctx)
    ensures FaithfulDistance(ctx, a, b)
  {
    if CancelsSection(ctx, a, b) {
      Low64Signed(ctx.table(a.sym.value).value - ctx.table(b.sym.value).value);
    }
    if BecomesRelative(ctx, a, b) {
      Low64Signed(-(ctx.table(b.sym.value).value as int));
    }
  }

  /** Two common symbols, of alignments 8 and 4, subtract to 4 wherever they are put. */
  lemma CommonDifferenceFails(ctx: Context)
    requires ctx.table(1) == Entry(0xfff2, 8) && ctx.table(2) == Entry(0xfff2, 4)
    ensures var e := Bin(Sub, Ident(1), Ident(2));
            && Eval(ctx, e) == Ok(Value(4, None, false))
            && exists p :: Denoted(ctx, p, e) != 4
  {
    var p := Placement(_ => 0, _ => 0);
    assert Denoted(ctx, p, Bin(Sub, Ident(1), Ident(2))) == 0;
  }

  lemma NineLess(ind: Word64)
    ensures Low64(Low64(Low64(9 - ind) + ToInt(0)) + 1) == Low64(10 - ind)
    ensures Low64(1 + Low64(9 - Low64(ind + 1))) != Low64(10 - ind)
  {
    hide Low64;
    assert ToInt(0) == 0 by { assert Low32(0) == 0; }
    var i := Low64Is(9 - ind);
    var j := Low64Is(Low64(9 - ind) + 0);
    Low64Shift(10 - ind, i + j);
    var k := Low64Is(ind + 1);
    var l := Low64Is(9 - Low64(ind + 1));
    Low64Shift(9 - ind, l - k);
    OneApart(10 - ind, 9 - ind, 0);
    Low64Equal(10 - ind, 9 - ind);
    Low64Small(1);
  }

  function NineLessHere(): (e: Expr) {
    Paren(Bin(Sub, Num(9), Here))
  }

  lemma NineLessHereIs(ctx: Context)
    requires ctx.table(ctx.here) == Entry(ctx.section, 0)
    ensures Eval(ctx, NineLessHere()) == Ok(Value(Low64(Low64(9 - ctx.ind) + ToInt(0)), None, true))
    ensures Denoted(ctx, Placement(_ => 1, _ => 0), NineLessHere()) == Low64(9 - Low64(ctx.ind + 1))
  {
    hide Low64, ToInt;
    var e, p := Bin(Sub, Num(9), Here), Placement(_ => 1, _ => 0);
    assert Eval(ctx, e) == Minus(ctx, Value(9, None, false), Value(ctx.ind, Some(ctx.here), false));
    assert Eval(ctx, NineLessHere()) == Eval(ctx, e) && Denoted(ctx, p, NineLessHere()) == Denoted(ctx, p, e);
    assert Denoted(ctx, p, e) == Compute(Sub, 9, Low64(ctx.ind + Address(ctx, p, ctx.here)));
    assert Address(ctx, Placement(_ => 1, _ => 0), ctx.here) == 1 by { Low64Small(1); }
  }

  /** 9 - . is relative to the current section, and so is (9 - .) + 1; but 1 + (9 - .) is a plain number, the
      same wherever the section is put. */
  lemma OriginIsLost(ctx: Context)
    requires ctx.table(ctx.here) == Entry(ctx.section, 0)
    ensures var d := NineLessHere();
            && Eval(ctx, Bin(Add, d, Num(1))) == Ok(Value(Low64(10 - ctx.ind), None, true))
            && Eval(ctx, Bin(Add, Num(1), d)) == Ok(Value(Low64(10 - ctx.ind), None, false))
            && exists p :: Denoted(ctx, p, Bin(Add, Num(1), d)) != Low64(10 - ctx.ind)
  {
    hide Low64, ToInt, NineLessHere;
    NineLess(ctx.ind);
    NineLessHereIs(ctx);
    assert Denoted(ctx, Placement(_ => 1, _ => 0), Bin(Add, Num(1), NineLessHere())) != Low64(10 - ctx.ind);
  }
}
