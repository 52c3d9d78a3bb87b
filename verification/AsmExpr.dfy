/** Assembler expressions: tokens, the trees they spell, and two readings of a tree: the one the assembler
    computes, a number and at most one symbol, and the number it denotes once every section has an address. */
module AsmExpr {
  import opened Bytes
  import opened Wrappers

  datatype Error = BadSyntax | InvalidWithLabel | DivisionByZero | ShiftOutOfRange

  type Outcome<T> = Result<T, Error>

  datatype Op = Mul | Div | Mod | Shl | Shr | And | Or | Xor | Add | Sub | Eq | Ne | Lt | Ge | Le | Gt

  /** A number or character constant, a numbered label already looked up, a name, or punctuation. */
  datatype Token = Number(n: Word64) | LocalLabel(sym: nat) | Name(sym: nat) | Dot | Oper(op: Op) | Tilde
                 | Open | Close | Other

  const SHN_UNDEF: nat := 0
  const SHN_ABS: nat := 0xfff1
  const SHN_COMMON: nat := 0xfff2

  /** What is known of a symbol: nothing yet, or a section and an offset in it. */
  datatype SymInfo = NoEntry | Entry(shndx: nat, value: Word64)

  /** The number of a section that has contents. */
  type SectionNumber = n: nat | 0 < n < 0xff00 witness 1

  /** The symbols, the number of the current section, the offset reached in it and the symbol of its start. */
  datatype Context = Context(table: nat -> SymInfo, section: SectionNumber, ind: Word64, here: nat)

  /** A number, at most one symbol, and whether both are relative to the start of the current section. */
  datatype Value = Value(v: Word64, sym: Option<nat>, pcrel: bool)

  datatype Expr = Num(n: Word64) | Label(sym: nat) | Ident(sym: nat) | Here
                | Pos(e: Expr) | Neg(e: Expr) | Not(e: Expr) | Paren(e: Expr) | Bin(op: Op, l: Expr, r: Expr)

  // Words

  function BitOf(op: Op, a: nat, b: nat): (r: nat)
    ensures r < 2
  {
    var x, y := a % 2, b % 2;
    if op == And then x * y else if op == Or then x + y - x * y else (x + y) % 2
  }

  /** The low k bits of a and b, combined bit by bit. */
  function Bitwise(op: Op, a: nat, b: nat, k: nat): (r: nat)
    ensures r < Pow2(k)
  {
    if k == 0 then 0 else BitOf(op, a, b) + 2 * Bitwise(op, a / 2, b / 2, k - 1)
  }

  function BitwiseWord(op: Op, a: Word64, b: Word64): (r: Word64) {
    Pow2Of64();
    Bitwise(op, a, b, 64)
  }

  lemma Pow2Of64()
    ensures Pow2(64) == 0x1_0000_0000_0000_0000
  {
    Pow2Sum(2, 2);
    Pow2Sum(4, 4);
    Pow2Sum(8, 8);
    Pow2Sum(16, 16);
    Pow2Sum(32, 32);
  }

  lemma {:induction false} Pow2Sum(a: nat, b: nat)
    ensures Pow2(a + b) == Pow2(a) * Pow2(b)
  {
    if a > 0 {
      Pow2Sum(a - 1, b);
    }
  }

  predicate Compare(op: Op, a: Word64, b: Word64) {
    match op
    case Eq => a == b
    case Ne => a != b
    case Lt => Signed64(a) < Signed64(b)
    case Ge => Signed64(a) >= Signed64(b)
    case Le => Signed64(a) <= Signed64(b)
    case _ => Signed64(a) > Signed64(b)
  }

  // Levels

  /** How loosely the operator binds: products 1, bitwise 2, sums 3, comparisons 4. */
  function LevelOfOp(op: Op): (k: nat)
    ensures 1 <= k <= 4
  {
    match op
    case Mul | Div | Mod | Shl | Shr => 1
    case And | Or | Xor => 2
    case Add | Sub => 3
    case _ => 4
  }

  function LevelOf(e: Expr): (k: nat) {
    if e.Bin? then LevelOfOp(e.op) else 0
  }

  /** Operators associate to the left, and only parentheses lower the level. */
  predicate Grammatical(e: Expr) {
    match e
    case Num(_) => true
    case Label(_) => true
    case Ident(_) => true
    case Here => true
    case Pos(a) => LevelOf(a) == 0 && Grammatical(a)
    case Neg(a) => LevelOf(a) == 0 && Grammatical(a)
    case Not(a) => LevelOf(a) == 0 && Grammatical(a)
    case Paren(a) => Grammatical(a)
    case Bin(op, l, r) => LevelOf(l) <= LevelOfOp(op) && LevelOf(r) < LevelOfOp(op) && Grammatical(l) && Grammatical(r)
  }

  function Flatten(e: Expr): (t: seq<Token>)
    ensures |t| >= 1
  {
    match e
    case Num(n) => [Number(n)]
    case Label(s) => [LocalLabel(s)]
    case Ident(s) => [Name(s)]
    case Here => [Dot]
    case Pos(a) => [Oper(Add)] + Flatten(a)
    case Neg(a) => [Oper(Sub)] + Flatten(a)
    case Not(a) => [Tilde] + Flatten(a)
    case Paren(a) => [Open] + Flatten(a) + [Close]
    case Bin(op, l, r) => Flatten(l) + [Oper(op)] + Flatten(r)
  }

  // Parsing

  function TokenAt(t: seq<Token>, i: nat): (k: Token) {
    if i < |t| then t[i] else Other
  }

  datatype Parsed = Fail | Tree(e: Expr, next: nat)

  function Atom(k: Token): (e: Option<Expr>) {
    match k
    case Number(n) => Some(Num(n))
    case LocalLabel(s) => Some(Label(s))
    case Name(s) => Some(Ident(s))
    case Dot => Some(Here)
    case _ => None
  }

  function Prefix(k: Token, e: Expr): (r: Expr)
    requires k == Oper(Add) || k == Oper(Sub) || k == Tilde
  {
    if k == Oper(Add) then Pos(e) else if k == Tilde then Not(e) else Neg(e)
  }

  /** The operators of level k at i; every token has at most one level. */
  predicate OperatorAt(k: nat, t: seq<Token>, i: nat) {
    TokenAt(t, i).Oper? && LevelOfOp(TokenAt(t, i).op) == k
  }

  function Parse(k: nat, t: seq<Token>, i: nat): (p: Parsed)
    requires k <= 4
    ensures p.Tree? ==> i < p.next <= |t|
    decreases |t| - i, k, 1
  {
    if k == 0 then ParseUnary(t, i)
    else
      var first := Parse(k - 1, t, i);
      if first.Fail? then Fail else ParseRest(k, first.e, t, first.next)
  }

  function ParseUnary(t: seq<Token>, i: nat): (p: Parsed)
    ensures p.Tree? ==> i < p.next <= |t|
    decreases |t| - i, 0, 0
  {
    var tok := TokenAt(t, i);
    if Atom(tok).Some? then Tree(Atom(tok).value, i + 1)
    else if tok == Oper(Add) || tok == Oper(Sub) || tok == Tilde then
      var p := ParseUnary(t, i + 1);
      if p.Fail? then Fail else Tree(Prefix(tok, p.e), p.next)
    else if tok == Open then
      var p := Parse(4, t, i + 1);
      if p.Fail? || TokenAt(t, p.next) != Close then Fail else Tree(Paren(p.e), p.next + 1)
    else Fail
  }

  /** The operators of level k that follow the tree read so far. */
  function ParseRest(k: nat, e: Expr, t: seq<Token>, i: nat): (p: Parsed)
    requires 1 <= k <= 4 && i <= |t|
    ensures p.Tree? ==> i <= p.next <= |t|
    decreases |t| - i, k, 2
  {
    if OperatorAt(k, t, i) then
      var r := Parse(k - 1, t, i + 1);
      if r.Fail? then Fail else ParseRest(k, Bin(t[i].op, e, r.e), t, r.next)
    else Tree(e, i)
  }

  /** No operator of level at most k at i. */
  predicate EndsAt(k: nat, t: seq<Token>, i: nat) {
    TokenAt(t, i).Oper? ==> LevelOfOp(TokenAt(t, i).op) > k
  }

  /** The tokens from i spell e. */
  predicate Spells(t: seq<Token>, i: nat, e: Expr) {
    i + |Flatten(e)| <= |t| && t[i..i + |Flatten(e)|] == Flatten(e)
  }

  /** Parsing a spelled-out tree reaches its end with the tree as read, ready for more operators. */
  lemma {:induction false} ParseReads(k: nat, e: Expr, t: seq<Token>, i: nat)
    requires k <= 4 && Grammatical(e) && LevelOf(e) <= k && Spells(t, i, e)
    requires k > 0 ==> EndsAt(k - 1, t, i + |Flatten(e)|)
    ensures Parse(k, t, i) == if k == 0 then Tree(e, i + |Flatten(e)|) else ParseRest(k, e, t, i + |Flatten(e)|)
    decreases e, k
  {
    hide EndsAt;
    if k == 0 {
      ParseReadsUnary(e, t, i);
    } else if LevelOf(e) < k {
      ParseReadsLower(k, e, t, i);
    } else {
      ParseReadsBin(k, e, t, i);
    }
  }

  lemma {:induction false} ParseReadsUnary(e: Expr, t: seq<Token>, i: nat)
    requires Grammatical(e) && LevelOf(e) == 0 && Spells(t, i, e)
    ensures Parse(0, t, i) == Tree(e, i + |Flatten(e)|)
    decreases e, 0, 0
  {
    assert t[i] == t[i..i + |Flatten(e)|][0];
    match e {
      case Num(_) =>
      case Label(_) =>
      case Ident(_) =>
      case Here =>
      case Pos(a) => SpellsTail(t, i, e, a); ParseReadsUnary(a, t, i + 1);
      case Neg(a) => SpellsTail(t, i, e, a); ParseReadsUnary(a, t, i + 1);
      case Not(a) => SpellsTail(t, i, e, a); ParseReadsUnary(a, t, i + 1);
      case Paren(a) => ParseReadsParen(a, t, i);
      case Bin(op, l, r) =>
    }
  }

  lemma FlattenBin(e: Expr)
    requires e.Bin?
    ensures var f, m := Flatten(e), |Flatten(e.l)|;
            |f| == m + 1 + |Flatten(e.r)| && f[0..m] == Flatten(e.l) && f[m] == Oper(e.op) && f[m + 1..|f|] == Flatten(e.r)
  {
  }

  /** A part of what is spelled at i. */
  lemma Part(t: seq<Token>, i: nat, f: seq<Token>, a: nat, b: nat)
    requires i + |f| <= |t| && t[i..i + |f|] == f && a < b <= |f|
    ensures t[i + a..i + b] == f[a..b] && t[i + a] == f[a]
  {
    forall x | a <= x < b
      ensures t[i + x] == f[x]
    {
      assert t[i..i + |f|][x] == t[i + x];
    }
  }

  lemma SpellsTail(t: seq<Token>, i: nat, e: Expr, a: Expr)
    requires Spells(t, i, e) && Flatten(e) == [t[i]] + Flatten(a)
    ensures Spells(t, i + 1, a)
  {
    assert Flatten(e)[1..] == Flatten(a);
    assert t[i + 1..i + 1 + |Flatten(a)|] == t[i..i + |Flatten(e)|][1..];
  }

  lemma {:induction false} ParseReadsParen(a: Expr, t: seq<Token>, i: nat)
    requires Grammatical(a) && Spells(t, i, Paren(a))
    ensures ParseUnary(t, i) == Tree(Paren(a), i + |Flatten(a)| + 2)
    decreases a, 5
  {
    var n := |Flatten(a)|;
    var f := [Open] + Flatten(a) + [Close];
    Part(t, i, f, 0, 1);
    Part(t, i, f, 1, n + 1);
    Part(t, i, f, n + 1, n + 2);
    assert f[1..n + 1] == Flatten(a);
    ParseReads(4, a, t, i + 1);
  }

  lemma {:induction false} ParseReadsLower(k: nat, e: Expr, t: seq<Token>, i: nat)
    requires 0 < k <= 4 && Grammatical(e) && LevelOf(e) < k && Spells(t, i, e)
    requires EndsAt(k - 1, t, i + |Flatten(e)|)
    ensures Parse(k, t, i) == ParseRest(k, e, t, i + |Flatten(e)|)
    decreases e, k, 0
  {
    ParseReads(k - 1, e, t, i);
  }

  lemma {:induction false} ParseReadsBin(k: nat, e: Expr, t: seq<Token>, i: nat)
    requires 0 < k <= 4 && Grammatical(e) && LevelOf(e) == k && Spells(t, i, e)
    requires EndsAt(k - 1, t, i + |Flatten(e)|)
    ensures Parse(k, t, i) == ParseRest(k, e, t, i + |Flatten(e)|)
    decreases e, k, 0
  {
    hide Flatten, Parse, ParseRest, EndsAt, Spells;
    BinSpells(t, i, e);
    var j, n := i + |Flatten(e.l)|, |Flatten(e.r)|;
    EndsBelow(k, t, j);
    ParseReads(k, e.l, t, i);
    if k > 1 {
      EndsWeaker(k - 2, k - 1, t, j + 1 + n);
      RestEnds(k - 1, e.r, t, j + 1 + n);
    }
    ParseReads(k - 1, e.r, t, j + 1);
    RestStep(k, e.l, t, j, e.r, j + 1 + n);
  }

  /** What is spelled by an operation: its operands, around its operator. */
  lemma BinSpells(t: seq<Token>, i: nat, e: Expr)
    requires e.Bin? && Spells(t, i, e)
    ensures var j := i + |Flatten(e.l)|;
            && |Flatten(e)| == |Flatten(e.l)| + 1 + |Flatten(e.r)| && i + |Flatten(e)| <= |t|
            && Spells(t, i, e.l) && t[j] == Oper(e.op) && Spells(t, j + 1, e.r)
  {
    hide Flatten;
    FlattenBin(e);
    var m, n, f := |Flatten(e.l)|, |Flatten(e.r)|, Flatten(e);
    Part(t, i, f, 0, m);
    Part(t, i, f, m, m + 1);
    Part(t, i, f, m + 1, m + 1 + n);
  }

  lemma EndsBelow(k: nat, t: seq<Token>, i: nat)
    requires k > 0 && OperatorAt(k, t, i)
    ensures EndsAt(k - 1, t, i)
  {
  }

  lemma EndsWeaker(k: nat, k': nat, t: seq<Token>, i: nat)
    requires k <= k' && EndsAt(k', t, i)
    ensures EndsAt(k, t, i)
  {
  }

  lemma RestEnds(k: nat, e: Expr, t: seq<Token>, i: nat)
    requires 1 <= k <= 4 && i <= |t| && EndsAt(k, t, i)
    ensures ParseRest(k, e, t, i) == Tree(e, i)
  {
  }

  lemma RestStep(k: nat, e: Expr, t: seq<Token>, i: nat, r: Expr, next: nat)
    requires 1 <= k <= 4 && i < |t| && OperatorAt(k, t, i) && Parse(k - 1, t, i + 1) == Tree(r, next)
    ensures ParseRest(k, e, t, i) == ParseRest(k, Bin(t[i].op, e, r), t, next)
  {
  }

  /** Parsing is the inverse of spelling: the tokens of a grammatical tree, followed by anything that is not
      an operator, parse to that tree and no more. */
  lemma ParseFlatten(e: Expr, rest: seq<Token>)
    requires Grammatical(e) && (rest == [] || !rest[0].Oper?)
    ensures Parse(4, Flatten(e) + rest, 0) == Tree(e, |Flatten(e)|)
  {
    var t, n := Flatten(e) + rest, |Flatten(e)|;
    assert t[0..n] == Flatten(e);
    assert TokenAt(t, n) == TokenAt(rest, 0);
    ParseReads(4, e, t, 0);
  }

  /** What a parse returns is grammatical, is spelled by the tokens it consumed, and stops before anything
      that could continue it. */
  lemma {:induction false} ParseIsFlat(k: nat, t: seq<Token>, i: nat)
    requires k <= 4 && Parse(k, t, i).Tree?
    ensures var p := Parse(k, t, i);
            Grammatical(p.e) && LevelOf(p.e) <= k && t[i..p.next] == Flatten(p.e) && EndsAt(k, t, p.next)
    decreases |t| - i, k, 1
  {
    hide EndsAt, Flatten;
    if k == 0 {
      UnaryIsFlat(t, i);
    } else {
      ParseIsFlat(k - 1, t, i);
      var first := Parse(k - 1, t, i);
      RestIsFlat(k, first.e, t, i, first.next);
    }
  }

  lemma NoneAtLevelZero(t: seq<Token>, i: nat)
    ensures EndsAt(0, t, i)
  {
  }

  lemma {:induction false} UnaryIsFlat(t: seq<Token>, i: nat)
    requires ParseUnary(t, i).Tree?
    ensures var p := ParseUnary(t, i);
            Grammatical(p.e) && LevelOf(p.e) == 0 && t[i..p.next] == Flatten(p.e) && EndsAt(0, t, p.next)
    decreases |t| - i, 0, 0
  {
    hide Parse, EndsAt, Grammatical, Flatten;
    NoneAtLevelZero(t, ParseUnary(t, i).next);
    var tok := TokenAt(t, i);
    if Atom(tok).Some? {
      AtomIsFlat(t, i);
    } else if tok == Open {
      ParseIsFlat(4, t, i + 1);
      var p := Parse(4, t, i + 1);
      ParenIsFlat(t, i, p.e, p.next);
    } else {
      UnaryIsFlat(t, i + 1);
      var p := ParseUnary(t, i + 1);
      PrefixIsFlat(t, i, p.e, p.next);
    }
  }

  lemma AtomIsFlat(t: seq<Token>, i: nat)
    requires i < |t| && Atom(t[i]).Some?
    ensures var e := Atom(t[i]).value; Grammatical(e) && LevelOf(e) == 0 && t[i..i + 1] == Flatten(e)
  {
  }

  lemma ParenIsFlat(t: seq<Token>, i: nat, e: Expr, next: nat)
    requires i < next < |t| && t[i] == Open && t[next] == Close && Grammatical(e) && t[i + 1..next] == Flatten(e)
    ensures Grammatical(Paren(e)) && LevelOf(Paren(e)) == 0 && t[i..next + 1] == Flatten(Paren(e))
  {
    assert t[i..next + 1] == [t[i]] + t[i + 1..next] + [t[next]];
  }

  lemma PrefixIsFlat(t: seq<Token>, i: nat, e: Expr, next: nat)
    requires i < next <= |t| && t[i] in {Oper(Add), Oper(Sub), Tilde}
    requires Grammatical(e) && LevelOf(e) == 0 && t[i + 1..next] == Flatten(e)
    ensures var r := Prefix(t[i], e); Grammatical(r) && LevelOf(r) == 0 && t[i..next] == Flatten(r)
  {
    assert t[i..next] == [t[i]] + t[i + 1..next];
  }

  lemma {:induction false} RestIsFlat(k: nat, e: Expr, t: seq<Token>, start: nat, i: nat)
    requires 1 <= k <= 4 && start <= i <= |t| && ParseRest(k, e, t, i).Tree?
    requires Grammatical(e) && LevelOf(e) <= k && t[start..i] == Flatten(e) && EndsAt(k - 1, t, i)
    ensures var p := ParseRest(k, e, t, i);
            Grammatical(p.e) && LevelOf(p.e) <= k && t[start..p.next] == Flatten(p.e) && EndsAt(k, t, p.next)
    decreases |t| - i, k, 2
  {
    if OperatorAt(k, t, i) {
      ParseIsFlat(k - 1, t, i + 1);
      var r := Parse(k - 1, t, i + 1);
      assert t[start..r.next] == t[start..i] + [t[i]] + t[i + 1..r.next];
      RestIsFlat(k, Bin(t[i].op, e, r.e), t, start, r.next);
    }
  }
}
