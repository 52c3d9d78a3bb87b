/** The expression evaluator: six mutually recursive levels over the current token, each folding operators
    into the value read so far. */
module AsmParser {
  import opened Bytes
  import opened Wrappers
  import opened AsmExpr
  import opened AsmValue

  /** An error in the operand read so far is the error of every tree that starts with it. */
  lemma {:induction false} ErrorsStay(ctx: Context, k: nat, e: Expr, t: seq<Token>, i: nat)
    requires 1 <= k <= 4 && i <= |t| && ParseRest(k, e, t, i).Tree? && Eval(ctx, e).Err?
    ensures Eval(ctx, ParseRest(k, e, t, i).e) == Eval(ctx, e)
    decreases |t| - i
  {
    if OperatorAt(k, t, i) {
      var r := Parse(k - 1, t, i + 1);
      assert Eval(ctx, Bin(t[i].op, e, r.e)) == Eval(ctx, e);
      ErrorsStay(ctx, k, Bin(t[i].op, e, r.e), t, r.next);
    }
  }

  /** The outcome r, with the next token at `next`, is that of evaluating the tree parsed at level k from
      `start`: its value, or its first error, or some error if there is no tree. */
  ghost predicate Reads(ctx: Context, t: seq<Token>, k: nat, start: nat, r: Outcome<Value>, next: nat)
    requires k <= 4
  {
    match Parse(k, t, start)
    case Tree(e, end) => r == Eval(ctx, e) && (r.Ok? ==> next == end)
    case Fail => r.Err?
  }

  /** A success consumes tokens. */
  predicate Advances<T>(t: seq<Token>, start: nat, r: Outcome<T>, next: nat) {
    start <= next && (r.Ok? ==> start < next <= |t|)
  }

  /** Within a level: acc is the tree read so far, a its value, and the rest is still to be parsed. */
  ghost predicate Folding(ctx: Context, t: seq<Token>, k: nat, start: nat, acc: Expr, a: Value, i: nat)
    requires 1 <= k <= 4
  {
    start < i <= |t| && Eval(ctx, acc) == Ok(a) && Parse(k, t, start) == ParseRest(k, acc, t, i)
  }

  /** The first operand of a level. */
  lemma FirstOperand(ctx: Context, t: seq<Token>, k: nat, start: nat, r: Outcome<Value>, next: nat) returns (acc: Expr)
    requires 1 <= k <= 4 && Reads(ctx, t, k - 1, start, r, next) && Advances(t, start, r, next)
    ensures r.Ok? ==> Folding(ctx, t, k, start, acc, r.value, next)
    ensures r.Err? ==> Reads(ctx, t, k, start, r, next)
  {
    hide Eval;
    var p := Parse(k - 1, t, start);
    acc := if p.Tree? then p.e else Here;
    if r.Err? && Parse(k, t, start).Tree? {
      ErrorsStay(ctx, k, p.e, t, p.next);
    }
  }

  /** One more operator and operand. */
  lemma NextOperand(ctx: Context, t: seq<Token>, k: nat, start: nat, acc: Expr, a: Value, i: nat, b: Outcome<Value>,
                    next: nat)
    returns (acc': Expr)
    requires 1 <= k <= 4 && Folding(ctx, t, k, start, acc, a, i) && OperatorAt(k, t, i)
    requires Reads(ctx, t, k - 1, i + 1, b, next) && Advances(t, i + 1, b, next)
    ensures b.Err? ==> Reads(ctx, t, k, start, b, next)
    ensures b.Ok? && Apply(ctx, t[i].op, a, b.value).Ok? ==>
              Folding(ctx, t, k, start, acc', Apply(ctx, t[i].op, a, b.value).value, next)
    ensures b.Ok? && Apply(ctx, t[i].op, a, b.value).Err? ==>
              Reads(ctx, t, k, start, Apply(ctx, t[i].op, a, b.value), next)
  {
    hide Apply;
    var p := Parse(k - 1, t, i + 1);
    acc' := if p.Tree? then Bin(t[i].op, acc, p.e) else acc;
    if p.Tree? && Eval(ctx, acc').Err? && Parse(k, t, start).Tree? {
      ErrorsStay(ctx, k, acc', t, p.next);
    }
  }

  lemma LastOperand(ctx: Context, t: seq<Token>, k: nat, start: nat, acc: Expr, a: Value, i: nat)
    requires 1 <= k <= 4 && Folding(ctx, t, k, start, acc, a, i) && !OperatorAt(k, t, i)
    ensures Reads(ctx, t, k, start, Ok(a), i)
  {
    hide Eval;
  }

  lemma AtomReads(ctx: Context, t: seq<Token>, start: nat)
    requires Atom(TokenAt(t, start)).Some?
    ensures Reads(ctx, t, 0, start, Eval(ctx, Atom(t[start]).value), start + 1)
  {
  }

  /** A sign or complement, applied to the outcome of its operand. */
  function Signing(k: Token, r: Outcome<Value>): (v: Outcome<Value>) {
    if k == Oper(Add) then r else Negated(r, k == Oper(Sub))
  }

  lemma PrefixReads(ctx: Context, t: seq<Token>, start: nat, r: Outcome<Value>, next: nat)
    requires TokenAt(t, start) in {Oper(Add), Oper(Sub), Tilde} && Reads(ctx, t, 0, start + 1, r, next)
    ensures Reads(ctx, t, 0, start, Signing(t[start], r), next)
  {
    assert Parse(0, t, start + 1) == ParseUnary(t, start + 1);
    assert Parse(0, t, start) == ParseUnary(t, start);
  }

  lemma ParenReads(ctx: Context, t: seq<Token>, start: nat, r: Outcome<Value>, next: nat)
    requires TokenAt(t, start) == Open && Reads(ctx, t, 4, start + 1, r, next)
    ensures r.Err? ==> Reads(ctx, t, 0, start, r, next)
    ensures r.Ok? ==> if TokenAt(t, next) == Close then Reads(ctx, t, 0, start, r, next + 1)
                      else Reads(ctx, t, 0, start, Err(BadSyntax), next)
  {
    assert Parse(0, t, start) == ParseUnary(t, start);
    var p := Parse(4, t, start + 1);
    if p.Tree? {
      assert Eval(ctx, Paren(p.e)) == Eval(ctx, p.e);
    }
  }

  lemma OtherReads(ctx: Context, t: seq<Token>, start: nat, next: nat)
    requires Atom(TokenAt(t, start)).None? && TokenAt(t, start) != Open
    requires TokenAt(t, start) !in {Oper(Add), Oper(Sub), Tilde}
    ensures Reads(ctx, t, 0, start, Err(BadSyntax), next)
  {
    assert Parse(0, t, start) == ParseUnary(t, start);
  }

  /** Products: numbers only, unsigned. */
  method FoldProd(ctx: Context, op: Op, pe: Value, e2: Value) returns (r: Outcome<Value>)
    requires LevelOfOp(op) == 1
    ensures r == Apply(ctx, op, pe, e2)
  {
    if pe.sym.Some? || e2.sym.Some? {
      return Err(InvalidWithLabel);
    }
    if (op == Div || op == Mod) && e2.v == 0 {
      return Err(DivisionByZero);
    }
    if (op == Shl || op == Shr) && e2.v >= 64 {
      return Err(ShiftOutOfRange);
    }
    var v :=
      if op == Mul then Low64(pe.v * e2.v)
      else if op == Div then Quotient(pe.v, e2.v)
      else if op == Mod then Remainder(pe.v, e2.v)
      else if op == Shl then Low64(pe.v * Pow2(e2.v))
      else Quotient(pe.v, Pow2(e2.v));
    r := Ok(Value(v, None, pe.pcrel));
  }

  method FoldLogic(ctx: Context, op: Op, pe: Value, e2: Value) returns (r: Outcome<Value>)
    requires LevelOfOp(op) == 2
    ensures r == Apply(ctx, op, pe, e2)
  {
    if pe.sym.Some? || e2.sym.Some? {
      return Err(InvalidWithLabel);
    }
    r := Ok(Value(BitwiseWord(op, pe.v, e2.v), None, pe.pcrel));
  }

  /** Sums: at most one symbol survives, and subtracting a symbol of the current section makes the rest relative
      to the section. */
  method FoldSum(ctx: Context, op: Op, pe: Value, e2: Value) returns (r: Outcome<Value>)
    requires LevelOfOp(op) == 3
    ensures r == Apply(ctx, op, pe, e2)
  {
    hide Low64, ToInt;
    if op == Add {
      if pe.sym.Some? && e2.sym.Some? {
        return Err(InvalidWithLabel);
      }
      r := Ok(Value(Low64(pe.v + e2.v), if pe.sym.None? && e2.sym.Some? then e2.sym else pe.sym, pe.pcrel));
    } else {
      var v := Low64(pe.v as int - e2.v as int);
      if e2.sym.None? {
        r := Ok(Value(v, pe.sym, pe.pcrel));
      } else if pe.sym == e2.sym {
        r := Ok(Value(v, None, pe.pcrel));
      } else {
        var esym1, esym2 := if pe.sym.Some? then ctx.table(pe.sym.value) else NoEntry, ctx.table(e2.sym.value);
        if esym2.NoEntry? {
          r := Err(InvalidWithLabel);
        } else if esym1.Entry? && esym1.shndx == esym2.shndx && esym1.shndx != SHN_UNDEF {
          r := Ok(Value(Low64(v + ToInt(esym1.value as int - esym2.value as int)), None, pe.pcrel));
        } else if esym2.shndx == ctx.section {
          r := Ok(Value(Low64(v + ToInt(-(esym2.value as int))), pe.sym, true));
        } else {
          r := Err(InvalidWithLabel);
        }
      }
    }
  }

  /** Comparisons: signed, except for equality; true is all ones. */
  method FoldCmp(ctx: Context, op: Op, pe: Value, e2: Value) returns (r: Outcome<Value>)
    requires LevelOfOp(op) == 4
    ensures r == Apply(ctx, op, pe, e2)
  {
    if pe.sym.Some? || e2.sym.Some? {
      return Err(InvalidWithLabel);
    }
    var holds :=
      if op == Eq then pe.v == e2.v
      else if op == Ne then pe.v != e2.v
      else if op == Lt then Signed64(pe.v) < Signed64(e2.v)
      else if op == Ge then Signed64(pe.v) >= Signed64(e2.v)
      else if op == Le then Signed64(pe.v) <= Signed64(e2.v)
      else Signed64(pe.v) > Signed64(e2.v);
    var v := if holds then 1 else 0;
    r := Ok(Value(Low64(-v), None, pe.pcrel));
  }

  /** Every successful evaluation: the tokens consumed spell one grammatical expression, and the value found,
      with the address of its symbol, is what that expression denotes wherever sections are placed. */
  lemma ResultIsPlacementIndependent(ctx: Context, t: seq<Token>, start: nat, val: Value, next: nat) returns (e: Expr)
    requires Reads(ctx, t, 4, start, Ok(val), next) && start <= next <= |t|
    ensures Grammatical(e) && t[start..next] == Flatten(e) && EndsAt(4, t, next)
    ensures Faithful(ctx, e) ==> forall p :: Located(ctx, p, val) == Denoted(ctx, p, e)
  {
    hide Eval, Flatten, Faithful, Denoted, Located;
    e := Parse(4, t, start).e;
    ParseIsFlat(4, t, start);
    if Faithful(ctx, e) {
      forall p
        ensures Located(ctx, p, val) == Denoted(ctx, p, e)
      {
        EvalIsPlacementIndependent(ctx, p, e);
      }
    }
  }

  class Assembler {
    const toks: seq<Token>
    const ctx: Context
    /** The current token. */
    var pos: nat

    constructor (toks: seq<Token>, ctx: Context)
      ensures this.toks == toks && this.ctx == ctx && pos == 0
    {
      this.toks := toks;
      this.ctx := ctx;
      pos := 0;
    }

    /** A number, a label, or a name: the value of an absolute one, or else the symbol itself. */
    method AsmExprAtom(tok: Token) returns (r: Outcome<Value>)
      requires Atom(tok).Some?
      ensures r == Eval(ctx, Atom(tok).value)
    {
      if tok.Number? {
        r := Ok(Value(tok.n, None, false));
      } else if tok.LocalLabel? {
        r := Ok(Value(0, Some(tok.sym), false));
      } else if tok.Name? {
        var esym := ctx.table(tok.sym);
        if esym.Entry? && esym.shndx == SHN_ABS {
          r := Ok(Value(esym.value, None, false));
        } else {
          r := Ok(Value(0, Some(tok.sym), false));
        }
      } else {
        r := Ok(Value(ctx.ind, Some(ctx.here), false));
      }
    }

    method AsmExprUnary() returns (r: Outcome<Value>)
      modifies this`pos
      ensures Reads(ctx, toks, 0, old(pos), r, pos) && Advances(toks, old(pos), r, pos)
      decreases |toks| - pos, 0
    {
      hide Reads, Eval;
      ghost var start := pos;
      var tok := TokenAt(toks, pos);
      match tok {
        case Number(_) | LocalLabel(_) | Name(_) | Dot =>
          r := AsmExprAtom(tok);
          AtomReads(ctx, toks, start);
          pos := pos + 1;
        case Oper(Add) =>
          pos := pos + 1;
          r := AsmExprUnary();
          PrefixReads(ctx, toks, start, r, pos);
        case Oper(Sub) =>
          pos := pos + 1;
          r := AsmExprUnary();
          PrefixReads(ctx, toks, start, r, pos);
          if r.Ok? {
            r := if r.value.sym.Some? then Err(InvalidWithLabel) else Ok(r.value.(v := Low64(-(r.value.v as int))));
          }
        case Tilde =>
          pos := pos + 1;
          r := AsmExprUnary();
          PrefixReads(ctx, toks, start, r, pos);
          if r.Ok? {
            r := if r.value.sym.Some? then Err(InvalidWithLabel) else Ok(r.value.(v := Complement(r.value.v)));
          }
        case Open =>
          pos := pos + 1;
          r := AsmExpr();
          ParenReads(ctx, toks, start, r, pos);
          if r.Ok? {
            if TokenAt(toks, pos) != Close {
              return Err(BadSyntax);
            }
            pos := pos + 1;
          }
        case _ =>
          OtherReads(ctx, toks, start, pos);
          r := Err(BadSyntax);
      }
    }

    method AsmExprProd() returns (r: Outcome<Value>)
      modifies this`pos
      ensures Reads(ctx, toks, 1, old(pos), r, pos) && Advances(toks, old(pos), r, pos)
      decreases |toks| - pos, 1
    {
      hide Reads, Folding, Apply;
      ghost var start := pos;
      r := AsmExprUnary();
      ghost var acc := FirstOperand(ctx, toks, 1, start, r, pos);
      if r.Err? {
        return;
      }
      while OperatorAt(1, toks, pos)
        invariant start < pos <= |toks|
        invariant r.Ok? && Folding(ctx, toks, 1, start, acc, r.value, pos)
        decreases |toks| - pos
      {
        var op := toks[pos].op;
        ghost var i, a := pos, r.value;
        pos := pos + 1;
        var e2 := AsmExprUnary();
        acc := NextOperand(ctx, toks, 1, start, acc, a, i, e2, pos);
        if e2.Err? {
          return e2;
        }
        r := FoldProd(ctx, op, r.value, e2.value);
        if r.Err? {
          return;
        }
      }
      LastOperand(ctx, toks, 1, start, acc, r.value, pos);
    }

    method AsmExprLogic() returns (r: Outcome<Value>)
      modifies this`pos
      ensures Reads(ctx, toks, 2, old(pos), r, pos) && Advances(toks, old(pos), r, pos)
      decreases |toks| - pos, 2
    {
      hide Reads, Folding, Apply;
      ghost var start := pos;
      r := AsmExprProd();
      ghost var acc := FirstOperand(ctx, toks, 2, start, r, pos);
      if r.Err? {
        return;
      }
      while OperatorAt(2, toks, pos)
        invariant start < pos <= |toks|
        invariant r.Ok? && Folding(ctx, toks, 2, start, acc, r.value, pos)
        decreases |toks| - pos
      {
        var op := toks[pos].op;
        ghost var i, a := pos, r.value;
        pos := pos + 1;
        var e2 := AsmExprProd();
        acc := NextOperand(ctx, toks, 2, start, acc, a, i, e2, pos);
        if e2.Err? {
          return e2;
        }
        r := FoldLogic(ctx, op, r.value, e2.value);
        if r.Err? {
          return;
        }
      }
      LastOperand(ctx, toks, 2, start, acc, r.value, pos);
    }

    method AsmExprSum() returns (r: Outcome<Value>)
      modifies this`pos
      ensures Reads(ctx, toks, 3, old(pos), r, pos) && Advances(toks, old(pos), r, pos)
      decreases |toks| - pos, 3
    {
      hide Reads, Folding, Apply;
      ghost var start := pos;
      r := AsmExprLogic();
      ghost var acc := FirstOperand(ctx, toks, 3, start, r, pos);
      if r.Err? {
        return;
      }
      while OperatorAt(3, toks, pos)
        invariant start < pos <= |toks|
        invariant r.Ok? && Folding(ctx, toks, 3, start, acc, r.value, pos)
        decreases |toks| - pos
      {
        var op := toks[pos].op;
        ghost var i, a := pos, r.value;
        pos := pos + 1;
        var e2 := AsmExprLogic();
        acc := NextOperand(ctx, toks, 3, start, acc, a, i, e2, pos);
        if e2.Err? {
          return e2;
        }
        r := FoldSum(ctx, op, r.value, e2.value);
        if r.Err? {
          return;
        }
      }
      LastOperand(ctx, toks, 3, start, acc, r.value, pos);
    }

    method AsmExprCmp() returns (r: Outcome<Value>)
      modifies this`pos
      ensures Reads(ctx, toks, 4, old(pos), r, pos) && Advances(toks, old(pos), r, pos)
      decreases |toks| - pos, 4
    {
      hide Reads, Folding, Apply;
      ghost var start := pos;
      r := AsmExprSum();
      ghost var acc := FirstOperand(ctx, toks, 4, start, r, pos);
      if r.Err? {
        return;
      }
      while OperatorAt(4, toks, pos)
        invariant start < pos <= |toks|
        invariant r.Ok? && Folding(ctx, toks, 4, start, acc, r.value, pos)
        decreases |toks| - pos
      {
        var op := toks[pos].op;
        ghost var i, a := pos, r.value;
        pos := pos + 1;
        var e2 := AsmExprSum();
        acc := NextOperand(ctx, toks, 4, start, acc, a, i, e2, pos);
        if e2.Err? {
          return e2;
        }
        r := FoldCmp(ctx, op, r.value, e2.value);
        if r.Err? {
          return;
        }
      }
      LastOperand(ctx, toks, 4, start, acc, r.value, pos);
    }

    method AsmExpr() returns (r: Outcome<Value>)
      modifies this`pos
      ensures Reads(ctx, toks, 4, old(pos), r, pos) && Advances(toks, old(pos), r, pos)
      decreases |toks| - pos, 5
    {
      r := AsmExprCmp();
    }
  }
}
