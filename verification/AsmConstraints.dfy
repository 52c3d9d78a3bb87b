/** The allocator itself: an array of operands and an array of register marks, updated in place. */
module AsmConstraints {
  import opened Wrappers
  import opened AsmOperands
  import opened AsmAllocation

  method FirstFreeReg(regs: array<Mask>, mask: Mask, n: nat) returns (reg: nat)
    requires n <= regs.Length
    ensures reg == FirstFree(regs[..], mask, 0, n)
  {
    reg := 0;
    while reg < n
      invariant reg <= n && FirstFree(regs[..], mask, 0, n) == FirstFree(regs[..], mask, reg, n)
    {
      if !((regs[reg].output && mask.output) || (regs[reg].input && mask.input)) {
        return;
      }
      reg := reg + 1;
    }
  }

  method AllocReg(regs: array<Mask>, reg: nat, mask: Mask) returns (home: Option<Home>)
    requires reg < regs.Length
    ensures home == if Busy(regs[..], reg, mask) then None else Some(InRegister(reg))
  {
    if (regs[reg].output && mask.output) || (regs[reg].input && mask.input) {
      home := None;
    } else {
      home := Some(InRegister(reg));
    }
  }

  /** One letter of a constraint. */
  method TryLetter(c: char, mask: Mask, isOutput: bool, value: Value, regs: array<Mask>) returns (home: Option<Home>)
    requires regs.Length == NB_ASM_REGS && LetterPriority(c).Some?
    ensures home == Offer(c, mask, isOutput, value, regs[..])
  {
    hide FirstFree;
    home := None;
    match c {
      case 'A' =>
        var a := AllocReg(regs, TREG_XAX, mask);
        var d := AllocReg(regs, TREG_XDX, mask);
        if a.Some? && d.Some? {
          home := Some(InPair);
        }
      case 'a' => home := AllocReg(regs, TREG_XAX, mask);
      case 'b' => home := AllocReg(regs, 3, mask);
      case 'c' => home := AllocReg(regs, TREG_XCX, mask);
      case 'd' => home := AllocReg(regs, TREG_XDX, mask);
      case 'S' => home := AllocReg(regs, 6, mask);
      case 'D' => home := AllocReg(regs, 7, mask);
      case 'q' =>
        var reg := FirstFreeReg(regs, mask, 4);
        if reg < 4 {
          home := Some(InRegister(reg));
        }
      case 'r' | 'R' | 'p' =>
        var reg := FirstFreeReg(regs, mask, NB_ASM_REGS);
        if reg < NB_ASM_REGS {
          home := Some(InRegister(reg));
        }
      case 'e' | 'i' =>
        if value.Constant? {
          home := Some(AsItIs);
        }
      case 'I' | 'N' | 'M' =>
        if value == Constant(false) {
          home := Some(AsItIs);
        }
      case _ =>
        home := Some(AsItIs);
        if (isOutput || c == 'm') && value.PointerInLocal? {
          var reg := FirstFreeReg(regs, IN, NB_ASM_REGS);
          home := if reg < NB_ASM_REGS then Some(ThroughRegister(reg)) else None;
        }
    }
  }

  /** The scan of operand j's constraint. */
  method ChooseHome(op: Operand, isOutput: bool, regs: array<Mask>) returns (r: Choice)
    requires regs.Length == NB_ASM_REGS
    ensures r == Choose(op.constraint, 0, FirstMask(op, isOutput), false, isOutput, op.value, regs[..])
  {
    hide Offer;
    var s, p, mask, isRw := op.constraint, 0, FirstMask(op, isOutput), false;
    while true
      invariant Choose(s, 0, FirstMask(op, isOutput), false, isOutput, op.value, regs[..])
                == Choose(s, p, mask, isRw, isOutput, op.value, regs[..])
      decreases |s| - p
    {
      var c := CharAt(s, p);
      if c == '+' || c == '&' {
        if c == '+' {
          isRw := true;
        }
        if !isOutput {
          return Misplaced;
        }
        mask := BOTH;
      } else if c != '=' {
        if LetterPriority(c).None? {
          return NoneLeft;
        }
        var home := TryLetter(c, mask, isOutput, op.value, regs);
        if home.Some? {
          return Chosen(p, home.value, mask, isRw);
        }
      }
      p := p + 1;
    }
  }

  method Mark(regs: array<Mask>, home: Home, mask: Mask)
    requires regs.Length == NB_ASM_REGS && forall r :: r in Occupied(home) ==> r < NB_ASM_REGS
    modifies regs
    ensures regs[..] == Marked(old(regs[..]), home, mask)
  {
    match home {
      case AsItIs =>
      case InRegister(reg) =>
        assert reg in Occupied(home);
        regs[reg] := With(regs[reg], mask);
      case InPair =>
        regs[TREG_XAX] := With(regs[TREG_XAX], mask);
        regs[TREG_XDX] := With(regs[TREG_XDX], mask);
      case ThroughRegister(reg) =>
        assert reg in Occupied(home);
        regs[reg] := With(regs[reg], IN);
    }
    assert regs[..] == Marked(old(regs[..]), home, mask);
  }

  /** One turn of the allocation loop. */
  method Place(ops: array<Operand>, regs: array<Mask>, j: nat, nbOutputs: nat) returns (r: Outcome<()>)
    requires j < ops.Length && regs.Length == NB_ASM_REGS
    modifies ops, regs
    ensures r.Ok? ==> Placed(State(old(ops[..]), old(regs[..])), j, nbOutputs) == Ok(State(ops[..], regs[..]))
    ensures r.Err? ==> Placed(State(old(ops[..]), old(regs[..])), j, nbOutputs) == Err(r.error)
  {
    hide Choose, Marked;
    var op := ops[j];
    if op.refIndex >= 0 {
      return Ok(());
    }
    var choice := ChooseHome(op, j < nbOutputs, regs);
    match choice {
      case Misplaced => return Err(BadModifier(j));
      case NoneLeft => return Err(Unsatisfied(j));
      case Chosen(at, home, mask, isRw) =>
        Mark(regs, home, mask);
        op := Housed(op, home, isRw);
        ops[j] := op;
        if 0 <= op.inputIndex < ops.Length {
          ops[op.inputIndex] := ops[op.inputIndex].(reg := op.reg, isLlong := op.isLlong);
        }
        return Ok(());
    }
  }

  /** Clears what the allocation will fill in. */
  method InitFields(ops: array<Operand>)
    modifies ops
    ensures ops[..] == seq(ops.Length, i requires 0 <= i < ops.Length => Cleared(old(ops[..])[i]))
  {
    for i := 0 to ops.Length
      invariant forall k :: 0 <= k < i ==> ops[k] == Cleared(old(ops[..])[k])
      invariant forall k :: i <= k < ops.Length ==> ops[k] == old(ops[..])[k]
    {
      ops[i] := ops[i].(inputIndex := -1, refIndex := -1, reg := -1, isMemory := false, isRw := false);
    }
  }

  /** References and classes. */
  method Resolve(ops: array<Operand>, i: nat, nbOutputs: nat) returns (r: Outcome<()>)
    requires i < ops.Length
    modifies ops
    ensures r.Ok? ==> Resolved(old(ops[..]), i, nbOutputs) == Ok(ops[..])
    ensures r.Err? ==> Resolved(old(ops[..]), i, nbOutputs) == Err(r.error)
  {
    hide Priority, FoundConstraint;
    var str := ops[i].constraint;
    var m := SkipConstraintModifiers(str);
    var c := CharAt(str, m);
    if IsDigit(c) || c == '[' {
      var k := FindConstraint(ops, str, m);
      if k < 0 || k >= i || i < nbOutputs {
        return Err(BadReference(i));
      }
      ops[i] := ops[i].(refIndex := k);
      if ops[k].inputIndex >= 0 {
        return Err(ReferencedTwice);
      }
      ops[k] := ops[k].(inputIndex := i);
      ops[i] := ops[i].(priority := 5);
      ghost var was := old(ops[..]);
      assert ops[..] == was[i := was[i].(refIndex := k, priority := 5)][k := was[k].(inputIndex := i)];
    } else {
      var pr := ConstraintPriority(str, m);
      if pr.None? {
        return Err(UnknownConstraint(i));
      }
      ops[i] := ops[i].(priority := pr.value);
    }
    r := Ok(());
  }

  method ResolveOperands(ops: array<Operand>, nbOutputs: nat) returns (r: Outcome<()>)
    modifies ops
    ensures r.Ok? ==> ResolvedAll(old(ops[..]), ops.Length, nbOutputs) == Ok(ops[..])
    ensures r.Err? ==> ResolvedAll(old(ops[..]), ops.Length, nbOutputs) == Err(r.error)
  {
    hide Resolved;
    ghost var was := ops[..];
    for i := 0 to ops.Length
      invariant ResolvedAll(was, i, nbOutputs) == Ok(ops[..])
    {
      r := Resolve(ops, i, nbOutputs);
      if r.Err? {
        ResolvedStops(was, i + 1, ops.Length, nbOutputs);
        return;
      }
    }
    r := Ok(());
  }

  lemma {:induction false} ResolvedStops(ops: seq<Operand>, i: nat, n: nat, nbOutputs: nat)
    requires i <= n <= |ops| && ResolvedAll(ops, i, nbOutputs).Err?
    ensures ResolvedAll(ops, n, nbOutputs) == ResolvedAll(ops, i, nbOutputs)
  {
    if i < n {
      ResolvedStops(ops, i, n - 1, nbOutputs);
    }
  }

  // Order of allocation

  function Class(ops: seq<Operand>, order: seq<nat>, a: nat): (p: int)
    requires a < |order| && order[a] < |ops|
  {
    ops[order[a]].priority
  }

  /** Everything before i is in place: no later operand has a lower class. */
  ghost predicate SortedTo(ops: seq<Operand>, order: seq<nat>, i: nat)
    requires forall k :: 0 <= k < |order| ==> order[k] < |ops|
  {
    forall a: nat, b: nat :: a < i && a < b < |order| ==> Class(ops, order, a) <= Class(ops, order, b)
  }

  /** The operands stand in the order of their classes already. */
  ghost predicate InClassOrder(ops: seq<Operand>) {
    forall a: nat, b: nat :: a < b < |ops| ==> ops[a].priority <= ops[b].priority
  }

  ghost predicate AsWritten(order: seq<nat>) {
    forall k :: 0 <= k < |order| ==> order[k] == k
  }

  function Swap(order: seq<nat>, i: nat, j: nat): (r: seq<nat>)
    requires i < |order| && j < |order|
    ensures |r| == |order|
  {
    order[i := order[j]][j := order[i]]
  }

  lemma SwapPermutes(order: seq<nat>, i: nat, j: nat)
    requires IsPermutation(order, |order|) && i < j < |order|
    ensures IsPermutation(Swap(order, i, j), |order|)
  {
    var r := Swap(order, i, j);
    forall k | 0 <= k < |order|
      ensures k in r
    {
      assert k in order;
      var a :| 0 <= a < |order| && order[a] == k;
      assert r[if a == i then j else if a == j then i else a] == k;
    }
  }

  lemma SwapKeepsSorted(ops: seq<Operand>, order: seq<nat>, i: nat, j: nat)
    requires IsPermutation(order, |ops|) && i < j < |order| && SortedTo(ops, order, i)
    ensures SortedTo(ops, Swap(order, i, j), i)
  {
    var r := Swap(order, i, j);
    forall a: nat, b: nat | a < i && a < b < |order|
      ensures Class(ops, r, a) <= Class(ops, r, b)
    {
      assert Class(ops, order, a) <= Class(ops, order, if b == i then j else if b == j then i else b);
    }
  }

  /** Brings an operand of the lowest remaining class to place i of the order. */
  method SortStep(ops: array<Operand>, order: array<nat>, i: nat)
    requires ops.Length <= order.Length && i < ops.Length
    requires IsPermutation(order[..ops.Length], ops.Length) && SortedTo(ops[..], order[..ops.Length], i)
    modifies order
    ensures IsPermutation(order[..ops.Length], ops.Length) && SortedTo(ops[..], order[..ops.Length], i + 1)
    ensures InClassOrder(ops[..]) && AsWritten(old(order[..ops.Length])) ==> AsWritten(order[..ops.Length])
  {
    hide IsPermutation, SortedTo, AsWritten, InClassOrder;
    var n := ops.Length;
    ghost var before := order[..n];
    var j := i + 1;
    PermutationRange(order[..n], n);
    while j < n
      invariant i < j <= n && IsPermutation(order[..n], n)
      invariant forall k :: 0 <= k < n ==> order[..n][k] < n
      invariant SortedTo(ops[..], order[..n], i)
      invariant InClassOrder(ops[..]) && AsWritten(before) ==> order[..n] == before
      invariant forall k :: i <= k < j ==> ops[order[i]].priority <= ops[order[k]].priority
    {
      if ops[order[j]].priority < ops[order[i]].priority {
        OutOfOrder(ops[..], order[..n], i, j);
        SwapPermutes(order[..n], i, j);
        SwapKeepsSorted(ops[..], order[..n], i, j);
        ghost var was := order[..n];
        order[i], order[j] := order[j], order[i];
        assert order[..n] == Swap(was, i, j);
        PermutationRange(order[..n], n);
      }
      j := j + 1;
    }
    SortedNext(ops[..], order[..n], i);
  }

  lemma OutOfOrder(ops: seq<Operand>, order: seq<nat>, i: nat, j: nat)
    requires i < j < |order| == |ops| && order[i] < |ops| && order[j] < |ops|
    requires ops[order[j]].priority < ops[order[i]].priority
    ensures !(InClassOrder(ops) && AsWritten(order))
  {
  }

  lemma PermutationRange(order: seq<nat>, n: nat)
    requires IsPermutation(order, n)
    ensures |order| == n && forall k :: 0 <= k < n ==> order[k] < n
  {
  }

  lemma SortedNext(ops: seq<Operand>, order: seq<nat>, i: nat)
    requires IsPermutation(order, |ops|) && i < |order| && SortedTo(ops, order, i)
    requires forall k :: i <= k < |order| ==> ops[order[i]].priority <= ops[order[k]].priority
    ensures SortedTo(ops, order, i + 1)
  {
  }

  /** Operands in the order of their classes; if they stand in that order, in their own. */
  method SortOperands(ops: array<Operand>) returns (order: array<nat>)
    requires ops.Length <= MAX_ASM_OPERANDS
    ensures fresh(order) && order.Length == MAX_ASM_OPERANDS
    ensures IsPermutation(order[..ops.Length], ops.Length) && SortedTo(ops[..], order[..ops.Length], ops.Length)
    ensures InClassOrder(ops[..]) ==> AsWritten(order[..ops.Length])
  {
    var n := ops.Length;
    order := new nat[MAX_ASM_OPERANDS];
    for i := 0 to n
      invariant forall k :: 0 <= k < i ==> order[k] == k
    {
      order[i] := i;
    }
    ghost var start := order[..n];
    forall k | 0 <= k < n
      ensures k in start
    {
      assert start[k] == k;
    }
    assert AsWritten(start);
    hide SortedTo, AsWritten, InClassOrder;
    SortedToZero(ops[..], order[..n]);
    var i := 0;
    while i < n - 1
      invariant 0 <= i <= n && IsPermutation(order[..n], n) && SortedTo(ops[..], order[..n], i)
      invariant n > 0 ==> i < n
      invariant InClassOrder(ops[..]) ==> AsWritten(order[..n])
    {
      SortStep(ops, order, i);
      i := i + 1;
    }
    SortedToEnd(ops[..], order[..n], i);
  }

  lemma SortedToZero(ops: seq<Operand>, order: seq<nat>)
    requires forall k :: 0 <= k < |order| ==> order[k] < |ops|
    ensures SortedTo(ops, order, 0)
  {
  }

  lemma SortedToEnd(ops: seq<Operand>, order: seq<nat>, i: nat)
    requires IsPermutation(order, |ops|) && SortedTo(ops, order, i) && i + 1 >= |order|
    ensures SortedTo(ops, order, |order|)
  {
  }

  // The whole allocation

  method InitRegs(clobber: seq<bool>) returns (regs: array<Mask>)
    requires |clobber| == NB_ASM_REGS
    ensures fresh(regs) && regs[..] == FreshRegs(clobber)
  {
    regs := new Mask[NB_ASM_REGS];
    for i := 0 to NB_ASM_REGS
      invariant forall k :: 0 <= k < i ==> regs[k] == if clobber[k] then BOTH else FREE
    {
      regs[i] := if clobber[i] then BOTH else FREE;
    }
    regs[4] := BOTH;
    regs[5] := BOTH;
  }

  lemma {:induction false} PlacedStops(st: State, order: seq<nat>, i: nat, n: nat, nbOutputs: nat)
    requires i <= n <= |order| && |st.regs| == NB_ASM_REGS && forall k :: 0 <= k < |order| ==> order[k] < |st.ops|
    requires PlacedAll(st, order, i, nbOutputs).Err?
    ensures PlacedAll(st, order, n, nbOutputs) == PlacedAll(st, order, i, nbOutputs)
  {
    if i < n {
      PlacedStops(st, order, i, n - 1, nbOutputs);
    }
  }

  method PlaceOperands(ops: array<Operand>, regs: array<Mask>, order: array<nat>, nbOutputs: nat)
    returns (r: Outcome<()>)
    requires ops.Length <= order.Length && regs.Length == NB_ASM_REGS
    requires forall k :: 0 <= k < ops.Length ==> order[k] < ops.Length
    modifies ops, regs
    ensures r.Ok? ==> PlacedAll(State(old(ops[..]), old(regs[..])), order[..ops.Length], ops.Length, nbOutputs)
                      == Ok(State(ops[..], regs[..]))
    ensures r.Err? ==> PlacedAll(State(old(ops[..]), old(regs[..])), order[..ops.Length], ops.Length, nbOutputs) == Err(r.error)
  {
    hide Placed;
    ghost var st, sorted := State(ops[..], regs[..]), order[..ops.Length];
    for i := 0 to ops.Length
      invariant order[..ops.Length] == sorted
      invariant PlacedAll(st, sorted, i, nbOutputs) == Ok(State(ops[..], regs[..]))
    {
      r := Place(ops, regs, order[i], nbOutputs);
      if r.Err? {
        PlacedStops(st, sorted, i + 1, ops.Length, nbOutputs);
        return;
      }
    }
    r := Ok(());
  }

  /** The register for storing outputs through pointers. */
  method FindOutReg(ops: array<Operand>, regs: array<Mask>) returns (r: Outcome<int>)
    requires regs.Length == NB_ASM_REGS
    ensures r == OutReg(State(ops[..], regs[..]))
  {
    for i := 0 to ops.Length
      invariant forall k :: 0 <= k < i ==> !NeedsOutReg(ops[k])
    {
      if ops[i].reg >= 0 && ops[i].value.PointerInLocal? && !ops[i].isMemory {
        assert NeedsOutReg(ops[..][i]);
        var reg := FirstFreeReg(regs, OUT, NB_ASM_REGS);
        return if reg < NB_ASM_REGS then Ok(reg) else Err(NoOutputRegister);
      }
    }
    r := Ok(-1);
  }

  /** The outcome for this order: the operands as they are left, and the register for outputs. */
  function Computed(ops: seq<Operand>, order: seq<nat>, nbOutputs: nat, clobber: seq<bool>): (r: Outcome<(seq<Operand>, int)>)
    requires |clobber| == NB_ASM_REGS && |order| == |ops| && forall k :: 0 <= k < |order| ==> order[k] < |ops|
  {
    var st := Allocated(ops, order, nbOutputs, clobber);
    if st.Err? then Err(st.error)
    else
      var reg := OutReg(st.value);
      if reg.Err? then Err(reg.error) else Ok((st.value.ops, reg.value))
  }

  method AsmComputeConstraints(ops: array<Operand>, nbOutputs: nat, clobber: seq<bool>)
    returns (outReg: Outcome<int>, ghost order: seq<nat>)
    requires ops.Length <= MAX_ASM_OPERANDS && |clobber| == NB_ASM_REGS
    modifies ops
    ensures IsPermutation(order, ops.Length)
    ensures outReg.Ok? ==> Computed(old(ops[..]), order, nbOutputs, clobber) == Ok((ops[..], outReg.value))
    ensures outReg.Err? ==> Computed(old(ops[..]), order, nbOutputs, clobber) == Err(outReg.error)
    ensures Prepared(old(ops[..]), nbOutputs).Ok? ==> SortedTo(Prepared(old(ops[..]), nbOutputs).value, order, ops.Length)
    ensures var p := Prepared(old(ops[..]), nbOutputs); p.Ok? && InClassOrder(p.value) ==> AsWritten(order)
  {
    hide InClassOrder, AsWritten, PlacedAll, ResolvedAll, IsPermutation, SortedTo;
    ghost var was := ops[..];
    InitFields(ops);
    var resolved := ResolveOperands(ops, nbOutputs);
    var sorted := SortOperands(ops);
    order := sorted[..ops.Length];
    PermutationRange(order, ops.Length);
    if resolved.Err? {
      return Err(resolved.error), order;
    }
    var regs := InitRegs(clobber);
    assert Prepared(was, nbOutputs) == Ok(ops[..]);
    ghost var prepared := ops[..];
    var placed := PlaceOperands(ops, regs, sorted, nbOutputs);
    if placed.Err? {
      return Err(placed.error), order;
    }
    outReg := FindOutReg(ops, regs);
  }
}
