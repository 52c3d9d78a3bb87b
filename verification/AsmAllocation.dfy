/** What the allocation of registers to inline-assembly operands guarantees, whatever the constraints. */
module AsmAllocation {
  import opened Wrappers
  import opened AsmOperands

  // What the allocation achieves

  predicate Reserved(clobber: seq<bool>, r: nat)
    requires r < |clobber|
  {
    clobber[r] || r == 4 || r == 5
  }

  /** The registers an operand ends up holding. */
  function Held(op: Operand): (rs: set<nat>) {
    if op.reg < 0 then {} else if op.isLlong && !op.isMemory then {TREG_XAX, TREG_XDX} else {op.reg}
  }

  /** Whether operand j holds its registers while the inputs are loaded. */
  predicate OnInput(op: Operand, j: nat, nbOutputs: nat) {
    op.isMemory || op.inputIndex >= 0 || IsEarly(op.constraint, 0) || j >= nbOutputs
  }

  /** Whether operand j holds its registers while the outputs are stored. */
  predicate OnOutput(op: Operand, j: nat, nbOutputs: nat) {
    !op.isMemory && (op.inputIndex >= 0 || IsEarly(op.constraint, 0) || j < nbOutputs)
  }

  /** The registers of operand j are none of the reserved ones, and are marked on the sides it holds them. */
  ghost predicate Seats(st: State, j: nat, nbOutputs: nat, clobber: seq<bool>)
    requires j < |st.ops| && |st.regs| == NB_ASM_REGS == |clobber|
  {
    forall r :: r in Held(st.ops[j]) ==>
      && r < NB_ASM_REGS && !Reserved(clobber, r)
      && (OnInput(st.ops[j], j, nbOutputs) ==> st.regs[r].input)
      && (OnOutput(st.ops[j], j, nbOutputs) ==> st.regs[r].output)
  }

  /** No register is held by both operands on the same side. */
  ghost predicate Apart(a: Operand, i: nat, b: Operand, j: nat, nbOutputs: nat) {
    forall r :: r in Held(a) && r in Held(b) ==>
      && !(OnInput(a, i, nbOutputs) && OnInput(b, j, nbOutputs))
      && !(OnOutput(a, i, nbOutputs) && OnOutput(b, j, nbOutputs))
  }

  /** A tied operand has the register of the operand it refers to, once that has been placed; it has none if
      that one is itself tied. */
  ghost predicate Follows(ops: seq<Operand>, done: set<nat>, i: nat)
    requires i < |ops| && 0 <= ops[i].refIndex < |ops|
  {
    var k := ops[i].refIndex;
    !ops[i].isMemory && ops[i].reg == (if k in done && ops[k].refIndex < 0 then ops[k].reg else -1)
  }

  /** The constraint of an untied operand consists of modifiers and known letters. */
  ghost predicate Readable(op: Operand) {
    op.refIndex < 0 ==> Priority(op.constraint, ModifiersEnd(op.constraint, 0)).Some?
  }

  ghost predicate PlacedSoFar(st: State, done: set<nat>, nbOutputs: nat, clobber: seq<bool>, j: nat)
    requires j < |st.ops| && |st.regs| == NB_ASM_REGS == |clobber| && Tied(st.ops)
  {
    if st.ops[j].refIndex >= 0 then Follows(st.ops, done, j)
    else if j in done then Seats(st, j, nbOutputs, clobber)
    else st.ops[j].reg == -1 && !st.ops[j].isMemory && !st.ops[j].isRw
  }

  /** Operand j is in `done` and has registers of its own. */
  predicate Owner(ops: seq<Operand>, done: set<nat>, j: nat) {
    j < |ops| && j in done && ops[j].refIndex < 0
  }

  /** What holds when the operands in `done` have been placed. */
  ghost predicate Fair(st: State, done: set<nat>, nbOutputs: nat, clobber: seq<bool>) {
    && |st.regs| == NB_ASM_REGS == |clobber| && Tied(st.ops)
    && (forall r :: 0 <= r < NB_ASM_REGS && Reserved(clobber, r) ==> st.regs[r] == BOTH)
    && (forall j {:trigger st.ops[j]} :: 0 <= j < |st.ops| ==> Readable(st.ops[j]) && PlacedSoFar(st, done, nbOutputs, clobber, j))
    && (forall i: nat, j: nat :: Owner(st.ops, done, i) && Owner(st.ops, done, j) && i != j ==>
          Apart(st.ops[i], i, st.ops[j], j, nbOutputs))
  }

  /** Placing an operand leaves everything that was said about it beforehand. */
  predicate SameRequest(a: Operand, b: Operand) {
    a.id == b.id && a.constraint == b.constraint && a.value == b.value && a.refIndex == b.refIndex
    && a.inputIndex == b.inputIndex && a.priority == b.priority
  }

  /** What Seated does to the operands. */
  ghost predicate SeatedFrom(ops: seq<Operand>, r: seq<Operand>, j: nat, home: Home, isRw: bool)
    requires j < |ops|
  {
    var t := ops[j].inputIndex;
    && |r| == |ops| && r[j] == Housed(ops[j], home, isRw)
    && (forall k :: 0 <= k < |ops| && k != j && k != t ==> r[k] == ops[k])
    && (t >= 0 ==> j < t < |ops| && r[t] == ops[t].(reg := r[j].reg, isLlong := r[j].isLlong))
    && (forall k :: 0 <= k < |ops| ==> SameRequest(r[k], ops[k]))
  }

  lemma SeatedShape(ops: seq<Operand>, j: nat, home: Home, isRw: bool)
    requires j < |ops| && Tied(ops)
    ensures SeatedFrom(ops, Seated(ops, j, home, isRw), j, home, isRw)
  {
    assert Referred(ops, j);
  }

  lemma TiedBySameRequests(a: seq<Operand>, b: seq<Operand>)
    requires |a| == |b| && Tied(a) && forall k :: 0 <= k < |a| ==> SameRequest(b[k], a[k])
    ensures Tied(b)
  {
    forall i | 0 <= i < |b|
      ensures Refers(b, i) && Referred(b, i)
    {
      assert Refers(a, i) && Referred(a, i);
      assert SameRequest(b[i], a[i]);
      if a[i].refIndex >= 0 {
        assert SameRequest(b[a[i].refIndex], a[a[i].refIndex]);
      }
      if a[i].inputIndex >= 0 {
        assert SameRequest(b[a[i].inputIndex], a[a[i].inputIndex]);
      }
    }
  }

  /** A freshly housed operand holds what its home occupies, on the sides the mask says. */
  lemma HousedHolds(op: Operand, j: nat, nbOutputs: nat, home: Home, isRw: bool)
    requires op.reg == -1 && !op.isMemory && (IsEarly(op.constraint, 0) ==> j < nbOutputs)
    ensures var r := Housed(op, home, isRw);
            var m := SidesOf(home, if IsEarly(op.constraint, 0) then BOTH else FirstMask(op, j < nbOutputs));
            && Held(r) == Occupied(home)
            && (Held(r) != {} ==> OnInput(r, j, nbOutputs) == m.input && OnOutput(r, j, nbOutputs) == m.output)
  {
    hide IsEarly;
  }

  /** The registers the operand now holds were free, on the sides it holds them. */
  ghost predicate WasFree(op: Operand, j: nat, nbOutputs: nat, regs: seq<Mask>)
    requires |regs| == NB_ASM_REGS
  {
    forall r :: r in Held(op) ==>
      && r < NB_ASM_REGS
      && (OnInput(op, j, nbOutputs) ==> !regs[r].input)
      && (OnOutput(op, j, nbOutputs) ==> !regs[r].output)
  }

  lemma NewSeat(st: State, j: nat, nbOutputs: nat, clobber: seq<bool>, home: Home, mask: Mask, isRw: bool)
    requires j < |st.ops| && |st.regs| == NB_ASM_REGS == |clobber|
    requires forall r :: 0 <= r < NB_ASM_REGS && Reserved(clobber, r) ==> st.regs[r] == BOTH
    requires st.ops[j].reg == -1 && !st.ops[j].isMemory && (IsEarly(st.ops[j].constraint, 0) ==> j < nbOutputs)
    requires mask == if IsEarly(st.ops[j].constraint, 0) then BOTH else FirstMask(st.ops[j], j < nbOutputs)
    requires forall k :: k in Occupied(home) ==> k < NB_ASM_REGS && !Busy(st.regs, k, SidesOf(home, mask))
    ensures Seats(State(st.ops[j := Housed(st.ops[j], home, isRw)], Marked(st.regs, home, mask)), j, nbOutputs, clobber)
    ensures WasFree(Housed(st.ops[j], home, isRw), j, nbOutputs, st.regs)
  {
    hide IsEarly, Occupied, Housed, OnInput, OnOutput, Held;
    HousedHolds(st.ops[j], j, nbOutputs, home, isRw);
  }

  /** Marks only grow, so an operand that is not touched keeps its seat. */
  lemma OldSeat(st: State, st': State, i: nat, nbOutputs: nat, clobber: seq<bool>, home: Home, mask: Mask)
    requires i < |st.ops| == |st'.ops| && |st.regs| == NB_ASM_REGS == |clobber|
    requires forall r :: r in Occupied(home) ==> r < NB_ASM_REGS
    requires st'.regs == Marked(st.regs, home, mask) && st'.ops[i] == st.ops[i] && Seats(st, i, nbOutputs, clobber)
    ensures Seats(st', i, nbOutputs, clobber)
  {
    hide OnInput, OnOutput, Held, Occupied;
  }

  lemma ApartFromOld(st: State, i: nat, op: Operand, j: nat, nbOutputs: nat, clobber: seq<bool>)
    requires i < |st.ops| && |st.regs| == NB_ASM_REGS == |clobber|
    requires Seats(st, i, nbOutputs, clobber) && WasFree(op, j, nbOutputs, st.regs)
    ensures Apart(st.ops[i], i, op, j, nbOutputs) && Apart(op, j, st.ops[i], i, nbOutputs)
  {
    hide OnInput, OnOutput, Held;
  }

  /** Placing a tied operand changes nothing. */
  lemma PlacedTied(st: State, done: set<nat>, j: nat, nbOutputs: nat, clobber: seq<bool>)
    requires Fair(st, done, nbOutputs, clobber) && j < |st.ops| && st.ops[j].refIndex >= 0
    ensures Fair(st, done + {j}, nbOutputs, clobber)
  {
    hide Readable, Seats, Apart;
    var all := done + {j};
    forall i | 0 <= i < |st.ops|
      ensures Readable(st.ops[i]) && PlacedSoFar(st, all, nbOutputs, clobber, i)
    {
      assert Refers(st.ops, i) && PlacedSoFar(st, done, nbOutputs, clobber, i);
    }
    forall i: nat, k: nat | Owner(st.ops, all, i) && Owner(st.ops, all, k) && i != k
      ensures Apart(st.ops[i], i, st.ops[k], k, nbOutputs)
    {
      assert Owner(st.ops, done, i) && Owner(st.ops, done, k);
    }
  }

  /** The operands other than the one placed: seated, tied or waiting as before. */
  lemma PlacedOther(st: State, st': State, done: set<nat>, j: nat, nbOutputs: nat, clobber: seq<bool>,
                    home: Home, mask: Mask, isRw: bool, i: nat)
    requires Fair(st, done, nbOutputs, clobber) && j < |st.ops| && st.ops[j].refIndex < 0
    requires SeatedFrom(st.ops, st'.ops, j, home, isRw) && Tied(st'.ops) && i < |st.ops| && i != j
    requires forall r :: r in Occupied(home) ==> r < NB_ASM_REGS
    requires st'.regs == Marked(st.regs, home, mask)
    ensures Readable(st'.ops[i]) && PlacedSoFar(st', done + {j}, nbOutputs, clobber, i)
  {
    hide Seats, Housed, Occupied, Apart, Priority, Marked;
    var op := st.ops[i];
    assert Readable(op) && PlacedSoFar(st, done, nbOutputs, clobber, i) && Refers(st.ops, i);
    assert SameRequest(st'.ops[i], op) && SameRequest(st'.ops[j], st.ops[j]) && Referred(st.ops, j);
    if op.refIndex >= 0 {
      var k := op.refIndex;
      assert SameRequest(st'.ops[k], st.ops[k]);
      if k != j {
        assert st.ops[j].inputIndex != i;
        if st.ops[k].refIndex < 0 {
          assert st.ops[j].inputIndex != k;
        }
      }
    } else {
      assert st'.ops[i] == op;
      if i in done {
        OldSeat(st, st', i, nbOutputs, clobber, home, mask);
      }
    }
  }

  lemma OwnersStayApart(st: State, st': State, done: set<nat>, j: nat, nbOutputs: nat, clobber: seq<bool>,
                        home: Home, isRw: bool, i: nat, k: nat)
    requires Fair(st, done, nbOutputs, clobber) && j < |st.ops| && j !in done && st.ops[j].refIndex < 0
    requires SeatedFrom(st.ops, st'.ops, j, home, isRw)
    requires WasFree(st'.ops[j], j, nbOutputs, st.regs)
    requires Owner(st'.ops, done + {j}, i) && Owner(st'.ops, done + {j}, k) && i != k
    ensures Apart(st'.ops[i], i, st'.ops[k], k, nbOutputs)
  {
    hide Seats, Housed, Apart, WasFree, Readable;
    assert SameRequest(st'.ops[i], st.ops[i]) && SameRequest(st'.ops[k], st.ops[k]) && Referred(st.ops, j);
    assert i != j ==> st'.ops[i] == st.ops[i] && Owner(st.ops, done, i) && PlacedSoFar(st, done, nbOutputs, clobber, i);
    assert k != j ==> st'.ops[k] == st.ops[k] && Owner(st.ops, done, k) && PlacedSoFar(st, done, nbOutputs, clobber, k);
    if i == j {
      ApartFromOld(st, k, st'.ops[j], j, nbOutputs, clobber);
    } else if k == j {
      ApartFromOld(st, i, st'.ops[j], j, nbOutputs, clobber);
    }
  }

  lemma ReservedStay(regs: seq<Mask>, home: Home, mask: Mask, clobber: seq<bool>)
    requires |regs| == NB_ASM_REGS == |clobber| && forall r :: r in Occupied(home) ==> r < NB_ASM_REGS
    requires forall r :: 0 <= r < NB_ASM_REGS && Reserved(clobber, r) ==> regs[r] == BOTH
    ensures forall r :: 0 <= r < NB_ASM_REGS && Reserved(clobber, r) ==> Marked(regs, home, mask)[r] == BOTH
  {
    hide Reserved, Occupied, SidesOf;
  }

  lemma PlacedOwner(st: State, done: set<nat>, j: nat, nbOutputs: nat, clobber: seq<bool>, home: Home, mask: Mask,
                    isRw: bool)
    requires Fair(st, done, nbOutputs, clobber) && j < |st.ops| && j !in done && st.ops[j].refIndex < 0
    requires IsEarly(st.ops[j].constraint, 0) ==> j < nbOutputs
    requires mask == if IsEarly(st.ops[j].constraint, 0) then BOTH else FirstMask(st.ops[j], j < nbOutputs)
    requires forall k :: k in Occupied(home) ==> k < NB_ASM_REGS && !Busy(st.regs, k, SidesOf(home, mask))
    ensures Fair(State(Seated(st.ops, j, home, isRw), Marked(st.regs, home, mask)), done + {j}, nbOutputs, clobber)
  {
    hide Seated, IsEarly, Occupied, Seats, Apart, WasFree, Busy, Tied, Priority, Marked, Housed;
    var st' := State(Seated(st.ops, j, home, isRw), Marked(st.regs, home, mask));
    var all := done + {j};
    assert PlacedSoFar(st, done, nbOutputs, clobber, j) && Readable(st.ops[j]);
    SeatedShape(st.ops, j, home, isRw);
    assert SameRequest(st'.ops[j], st.ops[j]);
    TiedBySameRequests(st.ops, st'.ops);
    NewSeat(st, j, nbOutputs, clobber, home, mask, isRw);
    SameSeat(State(st.ops[j := Housed(st.ops[j], home, isRw)], st'.regs), st', j, nbOutputs, clobber);
    ReservedStay(st.regs, home, mask, clobber);
    forall i | 0 <= i < |st.ops|
      ensures Readable(st'.ops[i]) && PlacedSoFar(st', all, nbOutputs, clobber, i)
    {
      if i != j {
        PlacedOther(st, st', done, j, nbOutputs, clobber, home, mask, isRw, i);
      }
    }
    forall i: nat, k: nat | Owner(st'.ops, all, i) && Owner(st'.ops, all, k) && i != k
      ensures Apart(st'.ops[i], i, st'.ops[k], k, nbOutputs)
    {
      OwnersStayApart(st, st', done, j, nbOutputs, clobber, home, isRw, i, k);
    }
  }

  lemma SameSeat(a: State, b: State, j: nat, nbOutputs: nat, clobber: seq<bool>)
    requires j < |a.ops| && j < |b.ops| && |a.regs| == NB_ASM_REGS == |clobber|
    requires a.regs == b.regs && a.ops[j] == b.ops[j] && Seats(a, j, nbOutputs, clobber)
    ensures Seats(b, j, nbOutputs, clobber)
  {
  }

  lemma FairReads(st: State, done: set<nat>, j: nat, nbOutputs: nat, clobber: seq<bool>)
    requires Fair(st, done, nbOutputs, clobber) && j < |st.ops|
    ensures Readable(st.ops[j]) && |st.regs| == NB_ASM_REGS
  {
  }

  /** One more operand. */
  lemma PlacedKeepsFair(st: State, done: set<nat>, j: nat, nbOutputs: nat, clobber: seq<bool>)
    requires Fair(st, done, nbOutputs, clobber) && j < |st.ops| && j !in done && Placed(st, j, nbOutputs).Ok?
    ensures Fair(Placed(st, j, nbOutputs).value, done + {j}, nbOutputs, clobber)
  {
    hide Choose, Priority, Fair, Seated, Marked, IsEarly;
    if st.ops[j].refIndex >= 0 {
      PlacedTied(st, done, j, nbOutputs, clobber);
    } else {
      var op := st.ops[j];
      FairReads(st, done, j, nbOutputs, clobber);
      ChoiceSides(op.constraint, FirstMask(op, j < nbOutputs), j < nbOutputs, op.value, st.regs);
      var c := ChoiceFor(st, j, nbOutputs);
      PlacedOwner(st, done, j, nbOutputs, clobber, c.home, c.mask, c.isRw);
    }
  }

  // Whole runs

  lemma {:induction false} FindNameFrame(a: seq<Operand>, b: seq<Operand>, name: string, i: nat)
    requires i <= |a| == |b| && forall k :: 0 <= k < |a| ==> a[k].id == b[k].id
    ensures FindName(a, name, i) == FindName(b, name, i)
    decreases |a| - i
  {
    if i < |a| {
      FindNameFrame(a, b, name, i + 1);
    }
  }

  lemma FoundFrame(a: seq<Operand>, b: seq<Operand>, s: string, p: nat)
    requires |a| == |b| && forall k :: 0 <= k < |a| ==> a[k].id == b[k].id
    ensures FoundConstraint(a, s, p) == FoundConstraint(b, s, p)
  {
    if CharAt(s, p) == '[' {
      var close := IndexOf(s, ']', p + 1);
      FindNameFrame(a, b, s[p + 1..close], 0);
    }
  }

  /** Operand i's tie and class are what its constraint asks for. */
  ghost predicate Answers(ops: seq<Operand>, i: nat, nbOutputs: nat)
    requires i < |ops|
  {
    var op := ops[i];
    var m := ModifiersEnd(op.constraint, 0);
    if IsReference(op.constraint) then
      op.refIndex == FoundConstraint(ops, op.constraint, m) >= 0 && i >= nbOutputs && op.priority == 5
    else
      op.refIndex == -1 && Priority(op.constraint, m) == Some(op.priority)
  }

  /** Nothing has been allocated to the operand. */
  predicate Fresh(op: Operand) { op.reg == -1 && !op.isMemory && !op.isRw }

  ghost predicate ResolvedTo(ops: seq<Operand>, n: nat, nbOutputs: nat) {
    && Tied(ops)
    && (forall i :: 0 <= i < n && i < |ops| ==> Answers(ops, i, nbOutputs))
    && (forall i {:trigger ops[i]} :: 0 <= i < |ops| ==> Fresh(ops[i]) && (i >= n ==> ops[i].refIndex == -1 == ops[i].inputIndex))
  }

  lemma {:induction false} ReferencesResolve(ops: seq<Operand>, n: nat, nbOutputs: nat)
    requires ResolvedTo(ops, 0, nbOutputs) && n <= |ops| && ResolvedAll(ops, n, nbOutputs).Ok?
    ensures ResolvedTo(ResolvedAll(ops, n, nbOutputs).value, n, nbOutputs)
  {
    hide Resolved, ResolvedTo;
    if n > 0 {
      ReferencesResolve(ops, n - 1, nbOutputs);
      ResolvedStep(ResolvedAll(ops, n - 1, nbOutputs).value, n - 1, nbOutputs);
    }
  }

  lemma ResolvedStep(ops: seq<Operand>, i: nat, nbOutputs: nat)
    requires i < |ops| && ResolvedTo(ops, i, nbOutputs) && Resolved(ops, i, nbOutputs).Ok?
    ensures ResolvedTo(Resolved(ops, i, nbOutputs).value, i + 1, nbOutputs)
  {
    hide Priority, FoundConstraint, ModifiersEnd, IsReference;
    var r := Resolved(ops, i, nbOutputs).value;
    var k := FoundConstraint(ops, ops[i].constraint, ModifiersEnd(ops[i].constraint, 0));
    forall j | 0 <= j < |ops|
      ensures Refers(r, j) && Referred(r, j)
    {
      assert Refers(ops, j) && Referred(ops, j);
    }
    forall j | 0 <= j < i + 1
      ensures Answers(r, j, nbOutputs)
    {
      FoundFrame(ops, r, r[j].constraint, ModifiersEnd(r[j].constraint, 0));
      assert j < i ==> Answers(ops, j, nbOutputs);
    }
  }

  ghost predicate IsPermutation(order: seq<nat>, n: nat) {
    && |order| == n && (forall k :: 0 <= k < n ==> order[k] < n)
    && (forall a, b :: 0 <= a < b < n ==> order[a] != order[b])
    && (forall j :: 0 <= j < n ==> j in order)
  }

  function Visited(order: seq<nat>, n: nat): (done: set<nat>)
    requires n <= |order|
  {
    set k | 0 <= k < n :: order[k]
  }

  function FreshRegs(clobber: seq<bool>): (regs: seq<Mask>)
    requires |clobber| == NB_ASM_REGS
    ensures |regs| == NB_ASM_REGS
  {
    seq(NB_ASM_REGS, r requires 0 <= r < NB_ASM_REGS => if Reserved(clobber, r) then BOTH else FREE)
  }

  lemma FreshIsFair(ops: seq<Operand>, nbOutputs: nat, clobber: seq<bool>)
    requires |clobber| == NB_ASM_REGS && ResolvedTo(ops, |ops|, nbOutputs)
    ensures Fair(State(ops, FreshRegs(clobber)), {}, nbOutputs, clobber)
  {
    hide Priority;
    forall j | 0 <= j < |ops|
      ensures Readable(ops[j]) && PlacedSoFar(State(ops, FreshRegs(clobber)), {}, nbOutputs, clobber, j)
    {
      assert Answers(ops, j, nbOutputs) && Refers(ops, j);
    }
  }

  lemma {:induction false} AllocationIsFair(st: State, order: seq<nat>, n: nat, nbOutputs: nat, clobber: seq<bool>)
    requires |st.regs| == NB_ASM_REGS && Fair(st, {}, nbOutputs, clobber)
    requires IsPermutation(order, |st.ops|) && n <= |order|
    requires PlacedAll(st, order, n, nbOutputs).Ok?
    ensures Fair(PlacedAll(st, order, n, nbOutputs).value, Visited(order, n), nbOutputs, clobber)
  {
    hide Placed, Fair;
    if n > 0 {
      AllocationIsFair(st, order, n - 1, nbOutputs, clobber);
      var before := PlacedAll(st, order, n - 1, nbOutputs).value;
      PlacedKeepsFair(before, Visited(order, n - 1), order[n - 1], nbOutputs, clobber);
      assert Visited(order, n) == Visited(order, n - 1) + {order[n - 1]};
    } else {
      assert Visited(order, 0) == {};
    }
  }

  lemma {:induction false} RequestsStay(st: State, order: seq<nat>, n: nat, nbOutputs: nat)
    requires |st.regs| == NB_ASM_REGS && Tied(st.ops) && IsPermutation(order, |st.ops|) && n <= |order|
    requires PlacedAll(st, order, n, nbOutputs).Ok?
    ensures var r := PlacedAll(st, order, n, nbOutputs).value;
            Tied(r.ops) && forall k :: 0 <= k < |st.ops| ==> SameRequest(r.ops[k], st.ops[k])
  {
    hide Choose, Seated, Tied, Marked;
    if n > 0 {
      RequestsStay(st, order, n - 1, nbOutputs);
      var before, j := PlacedAll(st, order, n - 1, nbOutputs).value, order[n - 1];
      if before.ops[j].refIndex < 0 {
        var c := ChoiceFor(before, j, nbOutputs);
        SeatedShape(before.ops, j, c.home, c.isRw);
        TiedBySameRequests(before.ops, Seated(before.ops, j, c.home, c.isRw));
      }
    }
  }

  /** An operand in a register that is a pointer kept in a local: outputs through it need one more register. */
  predicate NeedsOutReg(op: Operand) {
    op.reg >= 0 && op.value.PointerInLocal? && !op.isMemory
  }

  function OutReg(st: State): (r: Outcome<int>)
    requires |st.regs| == NB_ASM_REGS
  {
    if exists i :: 0 <= i < |st.ops| && NeedsOutReg(st.ops[i]) then
      (var reg := FirstFree(st.regs, OUT, 0, NB_ASM_REGS);
       if reg < NB_ASM_REGS then Ok(reg) else Err(NoOutputRegister))
    else Ok(-1)
  }

  /** The operands as references and classes are known, before allocation. */
  function Prepared(ops: seq<Operand>, nbOutputs: nat): (r: Outcome<seq<Operand>>)
    ensures r.Ok? ==> |r.value| == |ops|
  {
    ResolvedAll(seq(|ops|, i requires 0 <= i < |ops| => Cleared(ops[i])), |ops|, nbOutputs)
  }

  /** The outcome of the allocation that visits the operands in the given order. */
  function Allocated(ops: seq<Operand>, order: seq<nat>, nbOutputs: nat, clobber: seq<bool>): (r: Outcome<State>)
    requires |clobber| == NB_ASM_REGS && |order| == |ops| && forall k :: 0 <= k < |order| ==> order[k] < |ops|
    ensures r.Ok? ==> |r.value.ops| == |ops| && |r.value.regs| == NB_ASM_REGS
  {
    var prepared := Prepared(ops, nbOutputs);
    if prepared.Err? then Err(prepared.error)
    else PlacedAll(State(prepared.value, FreshRegs(clobber)), order, |order|, nbOutputs)
  }

  lemma PreparedResolves(ops: seq<Operand>, nbOutputs: nat)
    requires Prepared(ops, nbOutputs).Ok?
    ensures ResolvedTo(Prepared(ops, nbOutputs).value, |ops|, nbOutputs)
  {
    var cleared := seq(|ops|, i requires 0 <= i < |ops| => Cleared(ops[i]));
    forall i | 0 <= i < |ops|
      ensures Refers(cleared, i) && Referred(cleared, i) && Fresh(cleared[i])
    {
      assert cleared[i] == Cleared(ops[i]);
    }
    assert ResolvedTo(cleared, 0, nbOutputs);
    ReferencesResolve(cleared, |ops|, nbOutputs);
  }

  /** What the programmer wrote about the operand. */
  predicate SameText(a: Operand, b: Operand) {
    a.id == b.id && a.constraint == b.constraint && a.value == b.value
  }

  lemma {:induction false} ResolvedKeepsText(ops: seq<Operand>, n: nat, nbOutputs: nat)
    requires n <= |ops| && ResolvedAll(ops, n, nbOutputs).Ok?
    ensures forall i :: 0 <= i < |ops| ==> SameText(ResolvedAll(ops, n, nbOutputs).value[i], ops[i])
  {
    hide Priority, FoundConstraint, IsReference;
    if n > 0 {
      ResolvedKeepsText(ops, n - 1, nbOutputs);
    }
  }

  lemma PreparedKeepsText(ops: seq<Operand>, nbOutputs: nat)
    requires Prepared(ops, nbOutputs).Ok?
    ensures forall i :: 0 <= i < |ops| ==> SameText(Prepared(ops, nbOutputs).value[i], ops[i])
  {
    ResolvedKeepsText(seq(|ops|, i requires 0 <= i < |ops| => Cleared(ops[i])), |ops|, nbOutputs);
  }

  lemma FinalState(ops: seq<Operand>, order: seq<nat>, nbOutputs: nat, clobber: seq<bool>)
    requires |clobber| == NB_ASM_REGS && IsPermutation(order, |ops|) && Allocated(ops, order, nbOutputs, clobber).Ok?
    ensures var st := Allocated(ops, order, nbOutputs, clobber).value;
            && Fair(st, Visited(order, |order|), nbOutputs, clobber)
            && forall i :: 0 <= i < |ops| ==>
                 SameText(st.ops[i], ops[i]) && Answers(st.ops, i, nbOutputs) && i in Visited(order, |order|)
  {
    hide Fair, Placed, ResolvedAll, Priority, FoundConstraint;
    var prepared := Prepared(ops, nbOutputs).value;
    PreparedResolves(ops, nbOutputs);
    PreparedKeepsText(ops, nbOutputs);
    FreshIsFair(prepared, nbOutputs, clobber);
    var start := State(prepared, FreshRegs(clobber));
    AllocationIsFair(start, order, |order|, nbOutputs, clobber);
    RequestsStay(start, order, |order|, nbOutputs);
    var st := Allocated(ops, order, nbOutputs, clobber).value;
    forall i | 0 <= i < |ops|
      ensures SameText(st.ops[i], ops[i]) && Answers(st.ops, i, nbOutputs) && i in Visited(order, |order|)
    {
      assert Answers(prepared, i, nbOutputs) && SameRequest(st.ops[i], prepared[i]);
      FoundFrame(prepared, st.ops, prepared[i].constraint, ModifiersEnd(prepared[i].constraint, 0));
      assert i in order;
    }
  }

  /** In every successful allocation no two untied operands hold a register on the same side, and none holds
      a clobbered register or one of the two stack registers. */
  lemma RegistersAreExclusive(ops: seq<Operand>, order: seq<nat>, nbOutputs: nat, clobber: seq<bool>)
    requires |clobber| == NB_ASM_REGS && IsPermutation(order, |ops|) && Allocated(ops, order, nbOutputs, clobber).Ok?
    ensures var r := Allocated(ops, order, nbOutputs, clobber).value.ops;
            && (forall i: nat, j: nat :: i < |r| && j < |r| && i != j && r[i].refIndex < 0 && r[j].refIndex < 0 ==>
                  Apart(r[i], i, r[j], j, nbOutputs))
            && (forall i: nat, reg :: i < |r| && r[i].refIndex < 0 && reg in Held(r[i]) ==>
                  reg < NB_ASM_REGS && !Reserved(clobber, reg))
  {
    hide Allocated, Apart, Reserved, Answers, Visited, Held;
    FinalState(ops, order, nbOutputs, clobber);
    var st, all := Allocated(ops, order, nbOutputs, clobber).value, Visited(order, |order|);
    forall i: nat, j: nat | i < |ops| && j < |ops| && i != j && st.ops[i].refIndex < 0 && st.ops[j].refIndex < 0
      ensures Apart(st.ops[i], i, st.ops[j], j, nbOutputs)
    {
      assert Owner(st.ops, all, i) && Owner(st.ops, all, j);
    }
    forall i: nat, reg | i < |ops| && st.ops[i].refIndex < 0 && reg in Held(st.ops[i])
      ensures reg < NB_ASM_REGS && !Reserved(clobber, reg)
    {
      assert PlacedSoFar(st, all, nbOutputs, clobber, i);
    }
  }

  /** A tied operand ends with the register of the operand it refers to, unless the text of that operand is a
      reference in turn: then it gets none, and keeps the tie exactly if the other has none either. */
  lemma TieIsKept(ops: seq<Operand>, order: seq<nat>, nbOutputs: nat, clobber: seq<bool>, i: nat)
    requires |clobber| == NB_ASM_REGS && IsPermutation(order, |ops|) && Allocated(ops, order, nbOutputs, clobber).Ok?
    requires i < |ops| && IsReference(ops[i].constraint)
    ensures var r := Allocated(ops, order, nbOutputs, clobber).value.ops; var k := r[i].refIndex;
            && 0 <= k < i && nbOutputs <= i && r[k].inputIndex == i
            && k == FoundConstraint(ops, ops[i].constraint, ModifiersEnd(ops[i].constraint, 0))
            && (!IsReference(ops[k].constraint) ==> r[i].reg == r[k].reg)
            && (IsReference(ops[k].constraint) ==> r[i].reg == -1)
  {
    hide Allocated, Visited, Priority, FoundConstraint, IsReference;
    FinalState(ops, order, nbOutputs, clobber);
    var st, all := Allocated(ops, order, nbOutputs, clobber).value, Visited(order, |order|);
    FoundFrame(ops, st.ops, ops[i].constraint, ModifiersEnd(ops[i].constraint, 0));
    assert Answers(st.ops, i, nbOutputs) && Refers(st.ops, i);
    assert Answers(st.ops, st.ops[i].refIndex, nbOutputs);
    assert PlacedSoFar(st, all, nbOutputs, clobber, i);
  }

  /** The register for storing through pointers is needed exactly when an operand is such a pointer, and is
      then the lowest one that nothing holds on the output side. */
  lemma OutRegIsFree(ops: seq<Operand>, order: seq<nat>, nbOutputs: nat, clobber: seq<bool>)
    requires |clobber| == NB_ASM_REGS && IsPermutation(order, |ops|) && Allocated(ops, order, nbOutputs, clobber).Ok?
    requires OutReg(Allocated(ops, order, nbOutputs, clobber).value).Ok?
    ensures var st := Allocated(ops, order, nbOutputs, clobber).value; var reg := OutReg(st).value;
            && (reg >= 0 <==> exists i :: 0 <= i < |ops| && NeedsOutReg(st.ops[i]))
            && (reg >= 0 ==> reg < NB_ASM_REGS && !Reserved(clobber, reg)
                             && (forall i: nat :: i < |ops| && st.ops[i].refIndex < 0 && OnOutput(st.ops[i], i, nbOutputs) ==>
                                   reg !in Held(st.ops[i])))
  {
    hide Allocated, Visited, Answers, OnOutput, OnInput, Held;
    FinalState(ops, order, nbOutputs, clobber);
    var st, all := Allocated(ops, order, nbOutputs, clobber).value, Visited(order, |order|);
    var reg := OutReg(st).value;
    if reg >= 0 {
      forall i: nat | i < |ops| && st.ops[i].refIndex < 0 && OnOutput(st.ops[i], i, nbOutputs)
        ensures reg !in Held(st.ops[i])
      {
        assert PlacedSoFar(st, all, nbOutputs, clobber, i);
      }
    }
  }

  /** The search alone: it is made exactly if some operand is a pointer kept in a local and held in a register, it
      gives the lowest register not taken on the output side, and fails exactly if all sixteen are. */
  lemma OutRegIsLowest(st: State)
    requires |st.regs| == 16
    ensures var needed := exists i :: 0 <= i < |st.ops| && st.ops[i].reg >= 0 && st.ops[i].value.PointerInLocal? && !st.ops[i].isMemory;
            match OutReg(st)
            case Ok(reg) =>
              if needed then 0 <= reg < 16 && !st.regs[reg].output && forall k :: 0 <= k < reg ==> st.regs[k].output
              else reg == -1
            case Err(_) => needed && forall k :: 0 <= k < 16 ==> st.regs[k].output
  {
    var reg := FirstFree(st.regs, OUT, 0, NB_ASM_REGS);
    forall k | 0 <= k < reg
      ensures st.regs[k].output
    {
      assert Busy(st.regs, k, OUT);
    }
    if i :| 0 <= i < |st.ops| && st.ops[i].reg >= 0 && st.ops[i].value.PointerInLocal? && !st.ops[i].isMemory {
      assert NeedsOutReg(st.ops[i]);
    }
  }

  function Plain(constraint: Text): (op: Operand) {
    Operand(Anonymous, constraint, OtherValue, -1, -1, 0, -1, false, false, false)
  }

  /** Output 0 in any register, operand 1 tied to it, operand 2 tied to operand 1: operand 2 gets nothing. */
  lemma ChainedTieIsLost(order: seq<nat>)
    requires order == [0, 1, 2]
    ensures var clobber := seq(NB_ASM_REGS, _ => false);
            var r := Allocated([Plain("=r"), Plain("0"), Plain("1")], order, 1, clobber);
            r.Ok? && r.value.ops[1].reg == 0 && r.value.ops[2].refIndex == 1 && r.value.ops[2].reg == -1
  {
    var clobber := seq(NB_ASM_REGS, _ => false);
    var ops := [Plain("=r"), Plain("0"), Plain("1")];
    ChainIsPrepared();
    var st := State(Prepared(ops, 1).value, FreshRegs(clobber));
    assert Choose("=r", 0, BOTH, false, true, OtherValue, st.regs) == Choose("=r", 1, BOTH, false, true, OtherValue, st.regs);
    assert Offer('r', BOTH, true, OtherValue, st.regs) == Some(InRegister(0)) by {
      assert !Busy(st.regs, 0, BOTH);
    }
    assert PlacedAll(st, order, 0, 1) == Ok(st);
    var st1 := PlacedAll(st, order, 1, 1).value;
    assert PlacedAll(st, order, 1, 1) == Placed(st, 0, 1);
    assert PlacedAll(st, order, 2, 1) == Placed(st1, 1, 1) == Ok(st1);
    assert PlacedAll(st, order, 3, 1) == Placed(st1, 2, 1) == Ok(st1);
  }

  lemma ChainIsPrepared()
    ensures Prepared([Plain("=r"), Plain("0"), Plain("1")], 1)
            == Ok([Plain("=r").(priority := 3, inputIndex := 1),
                   Plain("0").(priority := 5, refIndex := 0, inputIndex := 2),
                   Plain("1").(priority := 5, refIndex := 1)])
  {
    var ops := [Plain("=r"), Plain("0"), Plain("1")];
    assert seq(|ops|, i requires 0 <= i < |ops| => Cleared(ops[i])) == ops;
    var ops1 := [Plain("=r").(priority := 3), Plain("0"), Plain("1")];
    assert ResolvedAll(ops, 0, 1) == Ok(ops);
    assert Resolved(ops, 0, 1) == Ok(ops1) by {
      assert ops[0 := ops[0].(priority := 3)] == ops1;
      assert ModifiersEnd("=r", 1) == 1 && ModifiersEnd("=r", 0) == 1;
      assert CharAt("=r", 1) == 'r' && CharAt("=r", 2) == '\0';
      assert Priority("=r", 2) == Some(0);
      assert Priority("=r", 1) == Higher(LetterPriority('r'), Some(0)) == Some(3);
    }
    assert ResolvedAll(ops, 1, 1) == Ok(ops1);
    var ops2 := [ops1[0].(inputIndex := 1), Plain("0").(priority := 5, refIndex := 0), Plain("1")];
    Refers1(ops1, "0", 0);
    assert ops1[1 := ops1[1].(refIndex := 0, priority := 5)][0 := ops1[0].(inputIndex := 1)] == ops2;
    assert Resolved(ops1, 1, 1) == Ok(ops2);
    assert ResolvedAll(ops, 2, 1) == Ok(ops2);
    Refers1(ops2, "1", 1);
    var ops3 := [ops2[0], ops2[1].(inputIndex := 2), Plain("1").(priority := 5, refIndex := 1)];
    assert ops2[2 := ops2[2].(refIndex := 1, priority := 5)][1 := ops2[1].(inputIndex := 2)] == ops3;
    assert Resolved(ops2, 2, 1) == Ok(ops3);
  }

  lemma Refers1(ops: seq<Operand>, s: string, d: nat)
    requires |ops| == 3 && d < 3 && s == ['0' + d as char]
    ensures ModifiersEnd(s, 0) == 0 && IsReference(s) && FoundConstraint(ops, s, 0) == d
  {
    assert Decimal(s, 0, 0) == Decimal(s, 1, d) == d;
  }
}
