/** What a successful allocation means for the programmer: each operand is where one of the letters of its
    constraint says, and registers are shared only between plain outputs and plain inputs. */
module AsmMeaning {
  import opened Wrappers
  import opened AsmOperands
  import opened AsmAllocation

  predicate InOneRegister(op: Operand, reg: int) {
    op.reg == reg && !op.isLlong && !op.isMemory
  }

  /** The operand is where the letter asks for it: in a register by number, in the pair of registers 0 and 2,
      behind a pointer in a register, or left where it was. */
  predicate Serves(c: char, isOutput: bool, op: Operand) {
    match c
    case 'A' => op.reg == 0 && op.isLlong && !op.isMemory
    case 'a' => InOneRegister(op, 0)
    case 'b' => InOneRegister(op, 3)
    case 'c' => InOneRegister(op, 1)
    case 'd' => InOneRegister(op, 2)
    case 'S' => InOneRegister(op, 6)
    case 'D' => InOneRegister(op, 7)
    case 'q' => InOneRegister(op, op.reg) && 0 <= op.reg < 4
    case 'r' | 'R' | 'p' => InOneRegister(op, op.reg) && 0 <= op.reg < 16
    case 'e' | 'i' => op.reg == -1 && !op.isMemory && op.value.Constant?
    case 'I' | 'N' | 'M' => op.reg == -1 && !op.isMemory && op.value == Constant(false)
    case 'm' =>
      if op.value.PointerInLocal? then 0 <= op.reg < 16 && op.isMemory else op.reg == -1 && !op.isMemory
    case 'g' =>
      if isOutput && op.value.PointerInLocal? then 0 <= op.reg < 16 && op.isMemory else op.reg == -1 && !op.isMemory
    case _ => false
  }

  /** Some letter of the constraint is served, and the operand is read and written if the modifiers say so. */
  ghost predicate IsServed(op: Operand, isOutput: bool) {
    var s := op.constraint;
    && (exists p :: ModifiersEnd(s, 0) <= p < |s| && Serves(s[p], isOutput, op))
    && (op.isRw <==> exists k :: 0 <= k < ModifiersEnd(s, 0) && s[k] == '+')
  }

  lemma AdmittedServes(c: char, isOutput: bool, op: Operand, home: Home, isRw: bool)
    requires Fresh(op) && Admits(c, isOutput, op.value, home)
    ensures Serves(c, isOutput, Housed(op, home, isRw))
  {
  }

  lemma {:induction false} ReadWriteIs(s: string, p: nat)
    ensures IsReadWrite(s, p) <==> exists k :: p <= k < ModifiersEnd(s, p) && s[k] == '+'
    decreases |s| - p
  {
    if p < |s| && IsModifier(s[p]) {
      ReadWriteIs(s, p + 1);
      if IsReadWrite(s, p + 1) {
        var k :| p + 1 <= k < ModifiersEnd(s, p + 1) && s[k] == '+';
        assert p <= k < ModifiersEnd(s, p) && s[k] == '+';
      }
    }
  }

  lemma {:induction false} EarlyIs(s: string, p: nat)
    ensures IsEarly(s, p) <==> exists k :: p <= k < ModifiersEnd(s, p) && (s[k] == '+' || s[k] == '&')
    decreases |s| - p
  {
    if p < |s| && IsModifier(s[p]) {
      EarlyIs(s, p + 1);
      if IsEarly(s, p + 1) {
        var k :| p + 1 <= k < ModifiersEnd(s, p + 1) && (s[k] == '+' || s[k] == '&');
        assert p <= k < ModifiersEnd(s, p) && (s[k] == '+' || s[k] == '&');
      }
    }
  }

  /** The home chosen for an operand serves it. */
  lemma ChosenServes(op: Operand, mask: Mask, isOutput: bool, regs: seq<Mask>)
    requires |regs| == NB_ASM_REGS && Fresh(op) && Priority(op.constraint, ModifiersEnd(op.constraint, 0)).Some?
    requires Choose(op.constraint, 0, mask, false, isOutput, op.value, regs).Chosen?
    ensures var r := Choose(op.constraint, 0, mask, false, isOutput, op.value, regs);
            IsServed(Housed(op, r.home, r.isRw), isOutput)
  {
    hide Offer, Choose, Priority, Occupied, Admits, Serves, Fresh;
    var s := op.constraint;
    var m := ModifiersEnd(s, 0);
    ChoiceSides(s, mask, isOutput, op.value, regs);
    ModifiersWidenMask(s, 0, mask, false, isOutput, op.value, regs);
    PriorityAtMostFour(s, m);
    PriorityIsLeastBound(s, m, 4);
    var r := Choose(s, 0, mask, false, isOutput, op.value, regs);
    FirstOfferWins(s, m, r.mask, r.isRw, isOutput, op.value, regs);
    OfferIsBest(s[r.at], r.mask, isOutput, op.value, regs);
    AdmittedServes(s[r.at], isOutput, op, r.home, r.isRw);
    ReadWriteIs(s, 0);
    HousedKeeps(op, r.home, r.isRw);
  }

  lemma HousedKeeps(op: Operand, home: Home, isRw: bool)
    ensures var r := Housed(op, home, isRw); r.constraint == op.constraint && r.isRw == isRw
  {
  }

  /** Every untied operand among those placed is served. */
  ghost predicate Serving(ops: seq<Operand>, done: set<nat>, nbOutputs: nat) {
    forall i: nat :: Owner(ops, done, i) ==> IsServed(ops[i], i < nbOutputs)
  }

  /** One more operand. */
  lemma PlacedKeepsServing(st: State, done: set<nat>, j: nat, nbOutputs: nat, clobber: seq<bool>)
    requires Fair(st, done, nbOutputs, clobber) && Serving(st.ops, done, nbOutputs)
    requires j < |st.ops| && j !in done && Placed(st, j, nbOutputs).Ok?
    ensures Serving(Placed(st, j, nbOutputs).value.ops, done + {j}, nbOutputs)
  {
    hide Choose, Priority, IsServed, Seated, Marked, Apart, Seats;
    var st' := Placed(st, j, nbOutputs).value;
    assert Readable(st.ops[j]) && PlacedSoFar(st, done, nbOutputs, clobber, j);
    if st.ops[j].refIndex < 0 {
      var op, c := st.ops[j], ChoiceFor(st, j, nbOutputs);
      ChosenServes(op, FirstMask(op, j < nbOutputs), j < nbOutputs, st.regs);
      SeatedShape(st.ops, j, c.home, c.isRw);
      assert Referred(st.ops, j);
      forall i: nat | Owner(st'.ops, done + {j}, i)
        ensures IsServed(st'.ops[i], i < nbOutputs)
      {
        assert SameRequest(st'.ops[i], st.ops[i]);
        assert i != j ==> Owner(st.ops, done, i);
      }
    } else {
      forall i: nat | Owner(st'.ops, done + {j}, i)
        ensures IsServed(st'.ops[i], i < nbOutputs)
      {
        assert Owner(st.ops, done, i);
      }
    }
  }

  lemma {:induction false} AllocationServes(st: State, order: seq<nat>, n: nat, nbOutputs: nat, clobber: seq<bool>)
    requires |st.regs| == NB_ASM_REGS && Fair(st, {}, nbOutputs, clobber)
    requires IsPermutation(order, |st.ops|) && n <= |order| && PlacedAll(st, order, n, nbOutputs).Ok?
    ensures Serving(PlacedAll(st, order, n, nbOutputs).value.ops, Visited(order, n), nbOutputs)
  {
    hide Placed, Fair, Serving;
    if n > 0 {
      AllocationServes(st, order, n - 1, nbOutputs, clobber);
      AllocationIsFair(st, order, n - 1, nbOutputs, clobber);
      var before := PlacedAll(st, order, n - 1, nbOutputs).value;
      PlacedKeepsServing(before, Visited(order, n - 1), order[n - 1], nbOutputs, clobber);
      assert Visited(order, n) == Visited(order, n - 1) + {order[n - 1]};
    } else {
      assert Visited(order, 0) == {};
      NothingServed(st.ops, nbOutputs);
    }
  }

  lemma NothingServed(ops: seq<Operand>, nbOutputs: nat)
    ensures Serving(ops, {}, nbOutputs)
  {
  }

  /** In every successful allocation an operand whose text is no reference is where one of the letters of its
      constraint says. */
  lemma ConstraintsAreServed(ops: seq<Operand>, order: seq<nat>, nbOutputs: nat, clobber: seq<bool>, i: nat)
    requires |clobber| == NB_ASM_REGS && IsPermutation(order, |ops|) && Allocated(ops, order, nbOutputs, clobber).Ok?
    requires i < |ops| && !IsReference(ops[i].constraint)
    ensures var r := Allocated(ops, order, nbOutputs, clobber).value.ops[i];
            SameText(r, ops[i]) && IsServed(r, i < nbOutputs)
  {
    hide IsServed, PlacedAll, Priority, IsReference, ResolvedAll, Fair, Visited;
    FinalState(ops, order, nbOutputs, clobber);
    var prepared := Prepared(ops, nbOutputs).value;
    PreparedResolves(ops, nbOutputs);
    FreshIsFair(prepared, nbOutputs, clobber);
    AllocationServes(State(prepared, FreshRegs(clobber)), order, |order|, nbOutputs, clobber);
    var st := Allocated(ops, order, nbOutputs, clobber).value;
    assert Answers(st.ops, i, nbOutputs);
    assert Owner(st.ops, Visited(order, |order|), i);
  }

  /** An operand whose constraint is one letter after its modifiers is exactly where that letter says: "a", "b",
      "c", "d", "S" and "D" mean registers 0, 3, 1, 2, 6 and 7. */
  lemma LetterMeansRegister(ops: seq<Operand>, order: seq<nat>, nbOutputs: nat, clobber: seq<bool>, i: nat)
    requires |clobber| == NB_ASM_REGS && IsPermutation(order, |ops|) && Allocated(ops, order, nbOutputs, clobber).Ok?
    requires i < |ops| && ModifiersEnd(ops[i].constraint, 0) == |ops[i].constraint| - 1
    ensures var r := Allocated(ops, order, nbOutputs, clobber).value.ops[i];
            var c := ops[i].constraint[|ops[i].constraint| - 1];
            && (c == 'a' ==> r.reg == 0) && (c == 'b' ==> r.reg == 3) && (c == 'c' ==> r.reg == 1)
            && (c == 'd' ==> r.reg == 2) && (c == 'S' ==> r.reg == 6) && (c == 'D' ==> r.reg == 7)
            && (c == 'q' ==> 0 <= r.reg < 4) && (c == 'r' ==> 0 <= r.reg < 16) && (c == 'A' ==> r.reg == 0 && r.isLlong)
  {
    hide Allocated, IsPermutation;
    var s := ops[i].constraint;
    if !IsReference(s) {
      ConstraintsAreServed(ops, order, nbOutputs, clobber, i);
    }
  }

  // References

  /** A number as a programmer writes it. */
  function Printed(n: nat): (s: string) {
    (if n < 10 then "" else Printed(n / 10)) + [('0' as int + n % 10) as char]
  }

  lemma {:induction false} DecimalReads(s: string, p: nat, d: string, v: nat, n: nat)
    requires p + |d| <= |s| && s[p..p + |d|] == d && d == Printed(n)
    ensures v == 0 ==> Decimal(s, p, v) == Decimal(s, p + |d|, n)
  {
    hide Decimal;
    if v == 0 {
      if n < 10 {
        DigitReads(s, p, 0, n);
      } else {
        var e := Printed(n / 10);
        assert s[p..p + |e|] == d[..|e|] == e;
        DecimalReads(s, p, e, 0, n / 10);
        assert s[p + |e|] == d[|e|];
        DigitReads(s, p + |e|, n / 10, n % 10);
      }
    }
  }

  lemma DigitReads(s: string, p: nat, v: nat, d: nat)
    requires p < |s| && d < 10 && s[p] == ('0' as int + d) as char
    ensures Decimal(s, p, v) == Decimal(s, p + 1, 10 * v + d)
  {
  }

  /** A number, written out, refers to the operand of that number if there is one. */
  lemma NumberRefers(ops: seq<Operand>, n: nat)
    ensures FoundConstraint(ops, Printed(n), 0) == if n < |ops| then n else -1
  {
    var s := Printed(n);
    DecimalReads(s, 0, s, 0, n);
    FirstIsDigit(n);
  }

  lemma {:induction false} FirstIsDigit(n: nat)
    ensures '0' <= Printed(n)[0] <= '9'
  {
    if n >= 10 {
      FirstIsDigit(n / 10);
      assert Printed(n)[0] == Printed(n / 10)[0];
    }
  }

  /** A name in brackets refers to the first operand of that name, if there is one and the bracket is closed. */
  lemma NameRefers(ops: seq<Operand>, name: string, rest: string)
    requires ']' !in name
    ensures var k := FoundConstraint(ops, ['['] + name + [']'] + rest, 0);
            && (k == -1 <==> forall j :: 0 <= j < |ops| ==> ops[j].id != Named(name))
            && (k >= 0 ==> ops[k].id == Named(name) && forall j :: 0 <= j < k ==> ops[j].id != Named(name))
    ensures FoundConstraint(ops, ['['] + name, 0) == -1
  {
    var s := ['['] + name + [']'] + rest;
    assert s[|name| + 1] == ']' && forall j :: 1 <= j < |name| + 1 ==> s[j] == name[j - 1];
    assert IndexOf(s, ']', 1) == |name| + 1;
    assert s[1..|name| + 1] == name;
    var u := ['['] + name;
    assert forall j :: 1 <= j < |u| ==> u[j] == name[j - 1];
    assert IndexOf(u, ']', 1) == |u|;
  }

  const LETTERS := {'A', 'a', 'b', 'c', 'd', 'S', 'D', 'q', 'r', 'R', 'p', 'N', 'M', 'I', 'e', 'i', 'm', 'g'}

  /** Operand i has a constraint that can be accepted: a reference from an input to an earlier operand that no
      earlier reference means, or modifiers and known letters. */
  predicate Acceptable(ops: seq<Operand>, i: nat, nbOutputs: nat)
    requires i < |ops|
  {
    var s := ops[i].constraint;
    var m := ModifiersEnd(s, 0);
    if IsReference(s) then
      var k := FoundConstraint(ops, s, m);
      && 0 <= k < i && nbOutputs <= i
      && forall j :: 0 <= j < i && IsReference(ops[j].constraint) ==>
           FoundConstraint(ops, ops[j].constraint, ModifiersEnd(ops[j].constraint, 0)) != k
    else forall p :: m <= p < |s| ==> s[p] in LETTERS
  }

  lemma KnownLetter(c: char)
    ensures LetterPriority(c).Some? <==> c in LETTERS
  {
  }

  lemma {:induction false} KnownLetters(s: string, p: nat)
    requires '\0' !in s
    ensures Priority(s, p).Some? <==> forall q :: p <= q < |s| ==> s[q] in LETTERS
    decreases |s| - p
  {
    hide LetterPriority, LETTERS;
    if CharAt(s, p) != '\0' {
      KnownLetters(s, p + 1);
      KnownLetter(s[p]);
    }
  }

  lemma ResolvedIffAcceptable(ops: seq<Operand>, i: nat, nbOutputs: nat)
    requires i < |ops| && ResolvedTo(ops, i, nbOutputs)
    ensures Resolved(ops, i, nbOutputs).Ok? <==> Acceptable(ops, i, nbOutputs)
  {
    hide FoundConstraint, ModifiersEnd, IsReference, Priority;
    var s := ops[i].constraint;
    var m := ModifiersEnd(s, 0);
    if IsReference(s) {
      var k := FoundConstraint(ops, s, m);
      if 0 <= k < i {
        assert Referred(ops, k);
        if ops[k].inputIndex >= 0 {
          var j := ops[k].inputIndex;
          assert ops[j].refIndex == k && Answers(ops, j, nbOutputs);
        }
        forall j | 0 <= j < i && IsReference(ops[j].constraint)
          ensures FoundConstraint(ops, ops[j].constraint, ModifiersEnd(ops[j].constraint, 0)) == k ==> ops[k].inputIndex >= 0
        {
          assert Answers(ops, j, nbOutputs) && Refers(ops, j);
        }
      }
    } else {
      KnownLetters(s, m);
    }
  }

  lemma AcceptableFrame(a: seq<Operand>, b: seq<Operand>, i: nat, nbOutputs: nat)
    requires i < |a| == |b| && forall k :: 0 <= k < |a| ==> SameText(b[k], a[k])
    ensures Acceptable(a, i, nbOutputs) <==> Acceptable(b, i, nbOutputs)
  {
    hide FoundConstraint, ModifiersEnd, IsReference;
    forall j | 0 <= j < |a|
      ensures FoundConstraint(a, a[j].constraint, ModifiersEnd(a[j].constraint, 0))
              == FoundConstraint(b, b[j].constraint, ModifiersEnd(b[j].constraint, 0))
    {
      FoundFrame(a, b, a[j].constraint, ModifiersEnd(a[j].constraint, 0));
    }
  }

  lemma {:induction false} ResolvedAllIff(ops: seq<Operand>, n: nat, nbOutputs: nat)
    requires n <= |ops| && ResolvedTo(ops, 0, nbOutputs)
    ensures ResolvedAll(ops, n, nbOutputs).Ok? <==> forall i :: 0 <= i < n ==> Acceptable(ops, i, nbOutputs)
  {
    hide Resolved, ResolvedTo, Acceptable, SameText;
    if n > 0 {
      ResolvedAllIff(ops, n - 1, nbOutputs);
      if ResolvedAll(ops, n - 1, nbOutputs).Ok? {
        var before := ResolvedAll(ops, n - 1, nbOutputs).value;
        ReferencesResolve(ops, n - 1, nbOutputs);
        ResolvedKeepsText(ops, n - 1, nbOutputs);
        ResolvedIffAcceptable(before, n - 1, nbOutputs);
        AcceptableFrame(ops, before, n - 1, nbOutputs);
      }
    }
  }

  /** The constraints are accepted exactly if each is acceptable. */
  lemma PreparedIffAcceptable(ops: seq<Operand>, nbOutputs: nat)
    ensures Prepared(ops, nbOutputs).Ok? <==> forall i :: 0 <= i < |ops| ==> Acceptable(ops, i, nbOutputs)
  {
    hide Acceptable, ResolvedAll;
    var cleared := seq(|ops|, i requires 0 <= i < |ops| => Cleared(ops[i]));
    forall i | 0 <= i < |ops|
      ensures Refers(cleared, i) && Referred(cleared, i) && Fresh(cleared[i])
    {
      assert cleared[i] == Cleared(ops[i]);
    }
    assert ResolvedTo(cleared, 0, nbOutputs);
    ResolvedAllIff(cleared, |ops|, nbOutputs);
    forall i | 0 <= i < |ops|
      ensures Acceptable(cleared, i, nbOutputs) <==> Acceptable(ops, i, nbOutputs)
    {
      AcceptableFrame(ops, cleared, i, nbOutputs);
    }
  }

  // Sharing

  /** The constraint has a modifier that keeps inputs out of the operand's register. */
  predicate EarlyClobber(s: string) {
    exists k :: 0 <= k < ModifiersEnd(s, 0) && (s[k] == '+' || s[k] == '&')
  }

  /** An output in a register that is free until outputs are stored. */
  predicate PlainOutput(op: Operand, i: nat, nbOutputs: nat) {
    i < nbOutputs && !op.isMemory && op.inputIndex < 0 && !EarlyClobber(op.constraint)
  }

  /** An input, or the pointer behind which an output lies, whose register is free once inputs have been used. */
  predicate PlainInput(op: Operand, i: nat, nbOutputs: nat) {
    op.isMemory || (i >= nbOutputs && op.inputIndex < 0 && !EarlyClobber(op.constraint))
  }

  /** Two untied operands hold the same register only if one is a plain output and the other a plain input. None
      holds register 4, register 5 or a clobbered one. */
  lemma SharedByPlainOnly(ops: seq<Operand>, order: seq<nat>, nbOutputs: nat, clobber: seq<bool>, i: nat, j: nat,
                          reg: nat)
    requires |clobber| == NB_ASM_REGS && IsPermutation(order, |ops|) && Allocated(ops, order, nbOutputs, clobber).Ok?
    requires i < |ops| && j < |ops| && i != j && !IsReference(ops[i].constraint) && !IsReference(ops[j].constraint)
    requires var r := Allocated(ops, order, nbOutputs, clobber).value.ops; reg in Held(r[i]) && reg in Held(r[j])
    ensures var r := Allocated(ops, order, nbOutputs, clobber).value.ops;
            || (PlainOutput(r[i], i, nbOutputs) && PlainInput(r[j], j, nbOutputs))
            || (PlainInput(r[i], i, nbOutputs) && PlainOutput(r[j], j, nbOutputs))
    ensures reg < 16 && reg != 4 && reg != 5 && !clobber[reg]
  {
    hide Allocated, Visited, Priority, FoundConstraint, IsReference, Held;
    RegistersAreExclusive(ops, order, nbOutputs, clobber);
    FinalState(ops, order, nbOutputs, clobber);
    var r := Allocated(ops, order, nbOutputs, clobber).value.ops;
    assert Answers(r, i, nbOutputs) && Answers(r, j, nbOutputs);
    assert Apart(r[i], i, r[j], j, nbOutputs);
    EarlyIs(r[i].constraint, 0);
    EarlyIs(r[j].constraint, 0);
  }
}
