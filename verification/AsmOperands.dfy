/** Constraints of inline-assembly operands: what each one asks for, the references between them, and the
    two-sided (input and output) allocation of registers. */
module AsmOperands {
  import opened Wrappers

  const NB_ASM_REGS: nat := 16
  const MAX_ASM_OPERANDS: nat := 30
  const TREG_XAX: nat := 0
  const TREG_XCX: nat := 1
  const TREG_XDX: nat := 2

  datatype Error = BadReference(i: int) | ReferencedTwice | UnknownConstraint(i: int)
                 | BadModifier(j: int) | Unsatisfied(j: int) | NoOutputRegister

  type Outcome<T> = Result<T, Error>

  /** What the allocator looks at in an operand's value: a constant, a pointer kept in a local, or neither. */
  datatype Value = Constant(symbolic: bool) | PointerInLocal | OtherValue

  datatype Id = Anonymous | Named(name: string)

  /** A C string: no terminator inside. */
  type Text = s: string | '\0' !in s witness ""

  datatype Operand = Operand(id: Id, constraint: Text, value: Value, refIndex: int, inputIndex: int,
                             priority: int, reg: int, isLlong: bool, isMemory: bool, isRw: bool)

  /** Which sides of the statement a register is taken on. */
  datatype Mask = Mask(output: bool, input: bool)

  const FREE := Mask(false, false)
  const OUT := Mask(true, false)
  const IN := Mask(false, true)
  const BOTH := Mask(true, true)

  function CharAt(s: string, p: nat): (c: char) {
    if p < |s| then s[p] else '\0'
  }

  // Reading constraints

  predicate IsModifier(c: char) { c == '=' || c == '&' || c == '+' || c == '%' }

  predicate IsDigit(c: char) { '0' <= c <= '9' }

  /** Where the modifiers that start at p end. */
  function ModifiersEnd(s: string, p: nat): (m: nat)
    ensures p <= m && (p <= |s| ==> m <= |s|)
    ensures forall k :: p <= k < m ==> k < |s| && IsModifier(s[k])
    ensures !IsModifier(CharAt(s, m))
    decreases |s| - p
  {
    if p < |s| && IsModifier(s[p]) then ModifiersEnd(s, p + 1) else p
  }

  method SkipConstraintModifiers(s: string) returns (p: nat)
    ensures p == ModifiersEnd(s, 0) <= |s| && (forall k :: 0 <= k < p ==> s[k] in "=&+%") && (p < |s| ==> s[p] !in "=&+%")
  {
    p := 0;
    while IsModifier(CharAt(s, p))
      invariant p <= |s| && ModifiersEnd(s, 0) == ModifiersEnd(s, p)
      decreases |s| - p
    {
      p := p + 1;
    }
  }

  /** The class of one letter: the lower, the fewer registers satisfy it. None if it is not a letter. */
  function LetterPriority(c: char): (pr: Option<nat>) {
    if c == 'A' then Some(0)
    else if c == 'a' || c == 'b' || c == 'c' || c == 'd' || c == 'S' || c == 'D' then Some(1)
    else if c == 'q' then Some(2)
    else if c == 'r' || c == 'R' || c == 'p' then Some(3)
    else if c == 'N' || c == 'M' || c == 'I' || c == 'e' || c == 'i' || c == 'm' || c == 'g' then Some(4)
    else None
  }

  /** The class of the letters from p on: the highest of theirs; None if one is unknown. */
  function Priority(s: string, p: nat): (pr: Option<nat>)
    decreases |s| - p
  {
    if CharAt(s, p) == '\0' then Some(0) else Higher(LetterPriority(s[p]), Priority(s, p + 1))
  }

  function Higher(a: Option<nat>, b: Option<nat>): (c: Option<nat>) {
    if a.None? || b.None? then None else Some(if a.value > b.value then a.value else b.value)
  }

  /** All characters from p to the end of the string are letters of class at most `most`. */
  predicate LettersFrom(s: string, p: nat, most: nat)
    decreases |s| - p
  {
    CharAt(s, p) == '\0' ||
    (LetterPriority(s[p]).Some? && LetterPriority(s[p]).value <= most && LettersFrom(s, p + 1, most))
  }

  /** The class is the least that bounds every letter, and there is one exactly when every letter is known. */
  lemma {:induction false} PriorityIsLeastBound(s: string, p: nat, most: nat)
    ensures LettersFrom(s, p, most) <==> Priority(s, p).Some? && Priority(s, p).value <= most
    decreases |s| - p
  {
    if CharAt(s, p) != '\0' {
      PriorityIsLeastBound(s, p + 1, most);
    }
  }

  method ConstraintPriority(s: string, start: nat) returns (pr: Option<nat>)
    ensures pr == Priority(s, start)
  {
    var priority, p := 0, start;
    while CharAt(s, p) != '\0'
      invariant p >= start
      invariant Priority(s, start) == Higher(Some(priority), Priority(s, p))
      decreases |s| - p
    {
      var c := LetterPriority(s[p]);
      if c.None? {
        return None;
      }
      if c.value > priority {
        priority := c.value;
      }
      p := p + 1;
    }
    pr := Some(priority);
  }

  // References

  /** The value of the decimal digits from p on, after v. */
  function Decimal(s: string, p: nat, v: nat): (n: nat)
    decreases |s| - p
  {
    if p < |s| && IsDigit(s[p]) then Decimal(s, p + 1, 10 * v + (s[p] as int - '0' as int)) else v
  }

  /** The first place from p on that holds c, or |s|. */
  function IndexOf(s: string, c: char, p: nat): (i: nat)
    requires p <= |s|
    ensures p <= i <= |s| && (i < |s| ==> s[i] == c) && forall k :: p <= k < i ==> s[k] != c
    decreases |s| - p
  {
    if p < |s| && s[p] != c then IndexOf(s, c, p + 1) else p
  }

  /** The first operand from i on called `name`, or -1. */
  function FindName(ops: seq<Operand>, name: string, i: nat): (k: int)
    requires i <= |ops|
    ensures k == -1 || (i <= k < |ops| && ops[k].id == Named(name))
    ensures forall j :: i <= j < (if k == -1 then |ops| else k) ==> ops[j].id != Named(name)
    decreases |ops| - i
  {
    if i == |ops| then -1 else if ops[i].id == Named(name) then i else FindName(ops, name, i + 1)
  }

  /** The operand a reference at p means, by number or by name, or -1. */
  function FoundConstraint(ops: seq<Operand>, s: string, p: nat): (k: int)
    ensures -1 <= k < |ops|
  {
    var c := CharAt(s, p);
    if IsDigit(c) then
      (if Decimal(s, p, 0) < |ops| then Decimal(s, p, 0) else -1)
    else if c == '[' then
      (var close := IndexOf(s, ']', p + 1); if close == |s| then -1 else FindName(ops, s[p + 1..close], 0))
    else -1
  }

  method FindConstraint(ops: array<Operand>, s: string, p: nat) returns (index: int)
    ensures index == FoundConstraint(ops[..], s, p)
  {
    if IsDigit(CharAt(s, p)) {
      index := 0;
      var name := p;
      while IsDigit(CharAt(s, name))
        invariant p <= name <= |s| && index >= 0 && Decimal(s, p, 0) == Decimal(s, name, index)
        decreases |s| - name
      {
        index := 10 * index + (s[name] as int - '0' as int);
        name := name + 1;
      }
      if index >= ops.Length {
        index := -1;
      }
    } else if CharAt(s, p) == '[' {
      var close := p + 1;
      while close < |s| && s[close] != ']'
        invariant p + 1 <= close <= |s| && IndexOf(s, ']', p + 1) == IndexOf(s, ']', close)
      {
        close := close + 1;
      }
      if close < |s| {
        index := FindByName(ops, s[p + 1..close]);
      } else {
        index := -1;
      }
    } else {
      index := -1;
    }
  }

  method FindByName(ops: array<Operand>, name: string) returns (index: int)
    ensures index == FindName(ops[..], name, 0)
  {
    index := 0;
    while index < ops.Length
      invariant 0 <= index <= ops.Length && FindName(ops[..], name, 0) == FindName(ops[..], name, index)
    {
      if ops[index].id == Named(name) {
        return;
      }
      index := index + 1;
    }
    index := -1;
  }

  predicate IsReference(s: string) {
    var c := CharAt(s, ModifiersEnd(s, 0));
    IsDigit(c) || c == '['
  }

  function Cleared(op: Operand): (r: Operand) {
    op.(inputIndex := -1, refIndex := -1, reg := -1, isMemory := false, isRw := false)
  }

  /** Operand i with its class set, tied to the operand it refers to if it does. */
  function Resolved(ops: seq<Operand>, i: nat, nbOutputs: nat): (r: Outcome<seq<Operand>>)
    requires i < |ops|
    ensures r.Ok? ==> |r.value| == |ops|
  {
    var s := ops[i].constraint;
    var m := ModifiersEnd(s, 0);
    if IsReference(s) then
      var k := FoundConstraint(ops, s, m);
      if k < 0 || k >= i || i < nbOutputs then Err(BadReference(i))
      else if ops[k].inputIndex >= 0 then Err(ReferencedTwice)
      else Ok(ops[i := ops[i].(refIndex := k, priority := 5)][k := ops[k].(inputIndex := i)])
    else if Priority(s, m).None? then Err(UnknownConstraint(i))
    else Ok(ops[i := ops[i].(priority := Priority(s, m).value)])
  }

  function ResolvedAll(ops: seq<Operand>, n: nat, nbOutputs: nat): (r: Outcome<seq<Operand>>)
    requires n <= |ops|
    ensures r.Ok? ==> |r.value| == |ops|
  {
    if n == 0 then Ok(ops)
    else
      var before := ResolvedAll(ops, n - 1, nbOutputs);
      if before.Err? then before else Resolved(before.value, n - 1, nbOutputs)
  }

  // Choosing a register for one operand

  function With(a: Mask, b: Mask): (c: Mask) { Mask(a.output || b.output, a.input || b.input) }

  predicate Busy(regs: seq<Mask>, reg: nat, mask: Mask)
    requires reg < |regs|
  {
    (regs[reg].output && mask.output) || (regs[reg].input && mask.input)
  }

  /** The first register from r on, below n, that is free on the sides of the mask; n if there is none. */
  function FirstFree(regs: seq<Mask>, mask: Mask, r: nat, n: nat): (reg: nat)
    requires r <= n <= |regs|
    ensures r <= reg <= n && (reg < n ==> !Busy(regs, reg, mask))
    ensures forall k :: r <= k < reg ==> Busy(regs, k, mask)
    decreases n - r
  {
    if r < n && Busy(regs, r, mask) then FirstFree(regs, mask, r + 1, n) else r
  }

  /** Where an operand may live: nowhere new, in a register, in eax and edx, or behind a pointer that is
      first loaded into a register. */
  datatype Home = AsItIs | InRegister(reg: nat) | InPair | ThroughRegister(reg: nat)

  /** The registers a home occupies. */
  function Occupied(home: Home): (rs: set<nat>) {
    match home
    case AsItIs => {}
    case InRegister(reg) => {reg}
    case InPair => {TREG_XAX, TREG_XDX}
    case ThroughRegister(reg) => {reg}
  }

  /** A home occupies its registers on these sides: a loaded pointer is only needed on input. */
  function SidesOf(home: Home, mask: Mask): (m: Mask) {
    if home.ThroughRegister? then IN else mask
  }

  function FixedRegister(c: char): (reg: Option<nat>)
    ensures reg.Some? ==> reg.value < 8
  {
    if c == 'a' then Some(TREG_XAX) else if c == 'b' then Some(3) else if c == 'c' then Some(TREG_XCX)
    else if c == 'd' then Some(TREG_XDX) else if c == 'S' then Some(6) else if c == 'D' then Some(7) else None
  }

  function InFirstFree(regs: seq<Mask>, mask: Mask, n: nat): (home: Option<Home>)
    requires n <= |regs|
  {
    var reg := FirstFree(regs, mask, 0, n);
    if reg < n then Some(InRegister(reg)) else None
  }

  /** The home a letter gives an operand, as the registers stand. */
  function Offer(c: char, mask: Mask, isOutput: bool, value: Value, regs: seq<Mask>): (home: Option<Home>)
    requires |regs| == NB_ASM_REGS
    ensures home.Some? ==> forall r :: r in Occupied(home.value) ==>
                             r < NB_ASM_REGS && !Busy(regs, r, SidesOf(home.value, mask))
  {
    if c == 'A' then
      (if Busy(regs, TREG_XAX, mask) || Busy(regs, TREG_XDX, mask) then None else Some(InPair))
    else if FixedRegister(c).Some? then
      (if Busy(regs, FixedRegister(c).value, mask) then None else Some(InRegister(FixedRegister(c).value)))
    else if c == 'q' then InFirstFree(regs, mask, 4)
    else if c == 'r' || c == 'R' || c == 'p' then InFirstFree(regs, mask, NB_ASM_REGS)
    else if c == 'e' || c == 'i' then
      (if value.Constant? then Some(AsItIs) else None)
    else if c == 'I' || c == 'N' || c == 'M' then
      (if value == Constant(false) then Some(AsItIs) else None)
    else if c == 'm' || c == 'g' then
      (if (isOutput || c == 'm') && value.PointerInLocal? then
         (var reg := FirstFree(regs, IN, 0, NB_ASM_REGS);
          if reg < NB_ASM_REGS then Some(ThroughRegister(reg)) else None)
       else Some(AsItIs))
    else None
  }

  /** The homes a letter admits, whatever the registers. */
  predicate Admits(c: char, isOutput: bool, value: Value, home: Home) {
    if c == 'A' then home == InPair
    else if c == 'a' then home == InRegister(0)
    else if c == 'b' then home == InRegister(3)
    else if c == 'c' then home == InRegister(1)
    else if c == 'd' then home == InRegister(2)
    else if c == 'S' then home == InRegister(6)
    else if c == 'D' then home == InRegister(7)
    else if c == 'q' then home.InRegister? && home.reg < 4
    else if c == 'r' || c == 'R' || c == 'p' then home.InRegister? && home.reg < 16
    else if c == 'e' || c == 'i' then home == AsItIs && value.Constant?
    else if c == 'I' || c == 'N' || c == 'M' then home == AsItIs && value == Constant(false)
    else if c == 'm' || c == 'g' then
      (if (isOutput || c == 'm') && value.PointerInLocal? then home.ThroughRegister? && home.reg < 16
       else home == AsItIs)
    else false
  }

  /** All the registers of a home are free on the sides it needs them. */
  predicate Vacant(regs: seq<Mask>, home: Home, mask: Mask)
    requires |regs| == NB_ASM_REGS
  {
    forall r :: r in Occupied(home) ==> r < NB_ASM_REGS && !Busy(regs, r, SidesOf(home, mask))
  }

  function LowestRegister(home: Home): (r: nat) {
    if home.InRegister? || home.ThroughRegister? then home.reg else 0
  }

  /** A letter offers a home it admits, vacant and with the lowest register of such homes; and it makes no offer
      exactly when none of them is vacant. */
  lemma OfferIsBest(c: char, mask: Mask, isOutput: bool, value: Value, regs: seq<Mask>)
    requires |regs| == NB_ASM_REGS
    ensures match Offer(c, mask, isOutput, value, regs)
            case None => forall home :: Admits(c, isOutput, value, home) ==> !Vacant(regs, home, mask)
            case Some(best) =>
              && Admits(c, isOutput, value, best) && Vacant(regs, best, mask)
              && forall home :: Admits(c, isOutput, value, home) && Vacant(regs, home, mask) ==>
                   LowestRegister(best) <= LowestRegister(home)
  {
    forall home | Admits(c, isOutput, value, home) && Vacant(regs, home, mask)
      ensures Offer(c, mask, isOutput, value, regs).Some?
      ensures LowestRegister(Offer(c, mask, isOutput, value, regs).value) <= LowestRegister(home)
    {
      assert home.InRegister? || home.ThroughRegister? ==> home.reg in Occupied(home);
      assert home == InPair ==> TREG_XAX in Occupied(home) && TREG_XDX in Occupied(home);
    }
  }

  ghost predicate MeansRegister(c: char, reg: nat) {
    forall o, v, home :: Admits(c, o, v, home) <==> home == InRegister(reg)
  }

  /** The classes put the letters with fewer homes first: the pair, one register, one of four, one of all, and
      then those that may do without a register. */
  lemma ClassCountsHomes(c: char)
    ensures match LetterPriority(c)
            case None => forall o, v, home :: !Admits(c, o, v, home)
            case Some(pr) =>
              && pr <= 4
              && (pr == 0 ==> forall o, v, home :: Admits(c, o, v, home) <==> home == InPair)
              && (pr == 1 ==> exists reg: nat :: reg < 16 && MeansRegister(c, reg))
              && (pr == 2 ==> forall o, v, home :: Admits(c, o, v, home) <==> home.InRegister? && home.reg < 4)
              && (pr == 3 ==> forall o, v, home :: Admits(c, o, v, home) <==> home.InRegister? && home.reg < 16)
              && (pr == 4 ==> Admits(c, false, Constant(false), AsItIs))
  {
    if LetterPriority(c) == Some(1) {
      var reg := if c == 'a' then 0 else if c == 'b' then 3 else if c == 'c' then 1 else if c == 'd' then 2
                 else if c == 'S' then 6 else 7;
      assert MeansRegister(c, reg);
    }
  }

  datatype Choice = Chosen(at: nat, home: Home, mask: Mask, isRw: bool) | Misplaced | NoneLeft

  /** The scan of a constraint: modifiers first widen the mask, then the first letter with an offer decides. */
  function Choose(s: string, p: nat, mask: Mask, isRw: bool, isOutput: bool, value: Value, regs: seq<Mask>): (r: Choice)
    requires |regs| == NB_ASM_REGS
    ensures r.Chosen? ==> forall k :: k in Occupied(r.home) ==> k < NB_ASM_REGS && !Busy(regs, k, SidesOf(r.home, r.mask))
    decreases |s| - p
  {
    var c := CharAt(s, p);
    if c == '=' then Choose(s, p + 1, mask, isRw, isOutput, value, regs)
    else if c == '+' || c == '&' then
      (if isOutput then Choose(s, p + 1, BOTH, isRw || c == '+', isOutput, value, regs) else Misplaced)
    else if LetterPriority(c).None? then NoneLeft
    else
      match Offer(c, mask, isOutput, value, regs)
      case Some(home) => Chosen(p, home, mask, isRw)
      case None => Choose(s, p + 1, mask, isRw, isOutput, value, regs)
  }

  /** Past the modifiers, the letter that decides is the first one with an offer, and the scan fails exactly
      when no letter has one. */
  lemma {:induction false} FirstOfferWins(s: string, p: nat, mask: Mask, isRw: bool, isOutput: bool, value: Value,
                                          regs: seq<Mask>)
    requires |regs| == NB_ASM_REGS && p <= |s| && '\0' !in s && LettersFrom(s, p, 4)
    ensures var r := Choose(s, p, mask, isRw, isOutput, value, regs);
            && !r.Misplaced?
            && (r.NoneLeft? <==> forall k :: p <= k < |s| ==> Offer(s[k], mask, isOutput, value, regs).None?)
            && (r.Chosen? ==> p <= r.at < |s| && r.mask == mask && r.isRw == isRw
                              && Offer(s[r.at], mask, isOutput, value, regs) == Some(r.home)
                              && forall k :: p <= k < r.at ==> Offer(s[k], mask, isOutput, value, regs).None?)
    decreases |s| - p
  {
    hide Offer;
    if p < |s| && Offer(s[p], mask, isOutput, value, regs).None? {
      FirstOfferWins(s, p + 1, mask, isRw, isOutput, value, regs);
    }
  }

  /** Whether '+' or '&' is among the modifiers from p on: the register is then taken on both sides. */
  predicate IsEarly(s: string, p: nat)
    decreases |s| - p
  {
    p < |s| && IsModifier(s[p]) && (s[p] == '+' || s[p] == '&' || IsEarly(s, p + 1))
  }

  predicate IsReadWrite(s: string, p: nat)
    decreases |s| - p
  {
    p < |s| && IsModifier(s[p]) && (s[p] == '+' || IsReadWrite(s, p + 1))
  }

  /** What the modifiers do to a scan that succeeds. */
  lemma {:induction false} ModifiersWidenMask(s: string, p: nat, mask: Mask, isRw: bool, isOutput: bool,
                                              value: Value, regs: seq<Mask>)
    requires |regs| == NB_ASM_REGS && Choose(s, p, mask, isRw, isOutput, value, regs).Chosen?
    ensures IsEarly(s, p) ==> isOutput
    ensures Choose(s, p, mask, isRw, isOutput, value, regs)
            == Choose(s, ModifiersEnd(s, p), if IsEarly(s, p) then BOTH else mask, isRw || IsReadWrite(s, p), isOutput, value, regs)
    decreases |s| - p
  {
    hide Offer;
    if p < |s| && IsModifier(s[p]) {
      var c := s[p];
      assert c != '%' && LetterPriority('%').None?;
      ModifiersWidenMask(s, p + 1, if c == '=' then mask else BOTH, isRw || c == '+', isOutput, value, regs);
      assert IsEarly(s, p) <==> c != '=' || IsEarly(s, p + 1);
      assert IsReadWrite(s, p) <==> c == '+' || IsReadWrite(s, p + 1);
    }
  }

  /** A successful scan of a constraint of known letters: which sides it ends up with. */
  lemma ChoiceSides(s: string, mask: Mask, isOutput: bool, value: Value, regs: seq<Mask>)
    requires |regs| == NB_ASM_REGS && '\0' !in s && Priority(s, ModifiersEnd(s, 0)).Some?
    requires Choose(s, 0, mask, false, isOutput, value, regs).Chosen?
    ensures var r := Choose(s, 0, mask, false, isOutput, value, regs);
            && r.mask == (if IsEarly(s, 0) then BOTH else mask) && (IsEarly(s, 0) ==> isOutput)
            && r.isRw == IsReadWrite(s, 0)
  {
    hide Offer, Choose, Priority, Occupied;
    var m := ModifiersEnd(s, 0);
    ModifiersWidenMask(s, 0, mask, false, isOutput, value, regs);
    var wide := if IsEarly(s, 0) then BOTH else mask;
    PriorityAtMostFour(s, m);
    PriorityIsLeastBound(s, m, 4);
    FirstOfferWins(s, m, wide, IsReadWrite(s, 0), isOutput, value, regs);
    var r := Choose(s, 0, mask, false, isOutput, value, regs);
  }

  lemma {:induction false} PriorityAtMostFour(s: string, p: nat)
    ensures Priority(s, p).Some? ==> Priority(s, p).value <= 4
    decreases |s| - p
  {
    if CharAt(s, p) != '\0' {
      PriorityAtMostFour(s, p + 1);
    }
  }

  // Allocation

  datatype State = State(ops: seq<Operand>, regs: seq<Mask>)

  function Marked(regs: seq<Mask>, home: Home, mask: Mask): (r: seq<Mask>)
    requires |regs| == NB_ASM_REGS && forall r :: r in Occupied(home) ==> r < NB_ASM_REGS
    ensures |r| == NB_ASM_REGS
  {
    seq(NB_ASM_REGS, k requires 0 <= k < NB_ASM_REGS =>
      if k in Occupied(home) then With(regs[k], SidesOf(home, mask)) else regs[k])
  }

  function Housed(op: Operand, home: Home, isRw: bool): (r: Operand) {
    match home
    case AsItIs => op.(isRw := isRw)
    case InRegister(reg) => op.(isRw := isRw, reg := reg, isLlong := false)
    case InPair => op.(isRw := isRw, reg := TREG_XAX, isLlong := true)
    case ThroughRegister(reg) => op.(isRw := isRw, reg := reg, isMemory := true)
  }

  function FirstMask(op: Operand, isOutput: bool): (mask: Mask) {
    if op.inputIndex >= 0 then BOTH else if isOutput then OUT else IN
  }

  /** Operand j with its home, and the operand tied to it with the same register. */
  function Seated(ops: seq<Operand>, j: nat, home: Home, isRw: bool): (r: seq<Operand>)
    requires j < |ops|
    ensures |r| == |ops|
  {
    var op := Housed(ops[j], home, isRw);
    var placed := ops[j := op];
    if op.inputIndex < 0 || op.inputIndex >= |ops| then placed
    else placed[op.inputIndex := placed[op.inputIndex].(reg := op.reg, isLlong := op.isLlong)]
  }

  /** References and the operands they refer to name each other, and a reference comes after its operand. */
  ghost predicate Tied(ops: seq<Operand>) {
    forall i {:trigger ops[i]} :: 0 <= i < |ops| ==> Refers(ops, i) && Referred(ops, i)
  }

  ghost predicate Refers(ops: seq<Operand>, i: nat)
    requires i < |ops|
  {
    ops[i].refIndex == -1 || (0 <= ops[i].refIndex < i && ops[ops[i].refIndex].inputIndex == i)
  }

  ghost predicate Referred(ops: seq<Operand>, i: nat)
    requires i < |ops|
  {
    ops[i].inputIndex == -1 || (i < ops[i].inputIndex < |ops| && ops[ops[i].inputIndex].refIndex == i)
  }

  function ChoiceFor(st: State, j: nat, nbOutputs: nat): (r: Choice)
    requires j < |st.ops| && |st.regs| == NB_ASM_REGS
  {
    var op := st.ops[j];
    Choose(op.constraint, 0, FirstMask(op, j < nbOutputs), false, j < nbOutputs, op.value, st.regs)
  }

  /** Registers for operand j: none of its own if it is tied to another. */
  function Placed(st: State, j: nat, nbOutputs: nat): (r: Outcome<State>)
    requires j < |st.ops| && |st.regs| == NB_ASM_REGS
    ensures r.Ok? ==> |r.value.ops| == |st.ops| && |r.value.regs| == NB_ASM_REGS
  {
    if st.ops[j].refIndex >= 0 then Ok(st)
    else
      match ChoiceFor(st, j, nbOutputs)
      case Misplaced => Err(BadModifier(j))
      case NoneLeft => Err(Unsatisfied(j))
      case Chosen(at, home, mask, isRw) =>
        Ok(State(Seated(st.ops, j, home, isRw), Marked(st.regs, home, mask)))
  }

  function PlacedAll(st: State, order: seq<nat>, n: nat, nbOutputs: nat): (r: Outcome<State>)
    requires n <= |order| && |st.regs| == NB_ASM_REGS && forall k :: 0 <= k < |order| ==> order[k] < |st.ops|
    ensures r.Ok? ==> |r.value.ops| == |st.ops| && |r.value.regs| == NB_ASM_REGS
  {
    if n == 0 then Ok(st)
    else
      var before := PlacedAll(st, order, n - 1, nbOutputs);
      if before.Err? then before else Placed(before.value, order[n - 1], nbOutputs)
  }
}
