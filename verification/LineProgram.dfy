/** The line-number program: its operations, their bytes, and the state machine that runs them
    (DWARF 5, sections 6.2.2 and 6.2.5). */
module LineProgram {
  import opened Bytes
  import opened Leb128

  const LINE_BASE: int := -5
  const LINE_RANGE: int := 14
  const OPCODE_BASE: int := 13

  const DW_LNS_advance_pc: Byte := 2
  const DW_LNS_advance_line: Byte := 3
  const DW_LNS_set_file: Byte := 4
  const DW_LNS_set_prologue_end: Byte := 10
  const DW_LNS_set_epilogue_begin: Byte := 11
  const DW_LNE_set_address: Byte := 2

  datatype Row = Row(pc: int, file: nat, line: int)

  /** The registers that matter here, and the rows appended to the matrix so far. */
  datatype Regs = Regs(pc: int, file: nat, line: int, rows: seq<Row>)

  const INITIAL: Regs := Regs(0, 1, 1, [])

  /** The operations the writer emits. An extended operation is skipped over by its length, except
      that setting the address to 0 starts the sequence. */
  datatype Op =
    | Special(n: Byte)
    | AdvancePc(delta: Word64)
    | AdvanceLine(lines: Int64)
    | SetFile(index: Word64)
    | Flag(n: Byte)
    | Extended(body: seq<Byte>)

  predicate WellFormed(op: Op) {
    match op
    case Special(n) => n >= OPCODE_BASE
    case Flag(n) => n == DW_LNS_set_prologue_end || n == DW_LNS_set_epilogue_begin
    case Extended(body) => 0 < |body| < TWO_64 && (body[0] == DW_LNE_set_address ==> body == SET_ADDRESS_ZERO)
    case _ => true
  }

  const SET_ADDRESS_ZERO: seq<Byte> := [DW_LNE_set_address, 0, 0, 0, 0, 0, 0, 0, 0]

  function Encode(op: Op): (r: seq<Byte>)
    requires WellFormed(op)
  {
    match op
    case Special(n) => [n]
    case AdvancePc(d) => [DW_LNS_advance_pc] + Uleb(d)
    case AdvanceLine(d) => [DW_LNS_advance_line] + Sleb(d)
    case SetFile(f) => [DW_LNS_set_file] + Uleb(f)
    case Flag(n) => [n]
    case Extended(body) => [0] + Uleb(|body|) + body
  }

  function EncodeAll(ops: seq<Op>): (r: seq<Byte>)
    requires forall op :: op in ops ==> WellFormed(op)
  {
    if ops == [] then [] else EncodeAll(ops[..|ops| - 1]) + Encode(ops[|ops| - 1])
  }

  function AddRow(r: Regs): (s: Regs) {
    r.(rows := r.rows + [Row(r.pc, r.file, r.line)])
  }

  /** A special opcode advances the address and the line, then appends a row. */
  function RunSpecial(r: Regs, n: Byte): (s: Regs)
    requires n >= OPCODE_BASE
  {
    var adjusted := n - OPCODE_BASE;
    AddRow(r.(pc := r.pc + adjusted / LINE_RANGE, line := r.line + LINE_BASE + adjusted % LINE_RANGE))
  }

  function RunOp(r: Regs, op: Op): (s: Regs)
    requires WellFormed(op)
  {
    match op
    case Special(n) => RunSpecial(r, n)
    case AdvancePc(d) => r.(pc := r.pc + d)
    case AdvanceLine(d) => r.(line := r.line + d)
    case SetFile(f) => r.(file := f)
    case Flag(_) => r
    case Extended(body) => if body[0] == DW_LNE_set_address then r.(pc := 0) else r
  }

  function RunOps(r: Regs, ops: seq<Op>): (s: Regs)
    requires forall op :: op in ops ==> WellFormed(op)
  {
    if ops == [] then r else RunOp(RunOps(r, ops[..|ops| - 1]), ops[|ops| - 1])
  }

  datatype Run = Stuck | Done(regs: Regs)

  /** One operation read from the bytes: the registers after it, and where the next one starts. */
  datatype Stepped = Bad | Step(regs: Regs, pos: nat)

  function StepAt(r: Regs, bytes: seq<Byte>, pos: nat): (s: Stepped)
    requires pos < |bytes|
    ensures s.Step? ==> s.pos > pos
  {
    var opcode := bytes[pos];
    if opcode >= OPCODE_BASE then Step(RunSpecial(r, opcode), pos + 1)
    else if opcode == DW_LNS_advance_pc then
      var u := ReadUleb(bytes, pos + 1); Step(r.(pc := r.pc + u.value), u.pos)
    else if opcode == DW_LNS_advance_line then
      var u := ReadSleb(bytes, pos + 1); Step(r.(line := r.line + ToSigned(u.value)), u.pos)
    else if opcode == DW_LNS_set_file then
      var u := ReadUleb(bytes, pos + 1); Step(r.(file := u.value), u.pos)
    else if opcode == DW_LNS_set_prologue_end || opcode == DW_LNS_set_epilogue_begin then Step(r, pos + 1)
    else if opcode == 0 then
      var u := ReadUleb(bytes, pos + 1);
      if u.value == 0 || u.pos + u.value > |bytes| then Bad
      else if bytes[u.pos] != DW_LNE_set_address then Step(r, u.pos + u.value)
      else if bytes[u.pos..u.pos + u.value] == SET_ADDRESS_ZERO then Step(r.(pc := 0), u.pos + u.value)
      else Bad
    else Bad
  }

  /** The machine on a program given as bytes. */
  function RunBytes(r: Regs, bytes: seq<Byte>, pos: nat): (s: Run)
    decreases |bytes| - pos
  {
    if pos >= |bytes| then (if pos == |bytes| then Done(r) else Stuck)
    else match StepAt(r, bytes, pos)
      case Bad => Stuck
      case Step(r', pos') => RunBytes(r', bytes, pos')
  }

  /** Reading one encoded operation runs it and takes exactly its bytes. */
  lemma StepsOp(r: Regs, before: seq<Byte>, op: Op, after: seq<Byte>)
    requires WellFormed(op)
    ensures Encode(op) != []
    ensures StepAt(r, before + Encode(op) + after, |before|) == Step(RunOp(r, op), |before| + |Encode(op)|)
  {
    hide ReadUleb, ReadSleb, Uleb, Sleb, RunSpecial, ToSigned;
    var bytes, pos := before + Encode(op) + after, |before|;
    assert bytes[pos] == Encode(op)[0];
    match op {
      case Special(n) =>
      case Flag(n) =>
      case AdvancePc(d) =>
        assert bytes == (before + [DW_LNS_advance_pc]) + Uleb(d) + after;
        UlebRoundTrip(before + [DW_LNS_advance_pc], d, after);
      case AdvanceLine(d) =>
        assert bytes == (before + [DW_LNS_advance_line]) + Sleb(d) + after;
        SlebRoundTrip(before + [DW_LNS_advance_line], d, after);
      case SetFile(f) =>
        assert bytes == (before + [DW_LNS_set_file]) + Uleb(f) + after;
        UlebRoundTrip(before + [DW_LNS_set_file], f, after);
      case Extended(body) =>
        StepsExtended(r, before, body, after);
    }
  }

  lemma StepsExtended(r: Regs, before: seq<Byte>, body: seq<Byte>, after: seq<Byte>)
    requires WellFormed(Extended(body))
    ensures var e := Encode(Extended(body));
            StepAt(r, before + e + after, |before|) == Step(RunOp(r, Extended(body)), |before| + |e|)
  {
    hide ReadUleb, ReadSleb, Uleb, RunSpecial;
    var bytes, pos := before + Encode(Extended(body)) + after, |before|;
    assert bytes == (before + [0]) + Uleb(|body|) + (body + after);
    UlebRoundTrip(before + [0], |body|, body + after);
    var p := pos + 1 + |Uleb(|body|)|;
    assert bytes[pos] == 0;
    assert bytes[p..p + |body|] == body;
    assert bytes[p] == body[0];
  }

  /** A program extended by one operation: its bytes and its effect. */
  lemma OneMoreOp(r: Regs, ops: seq<Op>, op: Op)
    requires WellFormed(op) && forall o :: o in ops ==> WellFormed(o)
    ensures forall o :: o in ops + [op] ==> WellFormed(o)
    ensures EncodeAll(ops + [op]) == EncodeAll(ops) + Encode(op)
    ensures RunOps(r, ops + [op]) == RunOp(RunOps(r, ops), op)
  {
    hide Encode, RunOp, WellFormed;
    assert (ops + [op])[..|ops|] == ops;
  }

  /** Running the bytes of a program is running its operations. */
  lemma {:induction false} RunsOps(r: Regs, ops: seq<Op>, after: seq<Byte>)
    requires forall op :: op in ops ==> WellFormed(op)
    ensures RunBytes(r, EncodeAll(ops) + after, 0) == RunBytes(RunOps(r, ops), EncodeAll(ops) + after, |EncodeAll(ops)|)
    decreases |ops|
  {
    hide Encode, RunOp, StepAt;
    if ops != [] {
      var n := |ops| - 1;
      var before, last := EncodeAll(ops[..n]), Encode(ops[n]);
      assert EncodeAll(ops) + after == before + (last + after) == before + last + after;
      RunsOps(r, ops[..n], last + after);
      StepsOp(RunOps(r, ops[..n]), before, ops[n], after);
    }
  }

  lemma BytesRunOps(r: Regs, ops: seq<Op>)
    requires forall op :: op in ops ==> WellFormed(op)
    ensures RunBytes(r, EncodeAll(ops), 0) == Done(RunOps(r, ops))
  {
    RunsOps(r, ops, []);
    assert EncodeAll(ops) + [] == EncodeAll(ops);
  }
}
