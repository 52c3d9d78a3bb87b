/** The writer of the line-number program, and the readers and writers of LEB128 as loops over bytes. */
module LineWriter {
  import opened Bytes
  import opened Leb128
  import opened LineProgram
  import opened Sections

  const INT_MAX: int := 0x7fff_ffff
  const INT_MIN: int := -0x8000_0000

  /** Appends an unsigned value to a section. */
  method DwarfUleb128(s: Section, v: Word64)
    requires s.Valid()
    modifies s`data, s`dataOffset, s`addrAlign, s.data
    ensures s.Valid() && (s.data == old(s.data) || fresh(s.data))
    ensures s.Contents() == old(s.Contents()) + Uleb(v)
  {
    var value := v;
    ghost var was := s.Contents();
    while true
      invariant s.Valid() && (s.data == old(s.data) || fresh(s.data))
      invariant s.Contents() + Uleb(value) == was + Uleb(v)
      decreases value
    {
      var byte := value % 128;
      value := value / 128;
      s.Append([byte + if value != 0 then 128 else 0]);
      if value == 0 {
        break;
      }
    }
  }

  /** Appends a signed value to a section. */
  method DwarfSleb128(s: Section, v: Int64)
    requires s.Valid()
    modifies s`data, s`dataOffset, s`addrAlign, s.data
    ensures s.Valid() && (s.data == old(s.data) || fresh(s.data))
    ensures s.Contents() == old(s.Contents()) + Sleb(v)
  {
    var value := v;
    ghost var was := s.Contents();
    var end: int := if v < 0 then -1 else 0;
    while true
      invariant s.Valid() && (s.data == old(s.data) || fresh(s.data))
      invariant s.Contents() + Sleb(value) == was + Sleb(v) && (value < 0 <==> v < 0)
      decreases if value < 0 then -(value as int) else value as int
    {
      var byte := value % 128;
      LastByte(value);
      value := value / 128;
      var more := value != end || byte / 64 != (if v < 0 then 1 else 0);
      s.Append([byte + if more then 128 else 0]);
      if !more {
        break;
      }
    }
  }

  lemma PowZero()
    ensures Pow128(0) == 1
  {
  }

  /** Takes an unsigned value from the bytes at `start`. */
  method DwarfReadUleb128(buf: seq<Byte>, start: nat) returns (value: Word64, pos: nat)
    ensures Read(value, pos) == ReadUleb(buf, start)
    ensures start <= pos <= start + MAX_BYTES && (start <= |buf| ==> pos <= |buf|)
  {
    hide Septet, SignFill, Pow128;
    value, pos := 0, start;
    PowZero();
    var i := 0;
    while i < MAX_BYTES
      invariant 0 <= i <= MAX_BYTES && value < Pow128(i)
      invariant ReadUleb(buf, start) == ReadUlebFrom(buf, pos, i, value)
      invariant start <= pos <= start + i && (start <= |buf| ==> pos <= |buf|)
    {
      var byte := ByteAt(buf, pos);
      pos := Next(buf, pos);
      SeptetFits(byte, i, value);
      value := value + Septet(byte, i);
      if byte < 128 {
        break;
      }
      i := i + 1;
    }
  }

  /** Takes a signed value from the bytes at `start`. */
  method DwarfReadSleb128(buf: seq<Byte>, start: nat) returns (value: Word64, pos: nat)
    ensures Read(value, pos) == ReadSleb(buf, start)
    ensures start <= pos <= start + MAX_BYTES && (start <= |buf| ==> pos <= |buf|)
  {
    hide Septet, SignFill, Pow128;
    value, pos := 0, start;
    PowZero();
    var i := 0;
    while i < MAX_BYTES
      invariant 0 <= i <= MAX_BYTES && value < Pow128(i)
      invariant ReadSleb(buf, start) == ReadSlebFrom(buf, pos, i, value)
      invariant start <= pos <= start + i && (start <= |buf| ==> pos <= |buf|)
    {
      var byte := ByteAt(buf, pos);
      pos := Next(buf, pos);
      SeptetFits(byte, i, value);
      value := value + Septet(byte, i);
      if byte < 128 {
        value := value + SignFill(byte, i, value);
        break;
      }
      i := i + 1;
    }
  }

  /** The n of a special opcode, computed in C's int. */
  function SpecialOpcode(lenPc: int, lenLine: int): (n: int) {
    lenPc * LINE_RANGE + lenLine + OPCODE_BASE - LINE_BASE
  }

  /** A special opcode in range does what its two parts say. */
  lemma SpecialSteps(r: Regs, lenPc: nat, lenLine: int)
    requires LINE_BASE <= lenLine <= OPCODE_BASE + LINE_BASE
    requires OPCODE_BASE <= SpecialOpcode(lenPc, lenLine) <= 255
    ensures RunSpecial(r, SpecialOpcode(lenPc, lenLine)) == AddRow(r.(pc := r.pc + lenPc, line := r.line + lenLine))
  {
    var adjusted := SpecialOpcode(lenPc, lenLine) - OPCODE_BASE;
    DivUnique(adjusted, LINE_RANGE, lenPc, lenLine - LINE_BASE);
  }

  lemma Assoc<T>(a: seq<T>, b: seq<T>, c: seq<T>, d: seq<T>)
    ensures a + (b + c + d) == a + b + c + d
  {
  }

  lemma EncodesExtended(was: seq<Byte>, body: seq<Byte>)
    requires WellFormed(Extended(body))
    ensures |body| < TWO_64
    ensures was + Encode(Extended(body)) == was + [0] + Uleb(|body|) + body
  {
    hide Uleb;
    Assoc(was, [0], Uleb(|body|), body);
  }

  class LineWriter {
    var lineData: array<Byte>
    var lineSize: nat
    var curFile: nat
    var lastFile: nat
    var lastPc: int
    var lastLine: int
    var lastLineNum: int
    ghost var ops: seq<Op> // the operations whose bytes are in the buffer

    ghost function Emitted(): (s: seq<Byte>)
      requires lineSize <= lineData.Length
      reads this, lineData
    {
      lineData[..lineSize]
    }

    ghost function Registers(): (r: Regs)
      requires forall op :: op in ops ==> WellFormed(op)
      reads this
    {
      RunOps(INITIAL, ops)
    }

    /** The bytes in the buffer are those of the operations. */
    ghost predicate Synced()
      reads this, lineData
    {
      && lineSize <= lineData.Length
      && (forall op :: op in ops ==> WellFormed(op))
      && Emitted() == EncodeAll(ops)
    }

    /** The machine that has run the program stands where the writer believes it to stand. */
    ghost predicate Valid()
      reads this, lineData
    {
      && Synced() && 0 < curFile < TWO_64
      && Registers().pc == lastPc && Registers().line == lastLine
      && (lastFile != 0 ==> Registers().file == lastFile)
    }

    /** Starts the program of a compilation unit at the beginning of the text section. */
    constructor ()
      ensures Valid() && fresh(lineData) && lastPc == 0 && lastLine == 1 && lastFile == 0
      ensures Registers().rows == [] && curFile == 1 && lastLineNum == 0
    {
      lineData := new Byte[0];
      lineSize, curFile, lastFile, lastPc, lastLine, lastLineNum := 0, 1, 0, 0, 1, 0;
      ops := [];
      new;
      EmitExtended(SET_ADDRESS_ZERO);
    }

    /** Appends one byte, growing the buffer by 1024 when it is full. */
    method LineOp(op: Byte)
      requires lineSize <= lineData.Length
      modifies this`lineData, this`lineSize, lineData
      ensures lineSize <= lineData.Length && (lineData == old(lineData) || fresh(lineData))
      ensures Emitted() == old(Emitted()) + [op]
      ensures lineData.Length == old(lineData.Length) + if old(lineSize) == old(lineData.Length) then 1024 else 0
    {
      if lineSize >= lineData.Length {
        var was := lineData[..];
        lineData := new Byte[lineData.Length + 1024](k requires 0 <= k => if k < |was| then was[k] else 0);
        assert lineData[..lineSize] == was[..lineSize];
      }
      lineData[lineSize] := op;
      lineSize := lineSize + 1;
    }

    method Uleb128Op(v: Word64)
      requires lineSize <= lineData.Length
      modifies this`lineData, this`lineSize, lineData
      ensures lineSize <= lineData.Length && (lineData == old(lineData) || fresh(lineData))
      ensures Emitted() == old(Emitted()) + Uleb(v)
    {
      var value := v;
      ghost var was := Emitted();
      while true
        invariant lineSize <= lineData.Length && (lineData == old(lineData) || fresh(lineData))
        invariant Emitted() + Uleb(value) == was + Uleb(v)
        decreases value
      {
        var byte := value % 128;
        value := value / 128;
        LineOp(byte + if value != 0 then 128 else 0);
        if value == 0 {
          break;
        }
      }
    }

    method Sleb128Op(v: Int64)
      requires lineSize <= lineData.Length
      modifies this`lineData, this`lineSize, lineData
      ensures lineSize <= lineData.Length && (lineData == old(lineData) || fresh(lineData))
      ensures Emitted() == old(Emitted()) + Sleb(v)
    {
      var value := v;
      ghost var was := Emitted();
      var end: int := if v < 0 then -1 else 0;
      while true
        invariant lineSize <= lineData.Length && (lineData == old(lineData) || fresh(lineData))
        invariant Emitted() + Sleb(value) == was + Sleb(v) && (value < 0 <==> v < 0)
        decreases if value < 0 then -(value as int) else value as int
      {
        var byte := value % 128;
        LastByte(value);
        value := value / 128;
        var more := value != end || byte / 64 != (if v < 0 then 1 else 0);
        LineOp(byte + if more then 128 else 0);
        if !more {
          break;
        }
      }
    }

    /** Records that the bytes of one more operation are in the buffer. */
    ghost method Note(op: Op)
      requires WellFormed(op) && lineSize <= lineData.Length
      requires (forall o :: o in ops ==> WellFormed(o)) && Emitted() == EncodeAll(ops) + Encode(op)
      modifies this`ops
      ensures Synced() && ops == old(ops) + [op]
      ensures Registers() == RunOp(old(Registers()), op)
    {
      hide EncodeAll, Encode, RunOps, RunOp, WellFormed;
      OneMoreOp(INITIAL, ops, op);
      ops := ops + [op];
    }

    method EmitSpecial(n: int)
      requires Synced() && OPCODE_BASE <= n <= 255
      modifies this`lineData, this`lineSize, this`ops, lineData
      ensures Synced() && (lineData == old(lineData) || fresh(lineData))
      ensures Registers() == RunSpecial(old(Registers()), n) && Emitted() == old(Emitted()) + [n]
    {
      hide EncodeAll, RunOps, RunSpecial;
      LineOp(n);
      Note(Special(n));
    }

    method EmitAdvancePc(delta: Word64)
      requires Synced()
      modifies this`lineData, this`lineSize, this`ops, lineData
      ensures Synced() && (lineData == old(lineData) || fresh(lineData))
      ensures Registers() == old(Registers()).(pc := old(Registers()).pc + delta)
    {
      hide Uleb, EncodeAll, RunOps;
      ghost var was := Emitted();
      LineOp(DW_LNS_advance_pc);
      Uleb128Op(delta);
      assert Emitted() == was + Encode(AdvancePc(delta));
      Note(AdvancePc(delta));
    }

    method EmitAdvanceLine(lines: Int64)
      requires Synced()
      modifies this`lineData, this`lineSize, this`ops, lineData
      ensures Synced() && (lineData == old(lineData) || fresh(lineData))
      ensures Registers() == old(Registers()).(line := old(Registers()).line + lines)
    {
      hide Sleb, EncodeAll, RunOps;
      ghost var was := Emitted();
      LineOp(DW_LNS_advance_line);
      Sleb128Op(lines);
      assert Emitted() == was + Encode(AdvanceLine(lines));
      Note(AdvanceLine(lines));
    }

    method EmitSetFile(index: Word64)
      requires Synced()
      modifies this`lineData, this`lineSize, this`ops, lineData
      ensures Synced() && (lineData == old(lineData) || fresh(lineData))
      ensures Registers() == old(Registers()).(file := index)
    {
      hide Uleb, EncodeAll, RunOps;
      ghost var was := Emitted();
      LineOp(DW_LNS_set_file);
      Uleb128Op(index);
      assert Emitted() == was + Encode(SetFile(index));
      Note(SetFile(index));
    }

    method BytesOp(body: seq<Byte>)
      requires lineSize <= lineData.Length
      modifies this`lineData, this`lineSize, lineData
      ensures lineSize <= lineData.Length && (lineData == old(lineData) || fresh(lineData))
      ensures Emitted() == old(Emitted()) + body
    {
      ghost var was := Emitted();
      var i := 0;
      while i < |body|
        invariant 0 <= i <= |body| && lineSize <= lineData.Length
        invariant lineData == old(lineData) || fresh(lineData)
        invariant Emitted() == was + body[..i]
      {
        LineOp(body[i]);
        i := i + 1;
      }
      assert body[..i] == body;
    }

    /** An extended operation: a zero byte, the length of its body, the body. */
    method EmitExtended(body: seq<Byte>)
      requires Synced() && WellFormed(Extended(body))
      modifies this`lineData, this`lineSize, this`ops, lineData
      ensures Synced() && (lineData == old(lineData) || fresh(lineData))
      ensures Registers() == RunOp(old(Registers()), Extended(body))
    {
      hide Uleb, EncodeAll, RunOps, RunOp, WellFormed, Encode;
      ghost var was := Emitted();
      EncodesExtended(was, body);
      LineOp(0);
      Uleb128Op(|body|);
      BytesOp(body);
      Note(Extended(body));
    }

    /** Moves the machine by lenPc and lenLine: one special opcode if both fit in it, otherwise each part
        by the shortest means. A change of line always ends with a row. */
    method EmitAdvance(lenPc: nat, lenLine: int)
      requires Synced() && lenPc <= INT_MAX
      requires INT_MIN <= lenLine <= INT_MAX && INT_MIN <= SpecialOpcode(lenPc, lenLine) <= INT_MAX
      modifies this`lineData, this`lineSize, this`ops, lineData
      ensures Synced() && (lineData == old(lineData) || fresh(lineData))
      ensures Advanced(old(Registers()), Registers(), lenPc, lenLine)
      ensures IsShort(lenPc, lenLine) ==> |Emitted()| == |old(Emitted())| + 1
    {
      hide RunOps, EncodeAll, RunSpecial;
      ghost var r := Registers();
      var n := SpecialOpcode(lenPc, lenLine);
      if lenPc != 0 && LINE_BASE <= lenLine <= OPCODE_BASE + LINE_BASE && OPCODE_BASE <= n <= 255 {
        SpecialSteps(r, lenPc, lenLine);
        EmitSpecial(n);
      } else {
        if lenPc != 0 {
          EmitPc(lenPc);
        }
        if lenLine != 0 {
          EmitLine(lenLine);
        }
      }
    }

    method EmitPc(lenPc: nat)
      requires Synced() && 0 < lenPc <= INT_MAX
      modifies this`lineData, this`lineSize, this`ops, lineData
      ensures Synced() && (lineData == old(lineData) || fresh(lineData))
      ensures Advanced(old(Registers()), Registers(), lenPc, 0)
      ensures IsShort(lenPc, 0) ==> |Emitted()| == |old(Emitted())| + 1
    {
      hide RunOps, EncodeAll, RunSpecial;
      var n := SpecialOpcode(lenPc, 0);
      if OPCODE_BASE <= n <= 255 {
        SpecialSteps(Registers(), lenPc, 0);
        EmitSpecial(n);
      } else {
        EmitAdvancePc(lenPc);
      }
    }

    method EmitLine(lenLine: int)
      requires Synced() && lenLine != 0 && INT_MIN <= lenLine <= INT_MAX
      modifies this`lineData, this`lineSize, this`ops, lineData
      ensures Synced() && (lineData == old(lineData) || fresh(lineData))
      ensures Advanced(old(Registers()), Registers(), 0, lenLine)
      ensures IsShort(0, lenLine) ==> |Emitted()| == |old(Emitted())| + 1
    {
      hide RunOps, EncodeAll, RunSpecial;
      ghost var r := Registers();
      var n := SpecialOpcode(0, lenLine);
      if LINE_BASE <= lenLine <= OPCODE_BASE + LINE_BASE && OPCODE_BASE <= n <= 255 {
        SpecialSteps(Registers(), 0, lenLine);
        EmitSpecial(n);
      } else {
        EmitAdvanceLine(lenLine);
        SpecialSteps(Registers(), 0, 0);
        EmitSpecial(OPCODE_BASE - LINE_BASE); // advance by nothing
      }
    }

    /** Line information for the code from `ind` on, which comes from line `lineNum` of the current file.
        Nothing is written for the line reported last. */
    method DebugLine(lineNum: int, ind: int)
      requires Valid() && lastPc <= ind && 0 <= lineNum <= INT_MAX && 0 <= lastLine <= INT_MAX
      requires ind - lastPc <= INT_MAX
      requires INT_MIN <= SpecialOpcode(ind - lastPc, lineNum - lastLine) <= INT_MAX
      modifies this`lineData, this`lineSize, this`ops, this`lastFile, this`lastPc, this`lastLine, this`lastLineNum, lineData
      ensures Valid() && (lineData == old(lineData) || fresh(lineData)) && lastLineNum == lineNum
      ensures old(lastLineNum) == lineNum ==> ops == old(ops) && lastPc == old(lastPc) && lastLine == old(lastLine)
      ensures old(lastLineNum) != lineNum ==>
                && lastPc == ind && lastLine == lineNum && lastFile == curFile
                && Advanced(old(Registers()).(file := curFile), Registers(), ind - old(lastPc), lineNum - old(lastLine))
      ensures old(lastLineNum) != lineNum && curFile == old(lastFile) && IsShort(ind - old(lastPc), lineNum - old(lastLine)) ==>
                |Emitted()| == |old(Emitted())| + 1
    {
      hide RunOps, EncodeAll;
      if lastLineNum == lineNum {
        return;
      }
      lastLineNum := lineNum;
      if curFile != lastFile {
        lastFile := curFile;
        EmitSetFile(curFile);
      }
      EmitAdvance(ind - lastPc, lineNum - lastLine);
      lastPc := ind;
      lastLine := lineNum;
    }

    /** The compiler has moved to another file. */
    method NewFile(index: nat)
      requires Valid() && 0 < index < TWO_64
      modifies this`curFile, this`lastLineNum
      ensures Valid() && curFile == index && lastLineNum == 0 && ops == old(ops)
    {
      curFile, lastLineNum := index, 0;
    }

    /** The end of a prologue or the start of an epilogue. */
    method PrologEpilog(value: int)
      requires Valid()
      modifies this`lineData, this`lineSize, this`ops, lineData
      ensures Valid() && (lineData == old(lineData) || fresh(lineData)) && Registers() == old(Registers())
      ensures Emitted() == old(Emitted()) + [if value == 0 then 10 else 11]
    {
      var n := if value == 0 then DW_LNS_set_prologue_end else DW_LNS_set_epilogue_begin;
      LineOp(n);
      Note(Flag(n));
    }

    /** Whatever was called in whatever order: running the bytes emitted so far leaves the machine at the
        writer's own position, in the writer's own line and, once set, file. */
    lemma BytesAgree()
      requires Valid()
      ensures RunBytes(Regs(0, 1, 1, []), Emitted(), 0) == Done(Registers())
      ensures Registers().pc == lastPc && Registers().line == lastLine && (lastFile != 0 ==> Registers().file == lastFile)
    {
      BytesRunOps(INITIAL, ops);
    }
  }

  /** Moves that take a single byte. */
  predicate IsShort(lenPc: int, lenLine: int) {
    -5 <= lenLine <= 8 && 0 <= lenPc && 14 * lenPc + lenLine + 18 <= 255 && (lenPc != 0 || lenLine != 0)
  }

  /** The rows appended for a move by lenPc and lenLine: one if both fit into a special opcode; otherwise one where
      the address moved by at most 16, still on the old line, and one if the line changed. */
  function NewRows(r: Regs, lenPc: int, lenLine: int): (rows: seq<Row>) {
    var moved := Row(r.pc + lenPc, r.file, r.line + lenLine);
    if lenPc != 0 && -5 <= lenLine <= 8 && 14 * lenPc + lenLine + 18 <= 255 then [moved]
    else
      (if 0 < lenPc <= 16 then [Row(r.pc + lenPc, r.file, r.line)] else [])
      + (if lenLine != 0 then [moved] else [])
  }

  /** s is r moved by lenPc and lenLine in the same file, with exactly those rows added. */
  ghost predicate Advanced(r: Regs, s: Regs, lenPc: int, lenLine: int) {
    s == Regs(r.pc + lenPc, r.file, r.line + lenLine, r.rows + NewRows(r, lenPc, lenLine))
  }

  /** A report appends a row for the new position exactly if the line changed or the address moved by 1 to 16; that
      row comes last, and a row before it is at the new address too. */
  lemma ReportIsARow(r: Regs, lenPc: nat, lenLine: int)
    ensures var rows := NewRows(r, lenPc, lenLine);
            && (Row(r.pc + lenPc, r.file, r.line + lenLine) in rows <==> lenLine != 0 || 0 < lenPc <= 16)
            && (rows != [] ==> rows[|rows| - 1] == Row(r.pc + lenPc, r.file, r.line + lenLine))
            && (|rows| > 1 <==> lenLine != 0 && 0 < lenPc <= 16 && !(-5 <= lenLine <= 8 && 14 * lenPc + lenLine <= 237))
            && |rows| <= 2 && forall k :: 0 <= k < |rows| ==> rows[k].pc == r.pc + lenPc && rows[k].file == r.file
  {
  }

  /** A jump of 17 bytes within a line goes unrecorded in the matrix until the next row. */
  lemma LongJumpHasNoRow(r: Regs)
    ensures NewRows(r, 17, 0) == [] && NewRows(r, 16, 0) == [Row(r.pc + 16, r.file, r.line)]
  {
  }
}
