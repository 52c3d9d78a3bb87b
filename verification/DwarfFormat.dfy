/** LEB128 and the line-number machine as the standard defines them: sections 6.2.5 and 7.6 of DWARF 5, with the
    header values that the writer puts into its tables (line base -5, line range 14, opcode base 13). */
module DwarfFormat {
  import opened Bytes
  import opened Leb128
  import opened LineProgram

  /** Byte i of an encoding of n bytes: the i-th group of seven bits, with the top bit set on all but the last. */
  predicate GroupAt(b: Byte, v: int, i: nat, n: nat) {
    b % 128 == v / Pow128(i) % 128 && (b >= 128 <==> i + 1 < n)
  }

  lemma NextGroup(v: int, i: nat)
    ensures (v / 128) / Pow128(i) == v / Pow128(i + 1)
  {
    var p := Pow128(i);
    var q, r := v / (128 * p), v % (128 * p);
    assert v == 128 * (p * q) + r;
    var h := r / 128;
    assert v / 128 == p * q + h;
    DivUnique(v / 128, p, q, h);
  }

  /** One byte in front of the groups of the rest. */
  lemma GroupsShift(v: int, rest: seq<Byte>)
    requires |rest| > 0 && forall i :: 0 <= i < |rest| ==> GroupAt(rest[i], v / 128, i, |rest|)
    ensures var s := [128 + v % 128] + rest; forall i :: 0 <= i < |s| ==> GroupAt(s[i], v, i, |s|)
  {
    var s := [128 + v % 128] + rest;
    forall i | 0 <= i < |s|
      ensures GroupAt(s[i], v, i, |s|)
    {
      if i > 0 {
        NextGroup(v, i - 1);
        assert s[i] == rest[i - 1];
      }
    }
  }

  /** The unsigned encoding: the groups of v, as many as it takes and no more. */
  lemma {:induction false} UlebIs(v: Word64)
    ensures var s := Uleb(v);
            && (forall i :: 0 <= i < |s| ==> GroupAt(s[i], v, i, |s|))
            && |s| > 0 && v < Pow128(|s|) && (|s| > 1 ==> v >= Pow128(|s| - 1))
  {
    var s := Uleb(v);
    if v >= 128 {
      UlebIs(v / 128);
      var rest := Uleb(v / 128);
      GroupsShift(v, rest);
      Bounds(v, v / 128, Pow128(|rest|), if |rest| > 1 then Pow128(|rest| - 1) else 1);
    }
  }

  lemma Bounds(v: nat, h: nat, top: nat, low: nat)
    requires h == v / 128 && low <= h < top
    ensures 128 * low <= v < 128 * top
  {
  }

  /** v fits into n groups of seven bits, the highest bit being its sign. */
  predicate FitsSigned(v: int, n: nat)
    requires n > 0
  {
    -64 * Pow128(n - 1) <= v < 64 * Pow128(n - 1)
  }

  lemma FitsSignedNext(v: int, n: nat)
    requires n > 0
    ensures FitsSigned(v / 128, n) <==> FitsSigned(v, n + 1)
  {
    var p := Pow128(n - 1);
    assert Pow128(n) == 128 * p;
  }

  /** The signed encoding: the groups of v, as many as it takes to show its sign and no more. */
  lemma {:induction false} SlebIs(v: Int64)
    ensures var s := Sleb(v);
            && (forall i :: 0 <= i < |s| ==> GroupAt(s[i], v, i, |s|))
            && |s| > 0 && FitsSigned(v, |s|) && (|s| > 1 ==> !FitsSigned(v, |s| - 1))
    decreases if v < 0 then -(v as int) else v as int
  {
    var s := Sleb(v);
    if !(-64 <= v < 64) {
      SlebIs(v / 128);
      var rest := Sleb(v / 128);
      GroupsShift(v, rest);
      FitsSignedNext(v, |rest|);
      if |rest| > 1 {
        FitsSignedNext(v, |rest| - 1);
      }
    }
  }

  /** What the byte at pos does to the machine, by the numbers of the standard. */
  lemma MachineIsStandard(r: Regs, bytes: seq<Byte>, pos: nat)
    requires pos < |bytes|
    ensures var b := bytes[pos];
            && (b >= 13 ==>
                  var pc, line := r.pc + (b - 13) / 14, r.line - 5 + (b - 13) % 14;
                  StepAt(r, bytes, pos) == Step(Regs(pc, r.file, line, r.rows + [Row(pc, r.file, line)]), pos + 1))
            && (b == 2 ==> var u := ReadUleb(bytes, pos + 1); StepAt(r, bytes, pos) == Step(r.(pc := r.pc + u.value), u.pos))
            && (b == 3 ==> var u := ReadSleb(bytes, pos + 1); StepAt(r, bytes, pos) == Step(r.(line := r.line + ToSigned(u.value)), u.pos))
            && (b == 4 ==> var u := ReadUleb(bytes, pos + 1); StepAt(r, bytes, pos) == Step(r.(file := u.value), u.pos))
            && (b == 10 || b == 11 ==> StepAt(r, bytes, pos) == Step(r, pos + 1))
  {
  }

  /** The extended operation that starts a sequence: nine bytes long, it sets the address, here to 0. */
  lemma SetAddressIsStandard(r: Regs, after: seq<Byte>)
    ensures StepAt(r, [0, 9, 2, 0, 0, 0, 0, 0, 0, 0, 0] + after, 0) == Step(r.(pc := 0), 11)
  {
    assert Uleb(9) == [9];
    assert Encode(Extended(SET_ADDRESS_ZERO)) == [0, 9, 2, 0, 0, 0, 0, 0, 0, 0, 0];
    assert [] + Encode(Extended(SET_ADDRESS_ZERO)) + after == [0, 9, 2, 0, 0, 0, 0, 0, 0, 0, 0] + after;
    StepsOp(r, [], Extended(SET_ADDRESS_ZERO), after);
  }
}
