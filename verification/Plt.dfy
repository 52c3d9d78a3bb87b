/** The procedure linkage table: slots of machine code written while relocations are collected, and patched
    once the addresses of the table and of the global offset table are known. */
module Plt {
  import opened Bytes
  import opened Sections

  const SLOT: nat := 16
  const PTR_SIZE: nat := 8
  const REL_SIZE: nat := 24

  /** Little-endian bytes of the low 32 bits. */
  function Le32(n: int): (b: seq<Byte>)
    ensures |b| == 4
  {
    var w := Low32(n);
    [w % 256, w / 256 % 256, w / 0x1_0000 % 256, w / 0x100_0000 % 256]
  }

  function Read32(b: seq<Byte>, p: nat): (w: Word32)
    requires p + 4 <= |b|
  {
    b[p] as int + 256 * (b[p + 1] as int) + 0x1_0000 * (b[p + 2] as int) + 0x100_0000 * (b[p + 3] as int)
  }

  function Le64(n: int): (b: seq<Byte>)
    ensures |b| == 8
  {
    Le32(Low64(n)) + Le32(Low64(n) / 0x1_0000_0000)
  }

  function Read64(b: seq<Byte>, p: nat): (w: Word64)
    requires p + 8 <= |b|
  {
    Read32(b, p) + 0x1_0000_0000 * Read32(b, p + 4)
  }

  lemma WordOfBytes(w: Word32)
    ensures w % 256 + 256 * (w / 256 % 256) + 0x1_0000 * (w / 0x1_0000 % 256) + 0x100_0000 * (w / 0x100_0000 % 256) == w
  {
    assert w / 0x1_0000 == w / 256 / 256 && w / 0x100_0000 == w / 0x1_0000 / 256;
    assert w / 0x100_0000 < 256;
  }

  lemma Le32Reads(b: seq<Byte>, p: nat, n: int)
    requires p + 4 <= |b| && b[p..p + 4] == Le32(n)
    ensures Read32(b, p) == Low32(n)
  {
    hide Low32;
    var s, w := b[p..p + 4], Low32(n);
    assert s == [w % 256, w / 256 % 256, w / 0x1_0000 % 256, w / 0x100_0000 % 256];
    assert b[p] == s[0] && b[p + 1] == s[1] && b[p + 2] == s[2] && b[p + 3] == s[3];
    WordOfBytes(w);
  }

  lemma Le64Reads(b: seq<Byte>, p: nat, n: int)
    requires p + 8 <= |b| && b[p..p + 8] == Le64(n)
    ensures Read64(b, p) == Low64(n)
  {
    hide Le32, Read32;
    var s := b[p..p + 8];
    assert b[p..p + 4] == s[..4] == Le32(Low64(n));
    assert b[p + 4..p + 8] == s[4..] == Le32(Low64(n) / 0x1_0000_0000);
    Le32Reads(b, p, Low64(n));
    Le32Reads(b, p + 4, Low64(n) / 0x1_0000_0000);
  }

  /** Slot 0 as first written: push the second word of the GOT, jump through the third. */
  function FirstSlot(): (b: seq<Byte>)
    ensures |b| == SLOT
  {
    [0xff, 0x35] + Le32(PTR_SIZE) + [0xff, 0x25] + Le32(2 * PTR_SIZE) + [0, 0, 0, 0]
  }

  /** Any other slot as first written: jump through a GOT cell, push an index, jump to slot 0. */
  function NewSlot(gotOffset: nat, index: int, end: nat): (b: seq<Byte>)
    ensures |b| == SLOT
  {
    [0xff, 0x25] + Le32(gotOffset) + [0x68] + Le32(index) + [0xe9] + Le32(-(end as int))
  }

  /** Appends a slot, after slot 0 if the table is empty. relocSize is the size of the table's
      relocations, the one for this slot included. */
  method CreatePltEntry(plt: Section, gotOffset: Word32, relocSize: nat) returns (pltOffset: nat)
    requires plt.Valid()
    modifies plt`data, plt`dataOffset, plt`addrAlign, plt.data
    ensures plt.Valid() && (plt.data == old(plt.data) || fresh(plt.data))
    ensures pltOffset == if old(plt.Contents()) == [] then 16 else old(|plt.Contents()|)
    ensures plt.Contents() == (if old(plt.Contents()) == [] then FirstSlot() else old(plt.Contents()))
                              + NewSlot(gotOffset, relocSize / 24 - 1, pltOffset + 16)
  {
    if plt.dataOffset == 0 {
      plt.Append(FirstSlot());
    }
    pltOffset := plt.dataOffset;
    plt.Append(NewSlot(gotOffset, relocSize / REL_SIZE - 1, pltOffset + SLOT));
  }

  /** The table after creating slots for the first n of these GOT cells, each with its relocation index. */
  function Created(cells: seq<Word32>, idx: seq<int>, n: nat): (b: seq<Byte>)
    requires n <= |cells| == |idx|
    ensures |b| == if n == 0 then 0 else SLOT * (n + 1)
  {
    if n == 0 then []
    else (if n == 1 then FirstSlot() else Created(cells, idx, n - 1)) + NewSlot(cells[n - 1], idx[n - 1], SLOT * (n + 1))
  }

  /** Creating the entry for cell n, when the table's relocations take relocSize bytes, extends the table by the
      slot with the index of the last of them. */
  lemma CreatedStep(cells: seq<Word32>, idx: seq<int>, n: nat, relocSize: nat)
    requires n < |cells| == |idx| && idx[n] == relocSize / REL_SIZE - 1
    ensures var before := Created(cells, idx, n); var offset := if before == [] then SLOT else |before|;
            Created(cells, idx, n + 1) == (if before == [] then FirstSlot() else before)
                                          + NewSlot(cells[n], relocSize / REL_SIZE - 1, offset + SLOT)
  {
    hide FirstSlot, NewSlot;
  }

  /** The i-th 16 bytes. */
  function SlotAt(b: seq<Byte>, i: nat): (s: seq<Byte>)
    requires SLOT * i + SLOT <= |b|
    ensures |s| == SLOT
  {
    b[SLOT * i..SLOT * i + SLOT]
  }

  lemma {:induction false} CreatedSlots(cells: seq<Word32>, idx: seq<int>, n: nat, i: nat)
    requires i < n <= |cells| == |idx|
    ensures SlotAt(Created(cells, idx, n), 0) == FirstSlot()
    ensures SlotAt(Created(cells, idx, n), i + 1) == NewSlot(cells[i], idx[i], SLOT * (i + 2))
  {
    hide FirstSlot, NewSlot;
    var before := if n == 1 then FirstSlot() else Created(cells, idx, n - 1);
    SlotsOfSum(before, NewSlot(cells[n - 1], idx[n - 1], SLOT * (n + 1)), n);
    assert SlotAt(FirstSlot(), 0) == FirstSlot();
    if n > 1 {
      CreatedSlots(cells, idx, n - 1, if i < n - 1 then i else 0);
    }
  }

  lemma SlotsOfSum(a: seq<Byte>, s: seq<Byte>, n: nat)
    requires |a| == SLOT * n && |s| == SLOT
    ensures forall i :: 0 <= i < n ==> SlotAt(a + s, i) == SlotAt(a, i)
    ensures SlotAt(a + s, n) == s
  {
  }

  // What the patched slots do, read as instructions.

  /** ff 35 d32, ff 25 d32: push, or jump through, the word at d32 from the end of the instruction. */
  ghost predicate AddressesFrom(s: seq<Byte>, p: nat, opcode: Byte, at: int, target: int)
    requires p + 6 <= |s|
  {
    s[p] == 0xff && s[p + 1] == opcode && Low32(at + p + 6 + Read32(s, p + 2)) == Low32(target)
  }

  /** Slot 0 at address `at`: push GOT+8, jump through GOT+16. */
  ghost predicate FirstSlotRuns(s: seq<Byte>, at: int, got: int) {
    && |s| == SLOT && s[12] == s[13] == s[14] == s[15] == 0
    && AddressesFrom(s, 0, 0x35, at, got + PTR_SIZE) && AddressesFrom(s, 6, 0x25, at, got + 2 * PTR_SIZE)
  }

  /** A slot at address `at`: jump through its cell, push its index, jump to the start of the table. */
  ghost predicate SlotRuns(s: seq<Byte>, at: int, cell: int, index: int, start: int) {
    && |s| == SLOT
    && AddressesFrom(s, 0, 0x25, at, cell)
    && s[6] == 0x68 && Read32(s, 7) == Low32(index)
    && s[11] == 0xe9 && Low32(at + SLOT + Read32(s, 12)) == Low32(start)
  }

  /** b with 4 bytes at p replaced by what add32le leaves there. */
  function Add32(b: seq<Byte>, p: nat, x: int): (r: seq<Byte>)
    requires p + 4 <= |b|
    ensures |r| == |b|
  {
    b[..p] + Le32(Read32(b, p) + x) + b[p + 4..]
  }

  lemma Add32Reads(b: seq<Byte>, p: nat, x: int)
    requires p + 4 <= |b|
    ensures Read32(Add32(b, p, x), p) == Low32(Read32(b, p) + x)
    ensures forall k :: 0 <= k < |b| && !(p <= k < p + 4) ==> Add32(b, p, x)[k] == b[k]
  {
    var r := Add32(b, p, x);
    assert r[p..p + 4] == Le32(Read32(b, p) + x);
    Le32Reads(r, p, Read32(b, p) + x);
  }

  /** The displacement x of the table from the GOT, as relocate_plt computes it. */
  function Displacement(got: int, plt: int): (x: int) {
    ToInt(got - plt - 6)
  }

  lemma LowSum(a: int, b: int)
    ensures Low32(a + Low32(b)) == Low32(a + b) && Low32(a + ToInt(b)) == Low32(a + b)
  {
  }

  lemma FirstSlotFields()
    ensures var s := FirstSlot();
            && s[0] == 0xff && s[1] == 0x35 && Read32(s, 2) == Low32(PTR_SIZE)
            && s[6] == 0xff && s[7] == 0x25 && Read32(s, 8) == Low32(2 * PTR_SIZE)
            && s[12] == s[13] == s[14] == s[15] == 0
  {
    hide Low32, Read32, Le32;
    var s := FirstSlot();
    assert s[2..6] == Le32(PTR_SIZE) && s[8..12] == Le32(2 * PTR_SIZE);
    Le32Reads(s, 2, PTR_SIZE);
    Le32Reads(s, 8, 2 * PTR_SIZE);
  }

  lemma NewSlotFields(gotOffset: nat, index: int, end: nat)
    ensures var s := NewSlot(gotOffset, index, end);
            && s[0] == 0xff && s[1] == 0x25 && Read32(s, 2) == Low32(gotOffset)
            && s[6] == 0x68 && Read32(s, 7) == Low32(index)
            && s[11] == 0xe9 && Read32(s, 12) == Low32(-(end as int))
  {
    hide Low32, Read32, Le32;
    var s := NewSlot(gotOffset, index, end);
    assert s[2..6] == Le32(gotOffset) && s[7..11] == Le32(index) && s[12..16] == Le32(-(end as int));
    Le32Reads(s, 2, gotOffset);
    Le32Reads(s, 7, index);
    Le32Reads(s, 12, -(end as int));
  }

  /** Adding the displacement to a field that holds v makes the instruction address got + v. */
  lemma FieldPatched(s: seq<Byte>, p: nat, opcode: Byte, v: nat, x: int, at: int, got: int)
    requires p + 6 <= |s| && s[p] == 0xff && s[p + 1] == opcode && Read32(s, p + 2) == Low32(v) && v < TWO_32
    requires Low32(x) == Low32(got - at - p - 6)
    ensures AddressesFrom(Add32(s, p + 2, x), p, opcode, at, got + v)
  {
    hide Low32, Read32, Add32;
    Add32Reads(s, p + 2, x);
    PatchAddresses(at + p + 6, v, got, x, got - at - p - 6);
  }

  lemma FirstSlotPatched(got: int, plt: int)
    ensures FirstSlotRuns(Add32(Add32(FirstSlot(), 2, Displacement(got, plt)), 8, Displacement(got, plt) - 6), plt, got)
  {
    hide Low32, Read32, Add32, FirstSlot, Displacement;
    var x := Displacement(got, plt);
    var s, s1 := FirstSlot(), Add32(FirstSlot(), 2, x);
    var s2 := Add32(s1, 8, x - 6);
    FirstSlotFields();
    DisplacementLow(got, plt, 0);
    DisplacementLow(got, plt, 6);
    FieldPatched(s, 0, 0x35, PTR_SIZE, x, plt, got);
    Add32Reads(s, 2, x);
    SameRead(s, s1, 8);
    FieldPatched(s1, 6, 0x25, 2 * PTR_SIZE, x - 6, plt, got);
    Add32Reads(s1, 8, x - 6);
    SameRead(s1, s2, 2);
  }

  lemma SlotPatched(got: int, plt: int, cell: Word32, index: int, i: nat)
    ensures SlotRuns(Add32(NewSlot(cell, index, SLOT * (i + 2)), 2, Displacement(got, plt) - SLOT * (i + 1)),
                     plt + SLOT * (i + 1), got + cell, index, plt)
  {
    hide Low32, Read32, Add32, NewSlot, Displacement;
    var at, x := plt + SLOT * (i + 1), Displacement(got, plt) - SLOT * (i + 1);
    var s := NewSlot(cell, index, SLOT * (i + 2));
    var s1 := Add32(s, 2, x);
    NewSlotFields(cell, index, SLOT * (i + 2));
    DisplacementLow(got, plt, SLOT * (i + 1));
    FieldPatched(s, 0, 0x25, cell, x, at, got);
    Add32Reads(s, 2, x);
    SameRead(s, s1, 7);
    SameRead(s, s1, 12);
    LowSum(at + SLOT, -(SLOT * (i + 2)));
  }

  lemma SameRead(s: seq<Byte>, t: seq<Byte>, p: nat)
    requires |s| == |t| && p + 4 <= |s| && forall k :: p <= k < p + 4 ==> s[k] == t[k]
    ensures Read32(s, p) == Read32(t, p)
  {
  }

  /** A word that held v and had d added, modulo 2^32, addresses got + v from `next`. */
  lemma PatchAddresses(next: int, v: nat, got: int, x: int, d: int)
    requires v < TWO_32 && Low32(x) == Low32(d) && next + d == got
    ensures Low32(next + Low32(Low32(v) + x)) == Low32(got + v)
  {
    LowSum(next, v + x);
    LowSum(next + v, x);
    LowSum(next + v, d);
    assert Low32(v) == v;
  }

  lemma DisplacementLow(got: int, plt: int, k: int)
    ensures Low32(Displacement(got, plt) - k) == Low32(got - plt - 6 - k)
  {
  }

  lemma SliceAround(b: seq<Byte>, p: nat, m: seq<Byte>, o: nat, n: nat)
    requires |m| == 4 && o <= p && p + 4 <= o + n <= |b|
    ensures (b[..p] + m + b[p + 4..])[o..o + n] == b[o..o + n][..p - o] + m + b[o..o + n][p - o + 4..]
  {
  }

  lemma SliceApart(b: seq<Byte>, p: nat, m: seq<Byte>, o: nat, n: nat)
    requires |m| == 4 && p + 4 <= |b| && o + n <= |b| && (p + 4 <= o || o + n <= p)
    ensures (b[..p] + m + b[p + 4..])[o..o + n] == b[o..o + n]
  {
  }

  /** Patching slot i leaves the other slots alone. */
  lemma SlotOfAdd32(b: seq<Byte>, i: nat, q: nat, x: int, j: nat)
    requires q + 4 <= SLOT && SLOT * i + SLOT <= |b| && SLOT * j + SLOT <= |b|
    ensures SlotAt(Add32(b, SLOT * i + q, x), j) == if j == i then Add32(SlotAt(b, i), q, x) else SlotAt(b, j)
  {
    hide Le32, Read32;
    var p := SLOT * i + q;
    var m := Le32(Read32(b, p) + x);
    if j == i {
      SameRead32(b, SLOT * i, q);
      SliceAround(b, p, m, SLOT * i, SLOT);
    } else {
      SliceApart(b, p, m, SLOT * j, SLOT);
    }
  }

  lemma SameRead32(b: seq<Byte>, o: nat, q: nat)
    requires q + 4 <= SLOT && o + SLOT <= |b|
    ensures Read32(b, o + q) == Read32(b[o..o + SLOT], q)
  {
  }

  /** Adds x to the 32-bit word at p, in a buffer of which `size` bytes are in use. */
  method Add32le(a: array<Byte>, size: nat, p: nat, x: int)
    requires p + 4 <= size <= a.Length
    modifies a
    ensures a[..size] == Add32(old(a[..size]), p, x)
  {
    hide Low32;
    ghost var was := a[..size];
    var w := Low32(a[p] as int + 256 * (a[p + 1] as int) + 0x1_0000 * (a[p + 2] as int) + 0x100_0000 * (a[p + 3] as int) + x);
    a[p], a[p + 1], a[p + 2], a[p + 3] := w % 256, w / 256 % 256, w / 0x1_0000 % 256, w / 0x100_0000 % 256;
    assert a[p..p + 4] == Le32(Read32(was, p) + x);
    assert a[..size] == a[..p] + a[p..p + 4] + a[p + 4..size];
    assert a[..p] == was[..p] && a[p + 4..size] == was[p + 4..];
  }

  /** The first n slots have been patched; the others are as they were created. */
  ghost predicate PatchedUpTo(b: seq<Byte>, cells: seq<Word32>, idx: seq<int>, n: nat, plt: int, got: int) {
    && cells != [] && |idx| == |cells| && |b| == SLOT * (|cells| + 1)
    && (n == 0 ==> SlotAt(b, 0) == FirstSlot())
    && (n > 0 ==> FirstSlotRuns(SlotAt(b, 0), plt, got))
    && (forall i :: 0 <= i < |cells| ==> PatchedSlot(b, cells, idx, n, plt, got, i))
  }

  ghost predicate PatchedSlot(b: seq<Byte>, cells: seq<Word32>, idx: seq<int>, n: nat, plt: int, got: int, i: nat)
    requires i < |cells| == |idx| && |b| == SLOT * (|cells| + 1)
  {
    if i + 1 < n then SlotRuns(SlotAt(b, i + 1), plt + SLOT * (i + 1), got + cells[i], idx[i], plt)
    else SlotAt(b, i + 1) == NewSlot(cells[i], idx[i], SLOT * (i + 2))
  }

  /** The table is finished: every slot does what it should. */
  ghost predicate TableRuns(b: seq<Byte>, cells: seq<Word32>, idx: seq<int>, plt: int, got: int) {
    && |b| == SLOT * (|cells| + 1) && |idx| == |cells|
    && FirstSlotRuns(SlotAt(b, 0), plt, got)
    && forall i :: 0 <= i < |cells| ==>
         SlotRuns(SlotAt(b, i + 1), plt + SLOT * (i + 1), got + cells[i], idx[i], plt)
  }

  lemma PatchFirst(b: seq<Byte>, cells: seq<Word32>, idx: seq<int>, plt: int, got: int)
    requires PatchedUpTo(b, cells, idx, 0, plt, got)
    ensures var x := Displacement(got, plt);
            PatchedUpTo(Add32(Add32(b, 2, x), 8, x - 6), cells, idx, 1, plt, got)
  {
    hide Low32, Add32, FirstSlot, NewSlot, Displacement, FirstSlotRuns, SlotRuns;
    var x := Displacement(got, plt);
    var b1 := Add32(b, 2, x);
    var b2 := Add32(b1, 8, x - 6);
    FirstSlotPatched(got, plt);
    SlotOfAdd32(b, 0, 2, x, 0);
    SlotOfAdd32(b1, 0, 8, x - 6, 0);
    forall i | 0 <= i < |cells|
      ensures PatchedSlot(b2, cells, idx, 1, plt, got, i)
    {
      assert PatchedSlot(b, cells, idx, 0, plt, got, i);
      SlotOfAdd32(b, 0, 2, x, i + 1);
      SlotOfAdd32(b1, 0, 8, x - 6, i + 1);
    }
  }

  lemma PatchNext(b: seq<Byte>, cells: seq<Word32>, idx: seq<int>, n: nat, plt: int, got: int)
    requires PatchedUpTo(b, cells, idx, n, plt, got) && 0 < n <= |cells|
    ensures PatchedUpTo(Add32(b, SLOT * n + 2, Displacement(got, plt) - SLOT * n), cells, idx, n + 1, plt, got)
  {
    hide Low32, Add32, FirstSlot, NewSlot, Displacement, FirstSlotRuns, SlotRuns;
    var x, m := Displacement(got, plt) - SLOT * n, n + 1;
    var b1 := Add32(b, SLOT * n + 2, x);
    SlotPatched(got, plt, cells[n - 1], idx[n - 1], n - 1);
    SlotOfAdd32(b, n, 2, x, 0);
    forall i | 0 <= i < |cells|
      ensures PatchedSlot(b1, cells, idx, m, plt, got, i)
    {
      assert PatchedSlot(b, cells, idx, n, plt, got, i);
      SlotOfAdd32(b, n, 2, x, i + 1);
    }
  }

  lemma CreatedIsUnpatched(cells: seq<Word32>, idx: seq<int>, plt: int, got: int)
    requires cells != [] && |idx| == |cells|
    ensures PatchedUpTo(Created(cells, idx, |cells|), cells, idx, 0, plt, got)
  {
    hide FirstSlot, NewSlot;
    CreatedSlots(cells, idx, |cells|, 0);
    forall i | 0 <= i < |cells|
      ensures PatchedSlot(Created(cells, idx, |cells|), cells, idx, 0, plt, got, i)
    {
      CreatedSlots(cells, idx, |cells|, i);
    }
  }

  lemma AllPatched(b: seq<Byte>, cells: seq<Word32>, idx: seq<int>, plt: int, got: int)
    requires PatchedUpTo(b, cells, idx, |cells| + 1, plt, got)
    ensures TableRuns(b, cells, idx, plt, got)
  {
    hide FirstSlot, NewSlot, FirstSlotRuns, SlotRuns;
    forall i | 0 <= i < |cells|
      ensures SlotRuns(SlotAt(b, i + 1), plt + SLOT * (i + 1), got + cells[i], idx[i], plt)
    {
      assert PatchedSlot(b, cells, idx, |cells| + 1, plt, got, i);
    }
  }

  /** Slot 0: both of its instructions. */
  method PatchFirstSlot(data: array<Byte>, size: nat, plt: int, got: int, ghost cells: seq<Word32>, ghost idx: seq<int>)
    requires size <= data.Length && PatchedUpTo(data[..size], cells, idx, 0, plt, got)
    modifies data
    ensures PatchedUpTo(data[..size], cells, idx, 1, plt, got)
  {
    PatchFirst(data[..size], cells, idx, plt, got);
    hide Low32, Add32, FirstSlot, NewSlot, PatchedSlot;
    var x := Displacement(got, plt);
    Add32le(data, size, 2, x);
    Add32le(data, size, 8, x - 6);
  }

  /** The loop over the slots. */
  method PatchSlots(data: array<Byte>, size: nat, plt: int, got: int, ghost cells: seq<Word32>, ghost idx: seq<int>)
    requires size <= data.Length && size == SLOT * (|cells| + 1) && PatchedUpTo(data[..size], cells, idx, 0, plt, got)
    modifies data
    ensures TableRuns(data[..size], cells, idx, plt, got)
  {
    hide Low32, Add32, FirstSlot, NewSlot, PatchedUpTo, TableRuns;
    var x := Displacement(got, plt);
    PatchFirstSlot(data, size, plt, got, cells, idx);
    var p := SLOT;
    ghost var n: nat := 1;
    while p < size
      invariant p == SLOT * n && 1 <= n <= |cells| + 1
      invariant PatchedUpTo(data[..size], cells, idx, n, plt, got)
    {
      PatchNext(data[..size], cells, idx, n, plt, got);
      Add32le(data, size, p + 2, x - p);
      p := p + SLOT;
      n := n + 1;
    }
    AllPatched(data[..size], cells, idx, plt, got);
  }

  /** The address the n-th GOT cell is given: the push in its own slot, as a C int. */
  function PushAddress(plt: int, n: nat): (x: int) {
    ToInt(plt + SLOT + 6 + SLOT * n)
  }

  /** The GOT cells are apart from each other and inside the GOT. */
  ghost predicate CellsApart(cells: seq<Word32>, size: nat) {
    && (forall i :: 0 <= i < |cells| ==> cells[i] as int + PTR_SIZE <= size)
    && (forall i, j :: 0 <= i < j < |cells| ==> cells[i] as int + PTR_SIZE <= cells[j])
  }

  /** Stores 64 bits at p. */
  method Write64le(a: array<Byte>, size: nat, p: nat, x: int)
    requires p + 8 <= size <= a.Length
    modifies a
    ensures a[p..p + 8] == Le64(x)
    ensures forall k :: 0 <= k < size && !(p <= k < p + 8) ==> a[k] == old(a[k])
  {
    var bytes := Le64(x);
    forall k | 0 <= k < 8 {
      a[p + k] := bytes[k];
    }
  }

  /** The first n cells hold the addresses of the pushes in their slots. */
  ghost predicate CellsFilled(g: seq<Byte>, cells: seq<Word32>, n: nat, plt: int)
    requires n <= |cells|
  {
    forall i :: 0 <= i < n ==> cells[i] as int + PTR_SIZE <= |g| && Read64(g, cells[i]) == Low64(PushAddress(plt, i))
  }

  lemma Read64Frame(g: seq<Byte>, g': seq<Byte>, p: nat)
    requires p + 8 <= |g| && p + 8 <= |g'| && forall k :: p <= k < p + 8 ==> g'[k] == g[k]
    ensures Read64(g', p) == Read64(g, p)
  {
  }

  lemma FillNext(g: seq<Byte>, g': seq<Byte>, cells: seq<Word32>, n: nat, plt: int)
    requires n < |cells| && CellsApart(cells, |g|) && |g'| == |g| && CellsFilled(g, cells, n, plt)
    requires g'[cells[n]..cells[n] as int + 8] == Le64(PushAddress(plt, n))
    requires forall k :: 0 <= k < |g| && !(cells[n] <= k < cells[n] as int + 8) ==> g'[k] == g[k]
    ensures CellsFilled(g', cells, n + 1, plt)
  {
    hide Le64, Low64, PushAddress;
    Le64Reads(g', cells[n], PushAddress(plt, n));
    forall i | 0 <= i < n
      ensures Read64(g', cells[i]) == Read64(g, cells[i])
    {
      Read64Frame(g, g', cells[i]);
    }
  }

  /** The loop over the relocations of the table, whose offsets are the cells. */
  method FillCells(data: array<Byte>, size: nat, plt: int, cells: seq<Word32>)
    requires size <= data.Length && CellsApart(cells, size)
    modifies data
    ensures CellsFilled(data[..size], cells, |cells|, plt)
    ensures forall k :: 0 <= k < size && (forall i :: 0 <= i < |cells| ==> !(cells[i] <= k < cells[i] as int + PTR_SIZE)) ==>
              data[k] == old(data[k])
  {
    hide Le64, Low64, CellsFilled;
    CellsFilledNone(data[..size], cells, plt);
    var x, i := PushAddress(plt, 0), 0;
    while i < |cells|
      invariant 0 <= i <= |cells| && x == PushAddress(plt, i)
      invariant CellsFilled(data[..size], cells, i, plt)
      invariant forall k :: 0 <= k < size && (forall j :: 0 <= j < |cells| ==> !(cells[j] <= k < cells[j] as int + PTR_SIZE)) ==>
                  data[k] == old(data[k])
    {
      ghost var g := data[..size];
      Write64le(data, size, cells[i], x);
      FillNext(g, data[..size], cells, i, plt);
      PushStep(plt, i);
      x := ToInt(x + SLOT);
      i := i + 1;
    }
  }

  lemma CellsFilledNone(g: seq<Byte>, cells: seq<Word32>, plt: int)
    ensures CellsFilled(g, cells, 0, plt)
  {
  }

  lemma PushStep(plt: int, n: nat)
    ensures ToInt(PushAddress(plt, n) + SLOT) == PushAddress(plt, n + 1)
  {
    LowSum(SLOT, plt + SLOT + 6 + SLOT * n);
  }

  /** Finishes the table, once its address and that of the GOT are known. The table's relocations give the GOT
      cells to fill, which need not be those of its slots. */
  method RelocatePlt(plt: Section, got: Section, pltAddr: Word64, gotAddr: Word64, relocs: seq<Word32>,
                     ghost cells: seq<Word32>, ghost idx: seq<int>)
    requires plt.Valid() && got.Valid() && plt.data != got.data && |idx| == |cells|
    requires plt.Contents() == Created(cells, idx, |cells|) && CellsApart(relocs, got.dataOffset)
    modifies plt.data, got.data
    ensures cells != [] ==> TableRuns(plt.Contents(), cells, idx, pltAddr, gotAddr)
    ensures CellsFilled(got.Contents(), relocs, |relocs|, pltAddr)
  {
    hide PatchedUpTo, TableRuns, CellsFilled, Created;
    if plt.dataOffset > 0 {
      CreatedIsUnpatched(cells, idx, pltAddr, gotAddr);
      PatchSlots(plt.data, plt.dataOffset, pltAddr, gotAddr, cells, idx);
    }
    FillCells(got.data, got.dataOffset, pltAddr, relocs);
  }

  // The finished table, byte by byte

  /** The n bytes from p on as a number, the least significant one first. */
  function Little(b: seq<Byte>, p: nat, n: nat): (w: nat)
    requires p + n <= |b|
    decreases n
  {
    if n == 0 then 0 else b[p] + 256 * Little(b, p + 1, n - 1)
  }

  lemma LittleReads(b: seq<Byte>, p: nat)
    ensures p + 4 <= |b| ==> Read32(b, p) == Little(b, p, 4)
    ensures p + 8 <= |b| ==> Read64(b, p) == Little(b, p, 8)
  {
    if p + 4 <= |b| {
      LittleFour(b, p, 0);
    }
    if p + 8 <= |b| {
      LittleFour(b, p, 4);
      LittleFour(b, p + 4, 0);
    }
  }

  lemma LittleFour(b: seq<Byte>, p: nat, n: nat)
    requires p + 4 + n <= |b|
    ensures Little(b, p, 4 + n) == Read32(b, p) + 0x1_0000_0000 * Little(b, p + 4, n)
  {
    hide Little;
    LittleNext(b, p, 3 + n);
    LittleNext(b, p + 1, 2 + n);
    LittleNext(b, p + 2, 1 + n);
    LittleNext(b, p + 3, n);
  }

  lemma LittleNext(b: seq<Byte>, p: nat, n: nat)
    requires p + 1 + n <= |b|
    ensures Little(b, p, 1 + n) == b[p] + 256 * Little(b, p + 1, n)
  {
  }

  /** The 32-bit displacement at p, counted from `next`, leads to the target. */
  ghost predicate Leads(b: seq<Byte>, p: nat, next: int, target: int)
    requires p + 4 <= |b|
  {
    (next + Little(b, p, 4) - target) % 0x1_0000_0000 == 0
  }

  /** The code of the finished table: slot 0 pushes the word at got + 8 and jumps through the one at got + 16. Slot
      i + 1 jumps through its cell, pushes its index and jumps to slot 0. */
  ghost predicate TableCode(b: seq<Byte>, cells: seq<Word32>, idx: seq<int>, plt: int, got: int) {
    && |b| == 16 + 16 * |cells| && |idx| == |cells|
    && b[0] == 0xff && b[1] == 0x35 && Leads(b, 2, plt + 6, got + 8)
    && b[6] == 0xff && b[7] == 0x25 && Leads(b, 8, plt + 12, got + 16) && b[12] == b[13] == b[14] == b[15] == 0
    && forall i {:trigger cells[i]} :: 0 <= i < |cells| ==> SlotCode(b, 16 + 16 * i, cells[i], idx[i], plt, got)
  }

  ghost predicate SlotCode(b: seq<Byte>, o: nat, cell: Word32, index: int, plt: int, got: int)
    requires o + 16 <= |b|
  {
    && b[o] == 0xff && b[o + 1] == 0x25 && Leads(b, o + 2, plt + o + 6, got + cell)
    && b[o + 6] == 0x68 && (Little(b, o + 7, 4) - index) % 0x1_0000_0000 == 0
    && b[o + 11] == 0xe9 && Leads(b, o + 12, plt + o + 16, plt)
  }

  lemma LowEqual(x: int, y: int)
    requires Low32(x) == Low32(y)
    ensures (x - y) % 0x1_0000_0000 == 0
  {
  }

  lemma SlotIsCode(b: seq<Byte>, i: nat, cell: Word32, index: int, plt: int, got: int)
    requires 16 * i + 16 <= |b| && SlotRuns(SlotAt(b, i), plt + 16 * i, got + cell, index, plt)
    ensures SlotCode(b, 16 * i, cell, index, plt, got)
  {
    hide Low32, Read32, Little;
    var s, o := SlotAt(b, i), 16 * i;
    SameRead32(b, o, 2);
    SameRead32(b, o, 7);
    SameRead32(b, o, 12);
    LittleReads(b, o + 2);
    LittleReads(b, o + 7);
    LittleReads(b, o + 12);
    LowEqual(plt + o + 6 + Read32(b, o + 2), got + cell);
    LowEqual(plt + o + 16 + Read32(b, o + 12), plt);
    LowOfWord(Read32(b, o + 7));
    LowEqual(Read32(b, o + 7), index);
  }

  lemma LowOfWord(w: Word32)
    ensures Low32(w) == w
  {
  }

  /** What relocate_plt leaves behind is that code. */
  lemma TableIsCode(b: seq<Byte>, cells: seq<Word32>, idx: seq<int>, plt: int, got: int)
    requires TableRuns(b, cells, idx, plt, got)
    ensures TableCode(b, cells, idx, plt, got)
  {
    hide SlotRuns, SlotCode, Low32, Read32, Little;
    var s := SlotAt(b, 0);
    assert s == b[..16];
    SameRead32(b, 0, 2);
    SameRead32(b, 0, 8);
    LittleReads(b, 2);
    LittleReads(b, 8);
    LowEqual(plt + 6 + Read32(b, 2), got + 8);
    LowEqual(plt + 12 + Read32(b, 8), got + 16);
    forall i {:trigger cells[i]} | 0 <= i < |cells|
      ensures SlotCode(b, 16 + 16 * i, cells[i], idx[i], plt, got)
    {
      SlotIsCode(b, i + 1, cells[i], idx[i], plt, got);
    }
  }

  /** If every entry has its own relocation, slot i + 1 pushes i, and its cell holds the address of that push,
      as the table has been given that address as a C int. */
  lemma EachEntryIsItsOwn(b: seq<Byte>, g: seq<Byte>, cells: seq<Word32>, plt: int, got: int, i: nat)
    requires var idx := seq(|cells|, k => k);
             TableRuns(b, cells, idx, plt, got) && CellsFilled(g, cells, |cells|, plt) && i < |cells|
    ensures 16 * i + 32 <= |b| && SlotCode(b, 16 + 16 * i, cells[i], i, plt, got)
    ensures cells[i] + 8 <= |g| && Little(g, cells[i], 8) == Low64(ToInt(plt + 16 + 16 * i + 6))
  {
    hide SlotCode, TableRuns, CellsFilled, Low64, ToInt, Little;
    var idx := seq(|cells|, k => k);
    TableIsCode(b, cells, idx, plt, got);
    var cell := cells[i];
    assert idx[i] == i;
    CellLeadsBack(g, cells, plt, i);
  }

  lemma CellLeadsBack(g: seq<Byte>, cells: seq<Word32>, plt: int, i: nat)
    requires i < |cells| && CellsFilled(g, cells, |cells|, plt)
    ensures cells[i] + 8 <= |g| && Little(g, cells[i], 8) == Low64(ToInt(plt + 16 + 16 * i + 6))
  {
    hide Read64, Low64, ToInt, Little;
    LittleReads(g, cells[i]);
    assert plt + SLOT + 6 + SLOT * i == plt + 16 + 16 * i + 6;
  }

  /** A cell holds the address of its push, all 64 bits of it, exactly when that address survives being
      kept in a C int. */
  lemma CellIsExact(plt: nat, n: nat)
    requires plt + 16 + 6 + 16 * n < TWO_64
    ensures var a := plt + 16 + 6 + 16 * n;
            Low64(PushAddress(plt, n)) == a <==> a < 0x8000_0000 || a >= TWO_64 - 0x8000_0000
  {
  }

  /** A jump or push that addresses its target modulo 2^32 reaches it, with the displacement sign-extended,
      exactly when the target is within 31 bits. */
  lemma DisplacementIsExact(next: int, d: Word32, target: int)
    requires Low32(next + d) == Low32(target)
    ensures next + ToInt(d) == target <==> -0x8000_0000 <= target - next < 0x8000_0000
  {
    assert (next + d - target) % 0x1_0000_0000 == 0;
  }
}
