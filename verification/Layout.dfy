/** Where the sections of an output file go: their order, the segments they are loaded in, and their addresses
    and file offsets. */
module Layout {
  import opened Bytes

  datatype Kind = Symtab | Dynsym | Strtab | Hash | GnuHash | VersionInfo | Relx | PreinitArray | InitArray
                | FiniArray | Dynamic | Note | Nobits | OtherKind

  /** A section. allocRelocs: it has relocations that are themselves loaded. */
  datatype Sec = Sec(num: nat, named: bool, kind: Kind, stabStrings: bool, alloc: bool, write: bool, exec: bool,
                     tls: bool, allocRelocs: bool, align: nat, size: nat, offset: nat, addr: nat)

  /** What the order depends on besides the sections: the output format, and the indices of special sections. */
  datatype Target = Target(elf: bool, interp: int, got: int, pltRelocs: int, bssNum: nat)

  // Classes, which give the order

  const NOT_LOADED: nat := 0x700
  const NOT_IN_FILE: nat := 0x900

  function Group(s: Sec, elf: bool): (j: nat) {
    var j := if !s.named then 0x900 else if !s.alloc then 0x700 else if s.write && !s.tls then 0x200 else 0x100;
    if j >= 0x700 && !elf then 0x900 else j
  }

  /** Section i of n, which is of group j. */
  function Place(s: Sec, i: nat, n: nat, t: Target, j: nat): (k: nat)
    ensures k < 0x100
  {
    if s.kind == Symtab || s.kind == Dynsym then 0x10
    else if s.kind == Strtab && !s.stabStrings then (if i + 1 == n then 0xff else 0x11)
    else if s.kind == Hash || s.kind == GnuHash then 0x12
    else if s.kind == VersionInfo then 0x13
    else if s.kind == Relx then (if t.pltRelocs == i then 0x21 else 0x20)
    else if s.exec then 0x60
    else if s.tls then (if s.kind == Nobits then 0x41 else 0x40)
    else if s.kind == PreinitArray then 0x42
    else if s.kind == InitArray then 0x43
    else if s.kind == FiniArray then 0x44
    else if s.kind == Dynamic then 0x46
    else if t.got == i then 0x47
    else if s.allocRelocs && j == 0x100 then 0x45
    else if s.kind == Note then 0x08
    else if s.kind == Nobits then 0x70
    else if t.interp == i then 0x00
    else 0x50
  }

  function PlainClass(s: Sec, i: nat, n: nat, t: Target): (k: nat) {
    Group(s, t.elf) + Place(s, i, n, t, Group(s, t.elf)) + (if s.num <= t.bssNum then 1 else 0)
  }

  predicate BecomesRelro(k: nat) { k / 16 == 0x14 }

  function Class(s: Sec, i: nat, n: nat, t: Target): (k: nat) {
    var k := PlainClass(s, i, n, t);
    if BecomesRelro(k) then k + 0x100 else k
  }

  /** The section as the ordering leaves it: emptied if it cannot be in the file, writable if it is to be made
      read-only after relocation. */
  function Adjusted(s: Sec, i: nat, n: nat, t: Target): (r: Sec) {
    s.(size := if Group(s, t.elf) >= 0x700 && !t.elf then 0 else s.size,
       write := s.write || BecomesRelro(PlainClass(s, i, n, t)))
  }

  /** Whether the classification saw a note section. */
  predicate SeenAsNote(s: Sec, i: nat, n: nat, t: Target) {
    s.kind == Note && Place(s, i, n, t, Group(s, t.elf)) == 0x08
  }

  lemma LoadedIsAlloc(s: Sec, i: nat, n: nat, t: Target)
    ensures Class(s, i, n, t) < NOT_LOADED <==> s.named && s.alloc
  {
  }

  /** Zero-initialised data outside thread-local storage, as compilers emit it. */
  predicate IsBss(s: Sec) {
    s.kind == Nobits && !s.tls && s.write && !s.exec
  }

  // Segments

  datatype Perm = NoPerm | Perm(write: bool, exec: bool)

  /** What the second pass notes about a section: whether it is loaded and opens a segment. */
  datatype Flag = Unloaded | Loaded(perm: Perm, newPh: bool, relro: bool, tls: bool)

  function FlagFor(s: Sec, k: nat, last: Perm): (f: Flag) {
    if k >= NOT_LOADED then Unloaded
    else Loaded(Perm(s.write, s.exec), Perm(s.write, s.exec) != last && s.size > 0, k / 16 == 0x24, s.tls && s.size > 0)
  }

  /** The permissions of the segment open after a section. */
  function PermAfter(f: Flag, last: Perm): (p: Perm) {
    if f.Loaded? && f.newPh then f.perm else last
  }

  /** Sections, the order they are visited in, and a class for every place in that order. Place 0 is not used. */
  ghost predicate Sizes(secs: seq<Sec>, order: seq<nat>, cls: seq<nat>) {
    0 < |secs| == |order| == |cls| && forall q {:trigger order[q]} :: 0 <= q < |order| ==> order[q] < |secs|
  }

  ghost function PermAt(secs: seq<Sec>, order: seq<nat>, cls: seq<nat>, p: nat): (last: Perm)
    requires Sizes(secs, order, cls) && 1 <= p <= |order|
  {
    if p == 1 then NoPerm
    else
      var last := PermAt(secs, order, cls, p - 1);
      PermAfter(FlagFor(secs[order[p - 1]], cls[p - 1], last), last)
  }

  /** The flag of the section in place p. */
  ghost function FlagAt(secs: seq<Sec>, order: seq<nat>, cls: seq<nat>, p: nat): (f: Flag)
    requires Sizes(secs, order, cls) && 1 <= p < |order|
  {
    FlagFor(secs[order[p]], cls[p], PermAt(secs, order, cls, p))
  }

  ghost predicate AreFlags(flags: seq<Flag>, secs: seq<Sec>, order: seq<nat>, cls: seq<nat>) {
    && Sizes(secs, order, cls) && |flags| == |order|
    && forall p {:trigger flags[p]} :: 1 <= p < |order| ==> flags[p] == FlagAt(secs, order, cls, p)
  }

  /** How many segments are opened before place p. */
  function Opened(flags: seq<Flag>, p: nat): (n: nat)
    requires 1 <= p <= |flags|
  {
    if p == 1 then 0 else Opened(flags, p - 1) + (if flags[p - 1].Loaded? && flags[p - 1].newPh then 1 else 0)
  }

  // Addresses and offsets

  /** (x + a - 1) & ~(a - 1), for a power of two a. */
  function AlignUp(x: nat, a: nat): (y: nat)
    requires a > 0
    ensures x <= y < x + a
  {
    AlignUpBounds(x, a);
    (x + a - 1) / a * a
  }

  lemma AlignUpBounds(x: nat, a: nat)
    requires a > 0
    ensures x <= (x + a - 1) / a * a < x + a
  {
    var n := x + a - 1;
    assert n == n / a * a + n % a;
  }

  lemma AlignUpAligns(x: nat, a: nat)
    requires a > 0
    ensures AlignUp(x, a) % a == 0
  {
    DivUnique(AlignUp(x, a), a, (x + a - 1) / a, 0);
  }

  datatype Phdr = Phdr(offset: int, vaddr: int, filesz: int, memsz: int, align: nat, write: bool, exec: bool)

  /** The image base, the size of the headers at the start of the file, the alignment of segments, and whether
      a note section that was not seen as one would be recorded in the first header. */
  datatype Image = Image(elf: bool, base: nat, headers: nat, segAlign: nat, strayNotes: bool)

  datatype State = State(addr: nat, off: nat, loads: seq<Phdr>)

  function Start(im: Image): (st: State) {
    State(im.base + im.headers, im.headers, [])
  }

  predicate IsTbss(s: Sec) { s.kind == Nobits && s.tls }

  predicate OpensLater(st: State, f: Flag) { f.Loaded? && f.newPh && st.loads != [] }

  /** The address to align from: a new segment of an ELF file that starts within a page starts in the next one. */
  function From(st: State, f: Flag, im: Image): (a: nat)
    requires im.segAlign > 0
  {
    if OpensLater(st, f) && im.elf && st.addr % im.segAlign != 0 then st.addr + im.segAlign else st.addr
  }

  /** The alignment used: that of segments for a new segment of another format. */
  function AlignFor(s: Sec, st: State, f: Flag, im: Image): (a: nat) {
    if OpensLater(st, f) && !im.elf then im.segAlign else s.align
  }

  /** A section with its file offset and, if loaded, its address. */
  function Located(s: Sec, st: State, f: Flag, im: Image): (r: Sec)
    requires s.align > 0 && im.segAlign > 0
  {
    if f.Unloaded? then s.(offset := AlignUp(st.off, s.align))
    else
      var from := From(st, f, im);
      var addr := AlignUp(from, AlignFor(s, st, f, im));
      s.(offset := st.off + (addr - from), addr := addr)
  }

  function InFile(s: Sec): (n: nat) {
    if s.kind == Nobits then 0 else s.size
  }

  function Updated(ph: Phdr, addr: int, off: int): (r: Phdr) {
    ph.(filesz := off - ph.offset, memsz := addr - ph.vaddr)
  }

  function NewLoad(s: Sec, f: Flag, im: Image, first: bool): (ph: Phdr)
    requires f.Loaded? && f.perm.Perm?
  {
    Phdr(if first then 0 else s.offset, if first then im.base else s.addr, s.size, s.size, im.segAlign, s.write, f.perm.exec)
  }

  /** The headers after section s has been located: a new one if it opens a segment, and the last one grown. */
  function Loads(s: Sec, loads: seq<Phdr>, f: Flag, im: Image, addr: int, off: int): (r: seq<Phdr>)
    requires f.Loaded? && f.perm.Perm?
  {
    var more := if f.newPh then loads + [NewLoad(s, f, im, loads == [])] else loads;
    var grown := if more == [] then [] else more[|more| - 1 := Updated(more[|more| - 1], addr, off)];
    if s.kind == Note && im.strayNotes && grown != [] then grown[0 := Updated(grown[0], addr, off)] else grown
  }

  /** The state after section s has been located. */
  function After(s: Sec, st: State, f: Flag, im: Image): (r: State)
    requires f.Loaded? ==> f.perm.Perm?
  {
    if f.Unloaded? then st.(off := s.offset + InFile(s))
    else State(if f.tls && s.kind == Nobits then s.addr else s.addr + s.size, s.offset + InFile(s),
               Loads(s, st.loads, f, im, s.addr + s.size, s.offset + InFile(s)))
  }

  datatype Laid = Laid(st: State, secs: seq<Sec>)

  ghost predicate Fits(secs: seq<Sec>, order: seq<nat>, flags: seq<Flag>, im: Image) {
    && 0 < |secs| == |order| == |flags| && im.segAlign > 0
    && (forall q {:trigger order[q]} :: 0 <= q < |order| ==> order[q] < |secs|)
    && (forall i {:trigger secs[i]} :: 0 <= i < |secs| ==> secs[i].align > 0)
    && (forall q {:trigger flags[q]} :: 1 <= q < |order| && flags[q].Loaded? ==> flags[q].perm.Perm?)
  }

  /** The layout after the places before p. */
  ghost function RunTo(secs: seq<Sec>, order: seq<nat>, flags: seq<Flag>, im: Image, p: nat): (r: Laid)
    requires Fits(secs, order, flags, im) && 1 <= p <= |order|
    ensures |r.secs| == |secs| && forall i {:trigger r.secs[i]} :: 0 <= i < |secs| ==> r.secs[i].align > 0
  {
    if p == 1 then Laid(Start(im), secs)
    else
      var b := RunTo(secs, order, flags, im, p - 1);
      var i := order[p - 1];
      var s := Located(b.secs[i], b.st, flags[p - 1], im);
      Laid(After(s, b.st, flags[p - 1], im), b.secs[i := s])
  }
}
