/** The passes over the sections: sorting them, marking where segments start, and giving each its place. */
module LayoutWriter {
  import opened Wrappers
  import opened Layout
  import opened LayoutProof

  /** The state of the options that matter here. */
  datatype Options = Options(isDyn: bool, textAddr: Option<nat>, sectionAlign: nat, hasInterp: bool, hasDynamic: bool,
                             hasEhFrameHdr: bool)

  const ELF_START_ADDR: nat := 0x40_0000
  const ELF_PAGE_SIZE: nat := 0x1000
  const EHDR_SIZE: nat := 64
  const PHDR_SIZE: nat := 56
  const SHDR_SIZE: nat := 64

  // Sorting

  ghost predicate ClassesSorted(c: seq<nat>) {
    forall a, b :: 1 <= a < b < |c| ==> c[a] <= c[b]
  }

  /** Puts section i, of class k, after the sections so far that have no higher class. */
  method InsertSection(order: array<nat>, cls: array<nat>, i: nat, k: nat) returns (n: nat)
    requires 1 <= i < order.Length == cls.Length && order != cls && ClassesSorted(cls[..i])
    modifies order, cls
    ensures 1 <= n <= i
    ensures (forall a :: 1 <= a < n ==> old(cls[..i])[a] <= k) && forall a :: n <= a < i ==> k < old(cls[..i])[a]
    ensures order[..i + 1] == Inserted(old(order[..i]), n, i)
    ensures cls[..i + 1] == Inserted(old(cls[..i]), n, k)
  {
    hide Inserted;
    ghost var o, c := order[..i], cls[..i];
    n := i;
    while n > 1 && k < cls[n - 1]
      invariant 1 <= n <= i
      invariant forall a {:trigger order[a]} :: 0 <= a < n ==> order[a] == o[a]
      invariant forall a {:trigger cls[a]} :: 0 <= a < n ==> cls[a] == c[a]
      invariant forall a {:trigger order[a]} :: n < a <= i ==> order[a] == o[a - 1]
      invariant forall a {:trigger cls[a]} :: n < a <= i ==> cls[a] == c[a - 1]
      invariant forall a :: n <= a < i ==> k < c[a]
    {
      order[n], cls[n] := order[n - 1], cls[n - 1];
      n := n - 1;
    }
    order[n], cls[n] := i, k;
    assert n > 1 ==> c[n - 1] <= k;
    ShiftInserts(o, order[..i + 1], n, i);
    ShiftInserts(c, cls[..i + 1], n, k);
  }

  lemma ShiftInserts<T>(o: seq<T>, r: seq<T>, n: nat, x: T)
    requires |r| == |o| + 1 && n <= |o| && r[n] == x
    requires forall a {:trigger r[a]} :: 0 <= a < n ==> r[a] == o[a]
    requires forall a {:trigger r[a]} :: n < a < |r| ==> r[a] == o[a - 1]
    ensures r == Inserted(o, n, x)
  {
  }

  lemma SortedClasses(secs: seq<Sec>, t: Target, o: seq<nat>, c: seq<nat>)
    requires SortedBy(secs, t, o, c)
    ensures ClassesSorted(c)
  {
    hide Class;
    forall a, b | 1 <= a < b < |c|
      ensures c[a] <= c[b]
    {
      assert InOrder(c[a], o[a], c[b], o[b]);
    }
  }

  lemma NothingSorted(secs: seq<Sec>, t: Target, o: seq<nat>, c: seq<nat>)
    requires |o| == |c| == 1 <= |secs|
    ensures SortedBy(secs, t, o, c)
  {
  }

  lemma FirstPlaceIsFree(secs: seq<Sec>, t: Target, o: seq<nat>, c: seq<nat>)
    requires SortedBy(secs, t, o, c)
    ensures SortedBy(secs, t, o[0 := 0], c)
  {
    hide Class;
    assert o[0 := 0][1..] == o[1..];
  }

  /** Orders the sections, adjusting them on the way; reports whether a note section was seen. */
  method SortByClass(secs: array<Sec>, t: Target) returns (order: array<nat>, cls: array<nat>, notes: bool)
    requires secs.Length >= 1
    modifies secs
    ensures fresh(order) && fresh(cls) && order.Length == cls.Length == secs.Length && order[0] == 0
    ensures SortedBy(old(secs[..]), t, order[..], cls[..])
    ensures AdjustedFrom(old(secs[..]), secs[..], t) && secs[0] == old(secs[0])
    ensures notes <==> exists i :: 1 <= i < secs.Length && SeenAsNote(old(secs[i]), i, secs.Length, t)
  {
    hide Class, Adjusted, SeenAsNote, SortedBy;
    ghost var was := secs[..];
    order, cls := new nat[secs.Length], new nat[secs.Length];
    NothingSorted(was, t, order[..1], cls[..1]);
    notes := false;
    var i := 1;
    while i < secs.Length
      invariant 1 <= i <= secs.Length
      invariant SortedBy(was, t, order[..i], cls[..i])
      invariant forall x {:trigger secs[x]} :: 1 <= x < i ==> secs[x] == Adjusted(was[x], x, |was|, t)
      invariant (forall x {:trigger secs[x]} :: i <= x < |was| ==> secs[x] == was[x]) && secs[0] == was[0]
      invariant notes <==> exists x :: 1 <= x < i && SeenAsNote(was[x], x, |was|, t)
    {
      var s := secs[i];
      var k := Class(s, i, secs.Length, t);
      if SeenAsNote(s, i, secs.Length, t) {
        notes := true;
      }
      secs[i] := Adjusted(s, i, secs.Length, t);
      SortedClasses(was, t, order[..i], cls[..i]);
      ghost var o, c := order[..i], cls[..i];
      var n := InsertSection(order, cls, i, k);
      InsertKeepsSorted(was, t, o, c, n, k);
      i := i + 1;
    }
    assert order[..i] == order[..] && cls[..i] == cls[..];
    FirstPlaceIsFree(was, t, order[..], cls[..]);
    ghost var o := order[..];
    order[0] := 0;
    assert order[..] == o[0 := 0];
  }

  // Segments

  /** What the second pass finds out: how many sections go to the file, and how many segments and which other
      headers are needed. */
  datatype Counts = Counts(shnum: nat, loads: nat, tls: bool, relro: bool)

  ghost predicate InFileCount(cls: seq<nat>, p: nat, shnum: nat)
    requires 1 <= p <= |cls|
  {
    shnum == 1 + |set q | 1 <= q < p && cls[q] < NOT_IN_FILE|
  }

  lemma CountNext(cls: seq<nat>, p: nat, shnum: nat)
    requires 1 <= p < |cls| && InFileCount(cls, p, shnum)
    ensures InFileCount(cls, p + 1, shnum + (if cls[p] < NOT_IN_FILE then 1 else 0))
  {
    var a, b := set q | 1 <= q < p && cls[q] < NOT_IN_FILE, set q | 1 <= q < p + 1 && cls[q] < NOT_IN_FILE;
    assert b == if cls[p] < NOT_IN_FILE then a + {p} else a;
  }

  method MarkSegments(secs: array<Sec>, order: array<nat>, cls: array<nat>) returns (flags: array<Flag>, counts: Counts)
    requires Sizes(secs[..], order[..], cls[..])
    ensures fresh(flags) && AreFlags(flags[..], secs[..], order[..], cls[..])
    ensures counts.loads == Opened(flags[..], flags.Length) && InFileCount(cls[..], cls.Length, counts.shnum)
    ensures counts.tls <==> exists q :: 1 <= q < flags.Length && flags[q].Loaded? && flags[q].tls
    ensures counts.relro <==> exists q :: 1 <= q < flags.Length && flags[q].Loaded? && flags[q].relro
  {
    hide FlagFor, InFileCount;
    var n := secs.Length;
    ghost var ss, oo, cc := secs[..], order[..], cls[..];
    flags := new Flag[n](_ => Unloaded);
    var last, shnum, loads, tls, relro := NoPerm, 1, 0, false, false;
    var i := 1;
    NoneCounted(cc);
    while i < n
      invariant 1 <= i <= n && last == PermAt(ss, oo, cc, i) && loads == Opened(flags[..], i)
      invariant forall q {:trigger flags[q]} :: 1 <= q < i ==> flags[q] == FlagAt(ss, oo, cc, q)
      invariant InFileCount(cc, i, shnum)
      invariant tls <==> exists q :: 1 <= q < i && flags[q].Loaded? && flags[q].tls
      invariant relro <==> exists q :: 1 <= q < i && flags[q].Loaded? && flags[q].relro
    {
      assert oo[i] == order[i] && cc[i] == cls[i];
      CountNext(cc, i, shnum);
      if cls[i] < NOT_IN_FILE {
        shnum := shnum + 1;
      }
      var f := FlagFor(secs[order[i]], cls[i], last);
      ghost var before := flags[..];
      flags[i] := f;
      OpenedFrame(before, flags[..], i);
      if f.Loaded? {
        if f.newPh {
          last := f.perm;
          loads := loads + 1;
        }
        tls := tls || f.tls;
        relro := relro || f.relro;
      }
      i := i + 1;
    }
    counts := Counts(shnum, loads, tls, relro);
  }

  lemma NoneCounted(cls: seq<nat>)
    requires |cls| >= 1
    ensures InFileCount(cls, 1, 1)
  {
  }

  lemma {:induction false} OpenedFrame(a: seq<Flag>, b: seq<Flag>, p: nat)
    requires 1 <= p <= |a| == |b| && forall q :: 1 <= q < p ==> a[q] == b[q]
    ensures Opened(a, p) == Opened(b, p)
  {
    if p > 1 {
      OpenedFrame(a, b, p - 1);
    }
  }

  // Places

  /** update_phdr, for a header that is filled already. */
  method UpdatePhdr(phdr: array<Phdr>, k: nat, addr: nat, off: nat)
    requires k < phdr.Length
    modifies phdr
    ensures phdr[..] == old(phdr[..])[k := Updated(old(phdr[k]), addr, off)]
  {
    phdr[k] := phdr[k].(filesz := off - phdr[k].offset, memsz := addr - phdr[k].vaddr);
  }

  /** The headers, when section s has been given its place. */
  method GrowLoads(s: Sec, f: Flag, im: Image, phdr: array<Phdr>, n: nat, addr: nat, off: nat) returns (n': nat)
    requires f.Loaded? && f.perm.Perm? && n <= phdr.Length && (f.newPh ==> n < phdr.Length)
    modifies phdr
    ensures n' == n + (if f.newPh then 1 else 0)
    ensures phdr[..n'] == Loads(s, old(phdr[..n]), f, im, addr, off)
  {
    ghost var was := phdr[..n];
    n' := n;
    if f.newPh {
      phdr[n] := NewLoad(s, f, im, n == 0);
      n' := n + 1;
    }
    ghost var more := phdr[..n'];
    assert more == if f.newPh then was + [NewLoad(s, f, im, was == [])] else was;
    if n' > 0 {
      UpdatePhdr(phdr, n' - 1, addr, off);
      assert phdr[..n'] == more[n' - 1 := Updated(more[n' - 1], addr, off)];
      ghost var grown := phdr[..n'];
      if s.kind == Note && im.strayNotes {
        UpdatePhdr(phdr, 0, addr, off);
        assert phdr[..n'] == grown[0 := Updated(grown[0], addr, off)];
      }
    }
  }

  /** The address of a loaded section, and the one it was aligned from, when n segments have been opened. */
  method FindAddress(align: nat, f: Flag, im: Image, n: nat, addr: nat, ghost s: Sec, ghost st: State)
    returns (start: nat, place: nat)
    requires align > 0 && im.segAlign > 0 && f.Loaded? && align == s.align && addr == st.addr && n == |st.loads|
    ensures start == From(st, f, im) && place == AlignUp(start, AlignFor(s, st, f, im))
  {
    hide AlignUp;
    var a := align;
    start := addr;
    if f.newPh && n > 0 {
      if im.elf {
        if start % im.segAlign != 0 {
          start := start + im.segAlign;
        }
      } else {
        a := im.segAlign;
      }
    }
    place := AlignUp(start, a);
  }

  /** The place of a section. */
  method FindPlace(s: Sec, f: Flag, im: Image, n: nat, addr: nat, off: nat, ghost loads: seq<Phdr>) returns (r: Sec)
    requires s.align > 0 && im.segAlign > 0 && |loads| == n
    ensures r == Located(s, State(addr, off, loads), f, im)
  {
    hide AlignUp, From, AlignFor;
    if f.Unloaded? {
      r := s.(offset := AlignUp(off, s.align));
    } else {
      var start, place := FindAddress(s.align, f, im, n, addr, s, State(addr, off, loads));
      r := s.(offset := off + (place - start), addr := place);
    }
  }

  /** One turn of the layout: section i, with flag f. */
  method LocateSection(secs: array<Sec>, i: nat, f: Flag, im: Image, phdr: array<Phdr>, n: nat, addr: nat, off: nat)
    returns (n': nat, addr': nat, off': nat)
    requires i < secs.Length && secs[i].align > 0 && im.segAlign > 0 && (f.Loaded? ==> f.perm.Perm?)
    requires n <= phdr.Length && (f.Loaded? && f.newPh ==> n < phdr.Length)
    modifies secs, phdr
    ensures var s := Located(old(secs[i]), State(addr, off, old(phdr[..n])), f, im);
            && secs[..] == old(secs[..])[i := s]
            && n' <= phdr.Length && n' == n + (if f.Loaded? && f.newPh then 1 else 0)
            && State(addr', off', phdr[..n']) == After(s, State(addr, off, old(phdr[..n])), f, im)
  {
    hide Loads, Located;
    ghost var st := State(addr, off, phdr[..n]);
    var s := FindPlace(secs[i], f, im, n, addr, off, phdr[..n]);
    secs[i] := s;
    n', addr', off' := n, addr, s.offset;
    if s.kind != Nobits {
      off' := off' + s.size;
    }
    if f.Loaded? {
      addr' := s.addr + s.size;
      n' := GrowLoads(s, f, im, phdr, n, addr', off');
      if f.tls && s.kind == Nobits {
        addr' := addr' - s.size;
      }
    }
  }

  /** The bytes that headers take at the start of the file. */
  function HeaderBytes(elf: bool, phnum: nat, shnum: nat): (n: nat) {
    if elf then (EHDR_SIZE + phnum * PHDR_SIZE + 3) / 4 * 4 + shnum * SHDR_SIZE else 0
  }

  function HeaderCount(o: Options, c: Counts, notes: bool): (n: nat) {
    c.loads + (if o.hasInterp then 2 else 0) + (if o.hasDynamic then 1 else 0) + (if notes then 1 else 0)
    + (if c.tls then 1 else 0) + (if o.hasEhFrameHdr then 1 else 0) + (if c.relro then 1 else 0)
  }

  function Base(o: Options): (a: nat) {
    if o.textAddr.Some? then o.textAddr.value else if o.isDyn then 0 else ELF_START_ADDR
  }

  function SegmentAlign(o: Options): (a: nat)
    ensures a > 0
  {
    if o.sectionAlign == 0 then ELF_PAGE_SIZE else o.sectionAlign
  }

  /** The counts are those of the flags and classes, and the image makes room for the headers they call for. */
  ghost predicate HeadersFit(secs: seq<Sec>, t: Target, o: Options, flags: seq<Flag>, cls: seq<nat>, c: Counts,
                             im: Image) {
    var notes := exists i :: 1 <= i < |secs| && SeenAsNote(secs[i], i, |secs|, t);
    && 1 <= |cls| == |flags| && InFileCount(cls, |cls|, c.shnum) && c.loads == Opened(flags, |flags|)
    && (c.tls <==> exists q :: 1 <= q < |flags| && flags[q].Loaded? && flags[q].tls)
    && (c.relro <==> exists q :: 1 <= q < |flags| && flags[q].Loaded? && flags[q].relro)
    && im.headers == HeaderBytes(t.elf, HeaderCount(o, c, notes), c.shnum)
    && im.strayNotes == (!notes && !o.hasInterp)
  }

  /** How many sections go to the file, the null section included. */
  ghost function SectionHeaders(cls: seq<nat>): (n: nat) {
    1 + |set q | 1 <= q < |cls| && cls[q] < 0x900|
  }

  /** How many program headers the file needs. */
  ghost function ProgramHeaders(o: Options, loads: nat, notes: bool, flags: seq<Flag>): (n: nat) {
    loads
    + (if o.hasInterp then 2 else 0) // PT_PHDR and PT_INTERP
    + (if o.hasDynamic then 1 else 0)
    + (if notes then 1 else 0)
    + (if exists q :: 1 <= q < |flags| && flags[q].Loaded? && flags[q].tls then 1 else 0)
    + (if o.hasEhFrameHdr then 1 else 0)
    + (if exists q :: 1 <= q < |flags| && flags[q].Loaded? && flags[q].relro then 1 else 0)
  }

  /** The headers of an ELF file: one of 64 bytes, one of 56 for each program header and one of 64 for each section
      that goes to the file. Other formats make their own. */
  ghost function RoomForHeaders(elf: bool, phnum: nat, shnum: nat): (n: nat) {
    if elf then 64 + 56 * phnum + 64 * shnum else 0
  }

  /** Every section lies beyond the headers of an ELF file. */
  ghost predicate HeadersHaveRoom(secs: seq<Sec>, order: seq<nat>, flags: seq<Flag>, base: nat, phnum: nat, shnum: nat) {
    forall q {:trigger order[q]} :: 1 <= q < |order| == |flags| && order[q] < |secs| ==>
      && secs[order[q]].offset >= 64 + 56 * phnum + 64 * shnum
      && (flags[q].Loaded? ==> secs[order[q]].addr >= base + 64 + 56 * phnum + 64 * shnum)
  }

  lemma HeadersAre(secs: seq<Sec>, t: Target, o: Options, flags: seq<Flag>, cls: seq<nat>, c: Counts, im: Image,
                   notes: bool)
    requires HeadersFit(secs, t, o, flags, cls, c, im)
    requires notes <==> exists i :: 1 <= i < |secs| && SeenAsNote(secs[i], i, |secs|, t)
    ensures im.headers == RoomForHeaders(t.elf, ProgramHeaders(o, c.loads, notes, flags), SectionHeaders(cls))
  {
    hide SeenAsNote;
    RoomIs(t.elf, HeaderCount(o, c, notes), c.shnum);
  }

  lemma RoomIs(elf: bool, phnum: nat, shnum: nat)
    ensures HeaderBytes(elf, phnum, shnum) == RoomForHeaders(elf, phnum, shnum)
  {
    Rounded(16 + 14 * phnum);
  }

  lemma Rounded(k: nat)
    ensures (4 * k + 3) / 4 * 4 == 4 * k
  {
  }

  lemma HeadersFitIn(flags: seq<Flag>, im: Image, order: seq<nat>, r: Laid, phnum: nat, shnum: nat)
    requires im.headers == RoomForHeaders(true, phnum, shnum)
    requires InRange(r, order, flags, |order|) && ApartTo(r, order, flags, im, |order|)
    ensures HeadersHaveRoom(r.secs, order, flags, im.base, phnum, shnum)
  {
  }

  /** All turns. */
  method LocateAll(secs: array<Sec>, order: array<nat>, flags: array<Flag>, im: Image, phdr: array<Phdr>)
    returns (n: nat)
    requires Fits(secs[..], order[..], flags[..], im) && phdr.Length == Opened(flags[..], flags.Length)
    modifies secs, phdr
    ensures n == phdr.Length
    ensures RunTo(old(secs[..]), order[..], flags[..], im, order.Length).secs == secs[..]
    ensures RunTo(old(secs[..]), order[..], flags[..], im, order.Length).st.loads == phdr[..]
  {
    hide Located, After;
    ghost var ss, oo, ff := secs[..], order[..], flags[..];
    var addr: nat, off: nat := im.base + im.headers, im.headers;
    n := 0;
    var i := 1;
    while i < secs.Length
      invariant 1 <= i <= secs.Length && n == Opened(ff, i) <= phdr.Length
      invariant order[..] == oo && flags[..] == ff
      invariant RunTo(ss, oo, ff, im, i) == Laid(State(addr, off, phdr[..n]), secs[..])
    {
      OpenedGrows(ff, i + 1, |ff|);
      assert order[i] == oo[i] && flags[i] == ff[i];
      ghost var b := RunTo(ss, oo, ff, im, i);
      assert b.secs[oo[i]].align > 0;
      n, addr, off := LocateSection(secs, order[i], flags[i], im, phdr, n, addr, off);
      i := i + 1;
    }
    assert phdr[..n] == phdr[..];
  }

  lemma {:induction false} OpenedGrows(flags: seq<Flag>, a: nat, b: nat)
    requires 1 <= a <= b <= |flags|
    ensures Opened(flags, a) <= Opened(flags, b)
  {
    if a < b {
      OpenedGrows(flags, a, b - 1);
    }
  }

  lemma FlagsFit(secs: seq<Sec>, order: seq<nat>, cls: seq<nat>, flags: seq<Flag>, im: Image)
    requires AreFlags(flags, secs, order, cls) && im.segAlign > 0
    requires forall i {:trigger secs[i]} :: 0 <= i < |secs| ==> secs[i].align > 0
    ensures Fits(secs, order, flags, im) && TlsFlags(secs, order, flags)
  {
    forall q {:trigger flags[q]} | 1 <= q < |order| && flags[q].Loaded?
      ensures flags[q].perm.Perm? && (flags[q].tls ==> secs[order[q]].tls)
    {
      assert flags[q] == FlagAt(secs, order, cls, q);
    }
  }

  lemma SortFits(secs: seq<Sec>, adj: seq<Sec>, t: Target, order: seq<nat>, cls: seq<nat>)
    requires SortedBy(secs, t, order, cls) && AdjustedFrom(secs, adj, t) && |order| == |secs| && order[0] == 0
    requires adj[0] == secs[0] && forall i {:trigger secs[i]} :: 0 <= i < |secs| ==> secs[i].align > 0
    ensures Sizes(adj, order, cls) && forall i {:trigger adj[i]} :: 0 <= i < |adj| ==> adj[i].align > 0
  {
    hide Class;
    forall i {:trigger adj[i]} | 0 <= i < |adj|
      ensures adj[i].align > 0
    {
      assert secs[i].align > 0;
    }
  }

  /** The whole layout of sections whose alignments are powers of two: the sections with their places, and the
      headers of the loaded segments. */
  method LayoutSections(secs: array<Sec>, t: Target, o: Options)
    returns (order: array<nat>, phdr: array<Phdr>, ghost adj: seq<Sec>, ghost cls: seq<nat>, ghost flags: seq<Flag>, ghost im: Image)
    requires secs.Length >= 1 && forall i {:trigger secs[i]} :: 0 <= i < secs.Length ==> secs[i].align > 0
    modifies secs
    ensures fresh(order) && fresh(phdr) && order.Length == secs.Length && order[0] == 0
    ensures SortedBy(old(secs[..]), t, order[..], cls) && AdjustedFrom(old(secs[..]), adj, t)
    ensures AreFlags(flags, adj, order[..], cls) && Ready(adj, order[..], flags, im)
    ensures im.elf == t.elf && im.segAlign == (if o.sectionAlign == 0 then 0x1000 else o.sectionAlign)
    ensures im.base == Base(o) == if o.textAddr.Some? then o.textAddr.value else if o.isDyn then 0 else 0x40_0000
    ensures exists c: Counts :: c.loads == phdr.Length && HeadersFit(old(secs[..]), t, o, flags, cls, c, im)
    ensures RunTo(adj, order[..], flags, im, secs.Length).secs == secs[..]
    ensures RunTo(adj, order[..], flags, im, secs.Length).st.loads == phdr[..]
    ensures var notes := exists i :: 1 <= i < secs.Length && SeenAsNote(old(secs[i]), i, secs.Length, t);
            && im.headers == RoomForHeaders(t.elf, ProgramHeaders(o, phdr.Length, notes, flags), SectionHeaders(cls))
            && (t.elf ==> HeadersHaveRoom(secs[..], order[..], flags, Base(o), ProgramHeaders(o, phdr.Length, notes, flags), SectionHeaders(cls)))
  {
    hide RoomForHeaders, HeadersHaveRoom, ProgramHeaders, SectionHeaders, ApartTo;
    hide SortedBy, AdjustedFrom, AreFlags, RunTo, InFileCount, SeenAsNote, Opened, Fits, TlsFlags, Distinct, HeaderBytes, HeaderCount;
    ghost var was := secs[..];
    var classes, notes;
    order, classes, notes := SortByClass(secs, t);
    adj, cls := secs[..], classes[..];
    SortFits(was, adj, t, order[..], cls);
    SortedIsDistinct(was, t, order[..], cls);
    var marks, counts := MarkSegments(secs, order, classes);
    flags := marks[..];
    var image := Image(t.elf, Base(o), HeaderBytes(t.elf, HeaderCount(o, counts, notes), counts.shnum), SegmentAlign(o),
                       !notes && !o.hasInterp);
    im := image;
    FlagsFit(adj, order[..], cls, flags, im);
    assert HeadersFit(was, t, o, flags, cls, counts, im);
    phdr := new Phdr[counts.loads](_ => Phdr(0, 0, 0, 0, 0, false, false));
    var n := LocateAll(secs, order, marks, image, phdr);
    SectionsAreApart(adj, order[..], flags, im, |adj|);
    HeadersAre(was, t, o, flags, cls, counts, im, notes);
    if t.elf {
      HeadersFitIn(flags, im, order[..], RunTo(adj, order[..], flags, im, |adj|), ProgramHeaders(o, counts.loads, notes, flags),
                   SectionHeaders(cls));
    }
  }

  /** The sections of an ordinary program: apart from each other, segments in pages of their own, each section with
      contents loaded by a segment of its own permissions from its own place in the file, aligned where the alignment
      is kept; and, once there is a segment, all of them congruent to their offsets exactly if the base address is a multiple of the segment
      alignment. */
  lemma ConventionalLayout(secs: seq<Sec>, adj: seq<Sec>, t: Target, order: seq<nat>, cls: seq<nat>,
                           flags: seq<Flag>, im: Image)
    requires SortedBy(secs, t, order, cls) && |order| == |secs| && AdjustedFrom(secs, adj, t)
    requires AreFlags(flags, adj, order, cls) && Ready(adj, order, flags, im)
    requires Conventional(secs, t)
    ensures var r := RunTo(adj, order, flags, im, |order|);
            && ApartTo(r, order, flags, im, |order|)
            && SegmentsTo(r, adj, order, cls, flags, im, |order|) && PagesTo(r, order, flags, im, |order|)
            && (r.st.loads != [] ==> (Congruent(r.st.loads, im.segAlign) <==> im.base % im.segAlign == 0))
            && forall q: nat :: 1 <= q < |order| && KeepsAlignment(adj[order[q]], flags[q], im, Opened(flags, q) == 0) ==>
                 IsAligned(r.secs[order[q]], flags[q])
  {
    hide SortedBy, AdjustedFrom, AreFlags, Conventional, RunTo, ApartTo, Tidy, KeepsAlignment, IsAligned, Congruent, PagesTo;
    SortedIsTidy(secs, adj, t, order, cls, flags);
    SectionsAreApart(adj, order, flags, im, |order|);
    SegmentsCover(adj, order, cls, flags, im, |order|);
    PagesAreApart(adj, order, flags, im, |order|);
    var r := RunTo(adj, order, flags, im, |order|);
    if r.st.loads != [] {
      CongruentIffBaseAligned(r.st.loads, im.segAlign, im.base);
    }
    forall q: nat | 1 <= q < |order| && KeepsAlignment(adj[order[q]], flags[q], im, Opened(flags, q) == 0)
      ensures IsAligned(r.secs[order[q]], flags[q])
    {
      SectionsAreAligned(adj, order, flags, im, |order|, q);
    }
  }
}
