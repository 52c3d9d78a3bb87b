/** What the layout guarantees: sections apart from each other in memory and in the file, aligned, and loaded
    by segments that map the file where the sections say. */
module LayoutProof {
  import opened Bytes
  import opened Layout

  /** Places name different sections. */
  ghost predicate Distinct(order: seq<nat>) {
    forall a, b :: 0 <= a < b < |order| ==> order[a] != order[b]
  }

  // Apart

  /** The section in a place, with its flag, lies before where the next one may start. */
  predicate Behind(s: Sec, f: Flag, st: State) {
    && (f.Loaded? && !IsTbss(s) ==> s.addr + s.size <= st.addr)
    && s.offset + InFile(s) <= st.off
  }

  /** An earlier section lies before a later one: in memory if both are loaded, unless the earlier one is
      zero-initialised thread-local data, and in the file. */
  predicate Ordered(a: Sec, fa: Flag, b: Sec, fb: Flag) {
    && (fa.Loaded? && fb.Loaded? && !IsTbss(a) ==> a.addr + a.size <= b.addr)
    && a.offset + InFile(a) <= b.offset
  }

  /** The section lies after the headers, in memory and in the file. */
  predicate PastHeaders(s: Sec, f: Flag, im: Image) {
    (f.Loaded? ==> s.addr >= im.base + im.headers) && s.offset >= im.headers
  }

  /** Nothing but the place of a section is decided here. */
  predicate Same(a: Sec, b: Sec) {
    a == b.(offset := a.offset, addr := a.addr)
  }

  lemma StepMoves(s: Sec, st: State, f: Flag, im: Image)
    requires s.align > 0 && im.segAlign > 0 && (f.Loaded? ==> f.perm.Perm?) && (f.Loaded? && f.tls ==> s.tls)
    ensures var r := Located(s, st, f, im); var st' := After(r, st, f, im);
            && Same(r, s) && st.addr <= st'.addr && st.off <= r.offset && Behind(r, f, st')
            && (f.Loaded? ==> st.addr <= From(st, f, im) <= r.addr && r.offset - st.off == r.addr - From(st, f, im))
            && st'.off == r.offset + InFile(r)
            && (f.Unloaded? ==> st'.addr == st.addr)
  {
    hide AlignUp, Loads;
  }

  ghost predicate TlsFlags(secs: seq<Sec>, order: seq<nat>, flags: seq<Flag>)
    requires |order| == |flags| && forall q {:trigger order[q]} :: 0 <= q < |order| ==> order[q] < |secs|
  {
    forall q {:trigger flags[q]} :: 1 <= q < |flags| && flags[q].Loaded? && flags[q].tls ==> secs[order[q]].tls
  }

  /** Same inputs everywhere: places name different sections and flags agree with them. */
  ghost predicate Ready(secs: seq<Sec>, order: seq<nat>, flags: seq<Flag>, im: Image) {
    Fits(secs, order, flags, im) && Distinct(order) && TlsFlags(secs, order, flags)
  }

  lemma {:induction false} OnlyPlacesChange(secs: seq<Sec>, order: seq<nat>, flags: seq<Flag>, im: Image, p: nat,
                                            i: nat)
    requires Fits(secs, order, flags, im) && 1 <= p <= |order| && i < |secs|
    ensures Same(RunTo(secs, order, flags, im, p).secs[i], secs[i])
  {
    hide Located, After, Same;
    SameIs(secs[i]);
    if p > 1 {
      OnlyPlacesChange(secs, order, flags, im, p - 1, i);
      var b := RunTo(secs, order, flags, im, p - 1);
      if order[p - 1] == i {
        LocatedIsSame(b.secs[i], secs[i], b.st, flags[p - 1], im);
      }
    }
  }

  lemma SameIs(s: Sec)
    ensures Same(s, s)
  {
  }

  lemma LocatedIsSame(s: Sec, s0: Sec, st: State, f: Flag, im: Image)
    requires s.align > 0 && im.segAlign > 0 && Same(s, s0)
    ensures Same(Located(s, st, f, im), s0)
  {
  }

  /** From b to r, the section in place p has been located and nothing else has changed. */
  ghost predicate Stepped(b: Laid, r: Laid, order: seq<nat>, flags: seq<Flag>, im: Image, p: nat) {
    && p < |order| == |flags| && |b.secs| == |r.secs| && im.segAlign > 0
    && order[p] < |b.secs| && b.secs[order[p]].align > 0
    && (flags[p].Loaded? ==> flags[p].perm.Perm? && (flags[p].tls ==> b.secs[order[p]].tls))
    && r.secs[order[p]] == Located(b.secs[order[p]], b.st, flags[p], im)
    && r.st == After(r.secs[order[p]], b.st, flags[p], im)
    && (forall q {:trigger order[q]} :: 1 <= q < p ==> order[q] < |r.secs| && r.secs[order[q]] == b.secs[order[q]])
  }

  lemma RunStep(secs: seq<Sec>, order: seq<nat>, flags: seq<Flag>, im: Image, p: nat)
    requires Ready(secs, order, flags, im) && 1 <= p < |order|
    ensures var b, r := RunTo(secs, order, flags, im, p), RunTo(secs, order, flags, im, p + 1);
            Stepped(b, r, order, flags, im, p) && Same(b.secs[order[p]], secs[order[p]])
  {
    hide Located, After;
    OnlyPlacesChange(secs, order, flags, im, p, order[p]);
  }

  lemma StartsEmpty(secs: seq<Sec>, order: seq<nat>, flags: seq<Flag>, im: Image)
    requires Fits(secs, order, flags, im)
    ensures RunTo(secs, order, flags, im, 1) == Laid(Start(im), secs)
  {
  }

  ghost predicate InRange(r: Laid, order: seq<nat>, flags: seq<Flag>, p: nat) {
    1 <= p <= |order| == |flags| && forall q {:trigger order[q]} :: 0 <= q < |order| ==> order[q] < |r.secs|
  }

  ghost predicate ApartTo(r: Laid, order: seq<nat>, flags: seq<Flag>, im: Image, p: nat)
    requires InRange(r, order, flags, p)
  {
    && im.base + im.headers <= r.st.addr && im.headers <= r.st.off
    && (forall q {:trigger order[q]} :: 1 <= q < p ==>
          Behind(r.secs[order[q]], flags[q], r.st) && PastHeaders(r.secs[order[q]], flags[q], im))
    && (forall q1, q2 {:trigger order[q1], order[q2]} :: 1 <= q1 < q2 < p ==>
          Ordered(r.secs[order[q1]], flags[q1], r.secs[order[q2]], flags[q2]))
  }

  lemma ApartStep(b: Laid, r: Laid, order: seq<nat>, flags: seq<Flag>, im: Image, p: nat)
    requires InRange(b, order, flags, p) && InRange(r, order, flags, p + 1)
    requires Stepped(b, r, order, flags, im, p) && ApartTo(b, order, flags, im, p)
    ensures ApartTo(r, order, flags, im, p + 1)
  {
    hide Located, After, From, IsTbss, InFile;
    StepMoves(b.secs[order[p]], b.st, flags[p], im);
  }

  /** Loaded sections are apart in memory, unless they are zero-initialised thread-local data, and all
      sections are apart in the file, in the order they are visited, after the headers. */
  lemma {:induction false} SectionsAreApart(secs: seq<Sec>, order: seq<nat>, flags: seq<Flag>, im: Image, p: nat)
    requires Ready(secs, order, flags, im) && 1 <= p <= |order|
    ensures ApartTo(RunTo(secs, order, flags, im, p), order, flags, im, p)
  {
    hide RunTo, Located, After, Stepped;
    if p > 1 {
      SectionsAreApart(secs, order, flags, im, p - 1);
      RunStep(secs, order, flags, im, p - 1);
      ApartStep(RunTo(secs, order, flags, im, p - 1), RunTo(secs, order, flags, im, p), order, flags, im, p - 1);
    } else {
      StartsEmpty(secs, order, flags, im);
    }
  }

  // Pages

  function Page(a: nat, m: nat): (p: nat)
    requires m > 0
  {
    a / m
  }

  lemma PageGrows(a: nat, b: nat, m: nat)
    requires m > 0 && a <= b
    ensures Page(a, m) <= Page(b, m)
  {
    if a / m > b / m {
      MulAtLeast(m, a / m - b / m);
    }
  }

  /** A number that is no multiple of m lies in an earlier page than the next one, and a multiple in a later page
      than anything below it. */
  lemma PageAfter(a: nat, m: nat)
    requires m > 0
    ensures Page(a + m, m) == Page(a, m) + 1
    ensures a > 0 && a % m == 0 ==> Page(a - 1, m) < Page(a, m)
  {
    DivUnique(a + m, m, a / m + 1, a % m);
    if a > 0 && a % m == 0 {
      assert a == m * (a / m);
      DivUnique(a - 1, m, a / m - 1, m - 1);
    }
  }

  /** A section that opens a segment, other than the first, lies in a later page than all that comes before. */
  lemma NewSegmentNewPage(s: Sec, st: State, f: Flag, im: Image)
    requires s.align > 0 && im.segAlign > 0 && OpensLater(st, f) && st.addr > 0
    ensures Page(st.addr - 1, im.segAlign) < Page(Located(s, st, f, im).addr, im.segAlign)
  {
    hide AlignUp;
    var m, r := im.segAlign, Located(s, st, f, im);
    PageAfter(st.addr, m);
    PageGrows(st.addr - 1, st.addr, m);
    if st.addr % m == 0 {
      PageGrows(st.addr, r.addr, m);
    } else if im.elf {
      PageGrows(st.addr + m, r.addr, m);
    } else {
      AlignUpAligns(st.addr, m);
      PageAfter(r.addr, m);
      PageGrows(st.addr - 1, r.addr - 1, m);
    }
  }

  /** The last byte of the first section is in an earlier page than the address. */
  predicate PageBefore(s: Sec, f: Flag, addr: nat, m: nat)
    requires m > 0
  {
    f.Loaded? && !IsTbss(s) && s.size > 0 ==> s.addr + s.size <= addr && Page(s.addr + s.size - 1, m) < Page(addr, m)
  }

  /** So far, whatever belongs to an earlier segment is in an earlier page. */
  ghost predicate PagesTo(r: Laid, order: seq<nat>, flags: seq<Flag>, im: Image, p: nat)
    requires InRange(r, order, flags, p) && im.segAlign > 0
  {
    && (forall q {:trigger order[q]} :: 1 <= q < p && 0 < Opened(flags, q + 1) < Opened(flags, p) ==>
          PageBefore(r.secs[order[q]], flags[q], r.st.addr, im.segAlign))
    && (forall q1, q2 {:trigger order[q1], order[q2]} ::
          1 <= q1 < q2 < p && flags[q2].Loaded? && 0 < Opened(flags, q1 + 1) < Opened(flags, q2 + 1) ==>
            PageBefore(r.secs[order[q1]], flags[q1], r.secs[order[q2]].addr, im.segAlign))
  }

  lemma PageStays(s: Sec, f: Flag, a: nat, b: nat, m: nat)
    requires m > 0 && PageBefore(s, f, a, m) && a <= b
    ensures PageBefore(s, f, b, m)
  {
    PageGrows(a, b, m);
  }

  lemma PageByNewSegment(s: Sec, f: Flag, st: State, n: Sec, g: Flag, im: Image)
    requires n.align > 0 && im.segAlign > 0 && OpensLater(st, g) && Behind(s, f, st)
    ensures var r := Located(n, st, g, im); PageBefore(s, f, r.addr, im.segAlign)
  {
    hide Page, AlignUp, IsTbss;
    if f.Loaded? && !IsTbss(s) && s.size > 0 {
      NewSegmentNewPage(n, st, g, im);
      PageGrows(s.addr + s.size - 1, st.addr - 1, im.segAlign);
    }
  }

  /** Where section p goes, whatever is in an earlier segment is in an earlier page. */
  lemma PlacePages(b: Laid, order: seq<nat>, flags: seq<Flag>, im: Image, p: nat, q: nat)
    requires InRange(b, order, flags, p) && im.segAlign > 0 && p < |order| && b.secs[order[p]].align > 0
    requires ApartTo(b, order, flags, im, p) && PagesTo(b, order, flags, im, p)
    requires |b.st.loads| == Opened(flags, p) && flags[p].Loaded? && (flags[p].tls ==> b.secs[order[p]].tls) && flags[p].perm.Perm?
    requires 1 <= q < p && 0 < Opened(flags, q + 1) < Opened(flags, p + 1)
    ensures PageBefore(b.secs[order[q]], flags[q], Located(b.secs[order[p]], b.st, flags[p], im).addr, im.segAlign)
  {
    hide Located, After, Page, IsTbss, PageBefore;
    var s, f, n, g := b.secs[order[q]], flags[q], b.secs[order[p]], flags[p];
    StepMoves(n, b.st, g, im);
    NoneOpened(flags, q + 1, p);
    if g.newPh {
      PageByNewSegment(s, f, b.st, n, g, im);
    } else {
      PageStays(s, f, b.st.addr, Located(n, b.st, g, im).addr, im.segAlign);
    }
  }

  lemma {:induction false} NoneOpened(flags: seq<Flag>, a: nat, b: nat)
    requires 1 <= a <= b <= |flags|
    ensures Opened(flags, a) <= Opened(flags, b)
  {
    if a < b {
      NoneOpened(flags, a, b - 1);
    }
  }

  lemma PagesStep(b: Laid, r: Laid, order: seq<nat>, flags: seq<Flag>, im: Image, p: nat)
    requires InRange(b, order, flags, p) && InRange(r, order, flags, p + 1)
    requires Stepped(b, r, order, flags, im, p) && ApartTo(b, order, flags, im, p) && PagesTo(b, order, flags, im, p)
    requires |b.st.loads| == Opened(flags, p)
    ensures PagesTo(r, order, flags, im, p + 1)
  {
    hide Located, After, PageBefore, Behind, PastHeaders, Ordered, Stepped, ApartTo;
    SectionsStay(b, r, order, flags, im, p);
    forall q {:trigger order[q]} | 1 <= q < p + 1 && 0 < Opened(flags, q + 1) < Opened(flags, p + 1)
      ensures PageBefore(r.secs[order[q]], flags[q], r.st.addr, im.segAlign)
    {
      PageStep(b, r, order, flags, im, p, q);
    }
    forall q {:trigger order[q]} | 1 <= q < p && flags[p].Loaded? && 0 < Opened(flags, q + 1) < Opened(flags, p + 1)
      ensures PageBefore(r.secs[order[q]], flags[q], r.secs[order[p]].addr, im.segAlign)
    {
      PageStep(b, r, order, flags, im, p, q);
    }
  }

  lemma SectionsStay(b: Laid, r: Laid, order: seq<nat>, flags: seq<Flag>, im: Image, p: nat)
    requires InRange(b, order, flags, p) && InRange(r, order, flags, p + 1) && Stepped(b, r, order, flags, im, p)
    ensures forall q {:trigger order[q]} :: 1 <= q < p ==> r.secs[order[q]] == b.secs[order[q]]
    ensures im.segAlign > 0
  {
    hide Located, After;
  }

  /** Place q of an earlier segment, once section p is located. */
  lemma PageStep(b: Laid, r: Laid, order: seq<nat>, flags: seq<Flag>, im: Image, p: nat, q: nat)
    requires InRange(b, order, flags, p) && InRange(r, order, flags, p + 1)
    requires Stepped(b, r, order, flags, im, p) && ApartTo(b, order, flags, im, p) && PagesTo(b, order, flags, im, p)
    requires |b.st.loads| == Opened(flags, p)
    requires 1 <= q < p + 1 && 0 < Opened(flags, q + 1) < Opened(flags, p + 1)
    ensures q < p && PageBefore(r.secs[order[q]], flags[q], r.st.addr, im.segAlign)
    ensures flags[p].Loaded? ==> PageBefore(r.secs[order[q]], flags[q], r.secs[order[p]].addr, im.segAlign)
  {
    hide Located, After, PageBefore, ApartTo;
    AfterPlace(b.secs[order[p]], b.st, flags[p], im);
    if flags[p].Loaded? {
      PlacePages(b, order, flags, im, p, q);
      PageStays(b.secs[order[q]], flags[q], r.secs[order[p]].addr, r.st.addr, im.segAlign);
    } else {
      StepMoves(b.secs[order[p]], b.st, flags[p], im);
    }
  }

  lemma AfterPlace(s: Sec, st: State, f: Flag, im: Image)
    requires s.align > 0 && im.segAlign > 0 && (f.Loaded? ==> f.perm.Perm?)
    ensures var r := Located(s, st, f, im);
            (f.Loaded? ==> r.addr <= After(r, st, f, im).addr) && (f.Unloaded? ==> After(r, st, f, im).addr == st.addr)
  {
    hide AlignUp, Loads;
  }

  /** Segments never share a page in memory: whatever has contents lies in an earlier page than anything loaded by
      a later segment. */
  lemma {:induction false} PagesAreApart(secs: seq<Sec>, order: seq<nat>, flags: seq<Flag>, im: Image, p: nat)
    requires Ready(secs, order, flags, im) && 1 <= p <= |order|
    ensures PagesTo(RunTo(secs, order, flags, im, p), order, flags, im, p)
  {
    hide RunTo, Located, After, Stepped, ApartTo, PageBefore;
    if p > 1 {
      PagesAreApart(secs, order, flags, im, p - 1);
      SectionsAreApart(secs, order, flags, im, p - 1);
      RunStep(secs, order, flags, im, p - 1);
      LoadsAreOpened(secs, order, flags, im, p - 1);
      PagesStep(RunTo(secs, order, flags, im, p - 1), RunTo(secs, order, flags, im, p), order, flags, im, p - 1);
    } else {
      StartsEmpty(secs, order, flags, im);
    }
  }

  // Aligned

  lemma ModTrans(x: nat, a: nat, b: nat)
    requires a > 0 && b > 0 && x % a == 0 && a % b == 0
    ensures x % b == 0
  {
    var q, k := x / a, a / b;
    assert x == a * q && a == b * k;
    assert x == b * (k * q);
    DivUnique(x, b, k * q, 0);
  }

  /** A section is aligned, unless it opens a segment other than the first in another format than ELF, where
      such segments have their own, smaller, alignment. */
  predicate KeepsAlignment(s: Sec, f: Flag, im: Image, first: bool)
    requires s.align > 0
  {
    im.elf || f.Unloaded? || !f.newPh || first || im.segAlign % s.align == 0
  }

  predicate IsAligned(s: Sec, f: Flag)
    requires s.align > 0
  {
    if f.Loaded? then s.addr % s.align == 0 else s.offset % s.align == 0
  }

  lemma LocatedIsAligned(s: Sec, st: State, f: Flag, im: Image)
    requires s.align > 0 && im.segAlign > 0 && KeepsAlignment(s, f, im, st.loads == [])
    ensures IsAligned(Located(s, st, f, im), f)
  {
    hide AlignUp;
    if f.Unloaded? {
      AlignUpAligns(st.off, s.align);
    } else {
      AlignUpAligns(From(st, f, im), AlignFor(s, st, f, im));
      if AlignFor(s, st, f, im) != s.align {
        ModTrans(Located(s, st, f, im).addr, im.segAlign, s.align);
      }
    }
  }

  /** There is one header for every segment opened so far. */
  lemma {:induction false} LoadsAreOpened(secs: seq<Sec>, order: seq<nat>, flags: seq<Flag>, im: Image, p: nat)
    requires Ready(secs, order, flags, im) && 1 <= p <= |order|
    ensures |RunTo(secs, order, flags, im, p).st.loads| == Opened(flags, p)
  {
    hide RunTo, Located, Loads;
    if p > 1 {
      LoadsAreOpened(secs, order, flags, im, p - 1);
      RunStep(secs, order, flags, im, p - 1);
      var b, s, f := RunTo(secs, order, flags, im, p - 1), RunTo(secs, order, flags, im, p).secs[order[p - 1]], flags[p - 1];
      if f.Loaded? {
        LoadsStep(s, b.st.loads, f, im, s.addr + s.size, s.offset + InFile(s));
      }
    } else {
      StartsEmpty(secs, order, flags, im);
    }
  }

  lemma {:induction false} SectionsAreAligned(secs: seq<Sec>, order: seq<nat>, flags: seq<Flag>, im: Image, p: nat,
                                              q: nat)
    requires Ready(secs, order, flags, im) && 1 <= q < p <= |order|
    requires KeepsAlignment(secs[order[q]], flags[q], im, Opened(flags, q) == 0)
    ensures IsAligned(RunTo(secs, order, flags, im, p).secs[order[q]], flags[q])
  {
    hide RunTo, Located, After, KeepsAlignment, IsAligned;
    RunStep(secs, order, flags, im, p - 1);
    if q < p - 1 {
      SectionsAreAligned(secs, order, flags, im, p - 1, q);
    } else {
      var b := RunTo(secs, order, flags, im, p - 1);
      LoadsAreOpened(secs, order, flags, im, q);
      SameKeeps(b.secs[order[q]], secs[order[q]], flags[q], im, b.st.loads == []);
      LocatedIsAligned(b.secs[order[q]], b.st, flags[q], im);
    }
  }

  lemma SameKeeps(a: Sec, b: Sec, f: Flag, im: Image, first: bool)
    requires a.align > 0 && b.align > 0 && Same(a, b) && KeepsAlignment(b, f, im, first)
    ensures KeepsAlignment(a, f, im, first)
  {
  }

  /** A section is aligned from every state, with or without an open segment as the case may be, exactly if its
      alignment is kept. */
  lemma AlignedIffKept(s: Sec, f: Flag, im: Image, first: bool)
    requires s.align > 0 && im.segAlign > 0
    ensures KeepsAlignment(s, f, im, first)
            <==> forall st: State :: (st.loads == [] <==> first) ==> IsAligned(Located(s, st, f, im), f)
  {
    hide IsAligned, AlignUp, From, AlignFor;
    if KeepsAlignment(s, f, im, first) {
      forall st: State | st.loads == [] <==> first
        ensures IsAligned(Located(s, st, f, im), f)
      {
        LocatedIsAligned(s, st, f, im);
      }
    } else {
      LandsOnSegment(s, f, im);
    }
  }

  /** A state at the segment alignment itself puts such a section there. */
  lemma LandsOnSegment(s: Sec, f: Flag, im: Image)
    requires s.align > 0 && im.segAlign > 0 && !KeepsAlignment(s, f, im, false)
    ensures exists st: State :: st.loads != [] && !IsAligned(Located(s, st, f, im), f)
  {
    var st := State(im.segAlign, 0, [Phdr(0, 0, 0, 0, 0, false, false)]);
    UpToItself(im.segAlign);
    assert Located(s, st, f, im).addr == im.segAlign;
  }

  lemma UpToItself(m: nat)
    requires m > 0
    ensures AlignUp(m, m) == m
  {
    DivUnique(m + m - 1, m, 1, m - 1);
  }

  // A program of two sections, code and data, where the data wants an alignment of two pages.

  const CODE := Sec(1, true, OtherKind, false, true, false, true, false, false, 16, 16, 0, 0)
  const DATA := Sec(2, true, OtherKind, false, true, true, false, false, false, 0x2000, 8, 0, 0)
  const TWO_SECTIONS := [Sec(0, false, OtherKind, false, false, false, false, false, false, 1, 0, 0, 0), CODE, DATA]
  const TWO_FLAGS := [Unloaded, Loaded(Perm(false, true), true, false, false), Loaded(Perm(true, false), true, false, false)]
  const NOT_ELF := Target(false, -1, -1, -1, 0)
  const FLAT_IMAGE := Image(false, 0x40_0000, 0, 0x1000, true)

  /** In a format other than ELF, its layout puts the data at an odd page. */
  lemma SegmentAlignmentWins()
    ensures SortedBy(TWO_SECTIONS, NOT_ELF, [0, 1, 2], [0, 0x160, 0x250])
    ensures AdjustedFrom(TWO_SECTIONS, TWO_SECTIONS, NOT_ELF)
    ensures AreFlags(TWO_FLAGS, TWO_SECTIONS, [0, 1, 2], [0, 0x160, 0x250])
    ensures Ready(TWO_SECTIONS, [0, 1, 2], TWO_FLAGS, FLAT_IMAGE)
    ensures var s := RunTo(TWO_SECTIONS, [0, 1, 2], TWO_FLAGS, FLAT_IMAGE, 3).secs[2];
            s.addr == 0x40_1000 && !IsAligned(s, TWO_FLAGS[2])
  {
    TwoAreSorted();
    TwoAreFlagged();
    TwoAreLaidOut();
  }

  lemma TwoAreSorted()
    ensures SortedBy(TWO_SECTIONS, NOT_ELF, [0, 1, 2], [0, 0x160, 0x250])
    ensures AdjustedFrom(TWO_SECTIONS, TWO_SECTIONS, NOT_ELF)
  {
    assert Class(CODE, 1, 3, NOT_ELF) == 0x160 && Class(DATA, 2, 3, NOT_ELF) == 0x250;
    assert Adjusted(CODE, 1, 3, NOT_ELF) == CODE && Adjusted(DATA, 2, 3, NOT_ELF) == DATA;
    assert [0, 1, 2][1..] == [1, 2];
  }

  lemma TwoAreFlagged()
    ensures AreFlags(TWO_FLAGS, TWO_SECTIONS, [0, 1, 2], [0, 0x160, 0x250])
    ensures Ready(TWO_SECTIONS, [0, 1, 2], TWO_FLAGS, FLAT_IMAGE)
  {
    var order, cls := [0, 1, 2], [0, 0x160, 0x250];
    assert PermAt(TWO_SECTIONS, order, cls, 1) == NoPerm;
    assert FlagAt(TWO_SECTIONS, order, cls, 1) == TWO_FLAGS[1];
    assert PermAt(TWO_SECTIONS, order, cls, 2) == Perm(false, true);
    assert FlagAt(TWO_SECTIONS, order, cls, 2) == TWO_FLAGS[2];
  }

  lemma TwoAreLaidOut()
    requires Ready(TWO_SECTIONS, [0, 1, 2], TWO_FLAGS, FLAT_IMAGE)
    ensures var s := RunTo(TWO_SECTIONS, [0, 1, 2], TWO_FLAGS, FLAT_IMAGE, 3).secs[2];
            s.addr == 0x40_1000 && !IsAligned(s, TWO_FLAGS[2])
  {
    hide Located, After, RunTo, Same, IsAligned;
    var order, im := [0, 1, 2], FLAT_IMAGE;
    StartsEmpty(TWO_SECTIONS, order, TWO_FLAGS, im);
    RunStep(TWO_SECTIONS, order, TWO_FLAGS, im, 1);
    RunStep(TWO_SECTIONS, order, TWO_FLAGS, im, 2);
    OnlyPlacesChange(TWO_SECTIONS, order, TWO_FLAGS, im, 2, 2);
    CodeIsPlaced();
    DataIsPlaced(RunTo(TWO_SECTIONS, order, TWO_FLAGS, im, 2).secs[2], RunTo(TWO_SECTIONS, order, TWO_FLAGS, im, 2).st);
  }

  lemma CodeIsPlaced()
    ensures var s := Located(CODE, Start(FLAT_IMAGE), TWO_FLAGS[1], FLAT_IMAGE);
            var st := After(s, Start(FLAT_IMAGE), TWO_FLAGS[1], FLAT_IMAGE);
            st.addr == 0x40_0010 && st.loads != []
  {
    assert AlignUp(0x40_0000, 16) == 0x40_0000;
  }

  lemma DataIsPlaced(s: Sec, st: State)
    requires Same(s, DATA) && st.addr == 0x40_0010 && st.loads != []
    ensures var r := Located(s, st, TWO_FLAGS[2], FLAT_IMAGE); r.addr == 0x40_1000 && !IsAligned(r, TWO_FLAGS[2])
  {
    assert AlignUp(0x40_0010, 0x1000) == 0x40_1000;
  }

  // Loaded from where they are

  /** After such a section, addresses and offsets no longer advance together. */
  predicate Breaks(s: Sec, f: Flag) {
    f.Unloaded? || (s.kind == Nobits && !s.tls && s.size > 0)
  }

  ghost predicate BrokenBefore(secs: seq<Sec>, order: seq<nat>, flags: seq<Flag>, p: nat)
    requires |order| == |flags| && p <= |order|
    requires forall q {:trigger order[q]} :: 0 <= q < |order| ==> order[q] < |secs|
  {
    exists q {:trigger order[q]} :: 1 <= q < p && Breaks(secs[order[q]], flags[q])
  }

  /** Zero-initialised data and sections that are not loaded come last: a loaded section after one of them has
      nothing in the file and opens no segment. */
  ghost predicate Tidy(secs: seq<Sec>, order: seq<nat>, flags: seq<Flag>)
    requires |order| == |flags| && forall q {:trigger order[q]} :: 0 <= q < |order| ==> order[q] < |secs|
  {
    forall p {:trigger flags[p]} :: 1 <= p < |order| && flags[p].Loaded? && BrokenBefore(secs, order, flags, p) ==>
      secs[order[p]].kind == Nobits && !flags[p].newPh
  }

  /** How far addresses are ahead of offsets in the current segment. */
  function Ahead(st: State, im: Image): (d: int) {
    if st.loads == [] then im.base else st.loads[|st.loads| - 1].vaddr - st.loads[|st.loads| - 1].offset
  }

  lemma ModPlus(d: int, m: int)
    requires m > 0 && d % m == 0
    ensures (d + m) % m == 0
  {
    DivUnique(d + m, m, d / m + 1, 0);
  }

  /** Every segment starts at an address congruent to its offset, modulo its alignment. */
  predicate Congruent(loads: seq<Phdr>, m: nat)
    requires m > 0
  {
    forall k {:trigger loads[k]} :: 0 <= k < |loads| ==>
      loads[k].align == m && (loads[k].vaddr - loads[k].offset) % m == 0
  }

  /** Every segment is ahead of its offset by the base address and a multiple of its alignment, the first one
      by exactly the base address. */
  predicate Paced(loads: seq<Phdr>, m: nat, base: nat)
    requires m > 0
  {
    && (loads != [] ==> loads[0].vaddr - loads[0].offset == base)
    && forall k {:trigger loads[k]} :: 0 <= k < |loads| ==>
         loads[k].align == m && (loads[k].vaddr - loads[k].offset - base) % m == 0
  }

  lemma ModSum(x: int, base: int, m: int)
    requires m > 0 && (x - base) % m == 0 && base % m == 0
    ensures x % m == 0
  {
    DivUnique(x, m, (x - base) / m + base / m, 0);
  }

  /** Once there is a segment, all of them are congruent exactly if the base address is a multiple of the
      segment alignment. */
  lemma CongruentIffBaseAligned(loads: seq<Phdr>, m: nat, base: nat)
    requires m > 0 && loads != [] && Paced(loads, m, base)
    ensures Congruent(loads, m) <==> base % m == 0
  {
    if base % m == 0 {
      forall k {:trigger loads[k]} | 0 <= k < |loads|
        ensures loads[k].align == m && (loads[k].vaddr - loads[k].offset) % m == 0
      {
        ModSum(loads[k].vaddr - loads[k].offset, base, m);
      }
    } else {
      assert loads[0].vaddr - loads[0].offset == base;
    }
  }

  /** The headers after a step: each as before or grown to the current end, and a new one if f says so. */
  lemma LoadsStep(s: Sec, loads: seq<Phdr>, f: Flag, im: Image, addr: int, off: int)
    requires f.Loaded? && f.perm.Perm?
    ensures var r := Loads(s, loads, f, im, addr, off);
            && |r| == |loads| + (if f.newPh then 1 else 0)
            && (forall k :: 0 <= k < |loads| ==> r[k] == loads[k] || r[k] == Updated(loads[k], addr, off))
            && (f.newPh ==> r[|loads|] == Updated(NewLoad(s, f, im, loads == []), addr, off))
            && (r != [] && !f.newPh ==> r[|r| - 1] == Updated(loads[|loads| - 1], addr, off))
  {
  }

  /** One loaded section, when nothing has broken the pace yet. */
  lemma PaceStep(s: Sec, st: State, f: Flag, im: Image)
    requires s.align > 0 && im.segAlign > 0 && f.Loaded? && f.perm.Perm? && f.tls == (s.tls && s.size > 0)
    requires st.addr - st.off == Ahead(st, im) && Paced(st.loads, im.segAlign, im.base)
    ensures var r := Located(s, st, f, im); var st' := After(r, st, f, im);
            && Paced(st'.loads, im.segAlign, im.base)
            && (st'.loads != [] ==> r.addr - r.offset == Ahead(st', im))
            && (!Breaks(s, f) ==> st'.addr - st'.off == Ahead(st', im))
  {
    hide AlignUp, Loads;
    var r := Located(s, st, f, im);
    var d := st.addr - st.off - im.base;
    assert d % im.segAlign == 0;
    ModPlus(d, im.segAlign);
    assert r.addr - r.offset == From(st, f, im) - st.off;
    LoadsStep(r, st.loads, f, im, r.addr + r.size, r.offset + InFile(r));
  }

  /** One loaded section with nothing in the file, which opens no segment. */
  lemma PaceKept(s: Sec, st: State, f: Flag, im: Image)
    requires im.segAlign > 0 && f.Loaded? && f.perm.Perm? && !f.newPh && Paced(st.loads, im.segAlign, im.base)
    ensures Paced(After(s, st, f, im).loads, im.segAlign, im.base)
  {
    LoadsStep(s, st.loads, f, im, s.addr + s.size, s.offset + InFile(s));
  }

  /** The segment maps the section: with its permissions, where it is in memory, and from where it is in the file. */
  predicate Covers(ph: Phdr, s: Sec) {
    && ph.write == s.write && ph.exec == s.exec
    && (!IsTbss(s) ==> ph.vaddr <= s.addr && s.addr + s.size <= ph.vaddr + ph.memsz)
    && (s.kind != Nobits ==>
          && ph.offset <= s.offset && s.offset + s.size <= ph.offset + ph.filesz
          && s.addr - ph.vaddr == s.offset - ph.offset)
  }

  /** The segment of the section in place q. */
  ghost predicate Covered(r: Laid, order: seq<nat>, flags: seq<Flag>, q: nat)
    requires 1 <= q < |order| == |flags| && order[q] < |r.secs|
  {
    0 < Opened(flags, q + 1) <= |r.st.loads| && Covers(r.st.loads[Opened(flags, q + 1) - 1], r.secs[order[q]])
  }

  /** The headers so far are those of the segments opened, and the last one has the current permissions. */
  ghost predicate Tracks(st: State, im: Image, count: nat, perm: Perm) {
    && |st.loads| == count && (st.loads == [] <==> perm == NoPerm)
    && (st.loads != [] ==>
          var last := st.loads[|st.loads| - 1];
          perm == Perm(last.write, last.exec) && last.vaddr <= st.addr && last.offset <= st.off)
  }

  lemma CoversLater(l: Phdr, l': Phdr, s: Sec, f: Flag, st: State, addr: int, off: int)
    requires Covers(l, s) && Behind(s, f, st) && f.Loaded? && st.addr <= addr && st.off <= off
    requires l' == l || l' == Updated(l, addr, off)
    ensures Covers(l', s)
  {
  }

  lemma TracksStep(s: Sec, st: State, f: Flag, im: Image, n: nat, perm: Perm)
    requires s.align > 0 && im.segAlign > 0 && f.Loaded? && f.perm == Perm(s.write, s.exec)
    requires f.newPh <==> f.perm != perm && s.size > 0
    requires f.tls ==> s.tls
    requires Tracks(st, im, n, perm) && im.base <= st.addr
    ensures var r := Located(s, st, f, im);
            Tracks(After(r, st, f, im), im, n + (if f.newPh then 1 else 0), PermAfter(f, perm))
  {
    hide Loads, AlignUp;
    var r := Located(s, st, f, im);
    LoadsStep(r, st.loads, f, im, r.addr + r.size, r.offset + InFile(r));
  }

  /** The section just located is covered by the last segment. */
  lemma CoversNew(s: Sec, st: State, f: Flag, im: Image, n: nat, perm: Perm)
    requires s.align > 0 && im.segAlign > 0 && f.Loaded? && f.perm == Perm(s.write, s.exec) && s.size > 0
    requires (f.newPh <==> f.perm != perm) && f.tls == s.tls
    requires Tracks(st, im, n, perm) && im.base <= st.addr
    requires s.kind != Nobits ==> st.addr - st.off == Ahead(st, im)
    ensures var r := Located(s, st, f, im); var loads := After(r, st, f, im).loads;
            loads != [] && Covers(loads[|loads| - 1], r)
  {
    hide Loads, AlignUp;
    var r := Located(s, st, f, im);
    LoadsStep(r, st.loads, f, im, r.addr + r.size, r.offset + InFile(r));
  }

  ghost predicate SegmentsTo(r: Laid, secs: seq<Sec>, order: seq<nat>, cls: seq<nat>, flags: seq<Flag>, im: Image,
                             p: nat)
    requires InRange(r, order, flags, p) && |r.secs| == |secs| && im.segAlign > 0 && AreFlags(flags, secs, order, cls)
  {
    && Tracks(r.st, im, Opened(flags, p), PermAt(secs, order, cls, p))
    && Paced(r.st.loads, im.segAlign, im.base)
    && (!BrokenBefore(secs, order, flags, p) ==> r.st.addr - r.st.off == Ahead(r.st, im))
    && (forall q {:trigger order[q]} :: 1 <= q < p && flags[q].Loaded? && r.secs[order[q]].size > 0 ==> Covered(r, order, flags, q))
  }

  lemma BrokenNext(secs: seq<Sec>, order: seq<nat>, flags: seq<Flag>, p: nat)
    requires |order| == |flags| && 1 <= p < |order|
    requires forall q {:trigger order[q]} :: 0 <= q < |order| ==> order[q] < |secs|
    ensures BrokenBefore(secs, order, flags, p + 1) <==> BrokenBefore(secs, order, flags, p) || Breaks(secs[order[p]], flags[p])
  {
    hide Breaks;
    if Breaks(secs[order[p]], flags[p]) {
      var q := p;
      assert 1 <= q < p + 1 && Breaks(secs[order[q]], flags[q]);
    }
  }

  /** The flag of place p, and what follows it, in terms of the section there. */
  lemma FlagNext(s: Sec, secs: seq<Sec>, order: seq<nat>, cls: seq<nat>, flags: seq<Flag>, p: nat)
    requires AreFlags(flags, secs, order, cls) && 1 <= p < |order| && Same(s, secs[order[p]])
    ensures var perm, f := PermAt(secs, order, cls, p), flags[p];
            && PermAt(secs, order, cls, p + 1) == PermAfter(f, perm)
            && Opened(flags, p + 1) == Opened(flags, p) + (if f.Loaded? && f.newPh then 1 else 0)
            && (f.Loaded? ==> f.perm == Perm(s.write, s.exec) && (f.newPh <==> f.perm != perm && s.size > 0)
                              && f.tls == (s.tls && s.size > 0))
            && Breaks(s, f) == Breaks(secs[order[p]], f)
  {
    assert PermAt(secs, order, cls, p + 1) == PermAfter(FlagAt(secs, order, cls, p), PermAt(secs, order, cls, p));
    assert flags[p] == FlagAt(secs, order, cls, p);
  }

  /** Sections covered before a step are covered after it. */
  lemma CoveredStays(b: Laid, r: Laid, secs: seq<Sec>, order: seq<nat>, cls: seq<nat>, flags: seq<Flag>, im: Image,
                     p: nat, q: nat)
    requires InRange(b, order, flags, p) && InRange(r, order, flags, p + 1) && |b.secs| == |secs|
    requires AreFlags(flags, secs, order, cls)
    requires Stepped(b, r, order, flags, im, p) && ApartTo(b, order, flags, im, p)
    requires SegmentsTo(b, secs, order, cls, flags, im, p)
    requires 1 <= q < p && flags[q].Loaded? && b.secs[order[q]].size > 0
    ensures Covered(r, order, flags, q)
  {
    hide Located, Covers, Behind, Ordered, PastHeaders, Loads, AreFlags, Paced, BrokenBefore, Ahead, Opened, PermAt;
    assert Covered(b, order, flags, q) && Behind(b.secs[order[q]], flags[q], b.st);
    var s, f, k := r.secs[order[p]], flags[p], Opened(flags, q + 1) - 1;
    StepMoves(b.secs[order[p]], b.st, f, im);
    if f.Loaded? {
      LoadsStep(s, b.st.loads, f, im, s.addr + s.size, s.offset + InFile(s));
      CoversLater(b.st.loads[k], r.st.loads[k], b.secs[order[q]], flags[q], b.st, s.addr + s.size, s.offset + InFile(s));
    }
  }

  lemma SegmentsStep(b: Laid, r: Laid, secs: seq<Sec>, order: seq<nat>, cls: seq<nat>, flags: seq<Flag>, im: Image,
                     p: nat)
    requires InRange(b, order, flags, p) && InRange(r, order, flags, p + 1) && |b.secs| == |secs|
    requires AreFlags(flags, secs, order, cls)
    requires p < |order| && Stepped(b, r, order, flags, im, p) && Same(b.secs[order[p]], secs[order[p]])
    requires ApartTo(b, order, flags, im, p) && SegmentsTo(b, secs, order, cls, flags, im, p)
    requires Tidy(secs, order, flags)
    ensures SegmentsTo(r, secs, order, cls, flags, im, p + 1)
  {
    hide Located, Covers, Behind, Ordered, PastHeaders, Loads, FlagAt, Opened, PermAt, Breaks, Ahead, Paced, Tracks, Stepped;
    var s0, f, perm := b.secs[order[p]], flags[p], PermAt(secs, order, cls, p);
    FlagNext(s0, secs, order, cls, flags, p);
    BrokenNext(secs, order, flags, p);
    forall q | 1 <= q < p && flags[q].Loaded? && r.secs[order[q]].size > 0
      ensures Covered(r, order, flags, q)
    {
      SteppedKeeps(b, r, order, flags, im, p, q);
      CoveredStays(b, r, secs, order, cls, flags, im, p, q);
    }
    if f.Unloaded? {
      UnloadedStep(b, r, order, flags, im, p, Opened(flags, p), perm);
      BreaksUnloaded(s0, f);
    } else {
      LoadedStep(b, r, secs, order, cls, flags, im, p);
    }
  }

  lemma SteppedKeeps(b: Laid, r: Laid, order: seq<nat>, flags: seq<Flag>, im: Image, p: nat, q: nat)
    requires Stepped(b, r, order, flags, im, p) && 1 <= q < p
    ensures order[q] < |r.secs| == |b.secs| && r.secs[order[q]] == b.secs[order[q]]
  {
  }

  lemma BreaksUnloaded(s: Sec, f: Flag)
    requires f.Unloaded?
    ensures Breaks(s, f)
  {
  }

  lemma UnloadedStep(b: Laid, r: Laid, order: seq<nat>, flags: seq<Flag>, im: Image, p: nat, n: nat, perm: Perm)
    requires Stepped(b, r, order, flags, im, p) && flags[p].Unloaded? && Tracks(b.st, im, n, perm)
    requires Paced(b.st.loads, im.segAlign, im.base)
    ensures Tracks(r.st, im, n, perm) && Paced(r.st.loads, im.segAlign, im.base)
  {
    hide Located, Paced;
    StepMoves(b.secs[order[p]], b.st, flags[p], im);
  }

  lemma LoadedStep(b: Laid, r: Laid, secs: seq<Sec>, order: seq<nat>, cls: seq<nat>, flags: seq<Flag>, im: Image,
                   p: nat)
    requires InRange(b, order, flags, p) && InRange(r, order, flags, p + 1) && |b.secs| == |secs|
    requires AreFlags(flags, secs, order, cls)
    requires p < |order| && Stepped(b, r, order, flags, im, p) && Same(b.secs[order[p]], secs[order[p]])
    requires flags[p].Loaded?
    requires im.base <= b.st.addr && SegmentsTo(b, secs, order, cls, flags, im, p)
    requires Tidy(secs, order, flags)
    ensures Tracks(r.st, im, Opened(flags, p + 1), PermAt(secs, order, cls, p + 1))
    ensures Paced(r.st.loads, im.segAlign, im.base)
    ensures !BrokenBefore(secs, order, flags, p + 1) ==> r.st.addr - r.st.off == Ahead(r.st, im)
    ensures r.secs[order[p]].size > 0 ==> Covered(r, order, flags, p)
  {
    hide Located, After, Covers, FlagAt, Opened, PermAt, Breaks, Ahead, Paced, Tracks;
    var s0, f, perm, n := b.secs[order[p]], flags[p], PermAt(secs, order, cls, p), Opened(flags, p);
    FlagNext(s0, secs, order, cls, flags, p);
    BrokenNext(secs, order, flags, p);
    TracksStep(s0, b.st, f, im, n, perm);
    LocatedIsSame(s0, s0, b.st, f, im);
    if !BrokenBefore(secs, order, flags, p) {
      PaceStep(s0, b.st, f, im);
    } else {
      PaceKept(r.secs[order[p]], b.st, f, im);
    }
    if r.secs[order[p]].size > 0 {
      CoversNew(s0, b.st, f, im, n, perm);
      TracksCount(r.st, im, Opened(flags, p + 1), PermAt(secs, order, cls, p + 1));
    }
  }

  lemma TracksCount(st: State, im: Image, n: nat, perm: Perm)
    requires Tracks(st, im, n, perm)
    ensures |st.loads| == n
  {
  }

  /** Every segment is ahead of where it is in the file by the base address, modulo its alignment, and every
      loaded section with contents is covered by a segment with its own permissions, which maps it from its own
      place in the file. */
  lemma {:induction false} SegmentsCover(secs: seq<Sec>, order: seq<nat>, cls: seq<nat>, flags: seq<Flag>,
                                         im: Image, p: nat)
    requires Ready(secs, order, flags, im) && AreFlags(flags, secs, order, cls) && 1 <= p <= |order|
    requires Tidy(secs, order, flags)
    ensures SegmentsTo(RunTo(secs, order, flags, im, p), secs, order, cls, flags, im, p)
  {
    hide RunTo, Located, After, Stepped, ApartTo, AreFlags, Tidy;
    if p > 1 {
      SegmentsCover(secs, order, cls, flags, im, p - 1);
      SectionsAreApart(secs, order, flags, im, p - 1);
      RunStep(secs, order, flags, im, p - 1);
      SegmentsStep(RunTo(secs, order, flags, im, p - 1), RunTo(secs, order, flags, im, p), secs, order, cls, flags, im, p - 1);
    } else {
      StartsEmpty(secs, order, flags, im);
    }
  }

  // The order

  /** Sorted by class and, within a class, by number. */
  predicate InOrder(k1: nat, i1: nat, k2: nat, i2: nat) {
    k1 < k2 || (k1 == k2 && i1 < i2)
  }

  /** The sections 1 up to |o| - 1, each once, in the places from 1 on, sorted; c holds their classes. */
  ghost predicate SortedBy(secs: seq<Sec>, t: Target, o: seq<nat>, c: seq<nat>) {
    && 1 <= |o| == |c| <= |secs|
    && (forall a {:trigger o[a]} :: 1 <= a < |o| ==> 1 <= o[a] < |o| && c[a] == Class(secs[o[a]], o[a], |secs|, t))
    && (forall a, b {:trigger o[a], o[b]} :: 1 <= a < b < |o| ==> InOrder(c[a], o[a], c[b], o[b]))
    && (forall x :: 1 <= x < |o| ==> x in o[1..])
  }

  function Inserted<T>(o: seq<T>, n: nat, x: T): (r: seq<T>)
    requires n <= |o|
    ensures |r| == |o| + 1
  {
    o[..n] + [x] + o[n..]
  }

  /** Inserting the next section after all those of no higher class keeps the order, and keeps it stable. */
  lemma InsertKeepsSorted(secs: seq<Sec>, t: Target, o: seq<nat>, c: seq<nat>, n: nat, k: nat)
    requires SortedBy(secs, t, o, c) && |o| < |secs| && 1 <= n <= |o| && k == Class(secs[|o|], |o|, |secs|, t)
    requires (forall a :: 1 <= a < n ==> c[a] <= k) && forall a :: n <= a < |o| ==> k < c[a]
    ensures SortedBy(secs, t, Inserted(o, n, |o|), Inserted(c, n, k))
  {
    hide Class;
    var o', c' := Inserted(o, n, |o|), Inserted(c, n, k);
    forall a {:trigger o'[a]} | 1 <= a < |o'|
      ensures 1 <= o'[a] < |o'| && c'[a] == Class(secs[o'[a]], o'[a], |secs|, t)
    {
      var a0 := if a < n then a else a - 1;
      assert a != n ==> o'[a] == o[a0] && c'[a] == c[a0];
    }
    forall a, b {:trigger o'[a], o'[b]} | 1 <= a < b < |o'|
      ensures InOrder(c'[a], o'[a], c'[b], o'[b])
    {
      var a0, b0 := if a < n then a else a - 1, if b < n then b else b - 1;
      assert a != n ==> o'[a] == o[a0] && c'[a] == c[a0];
      assert b != n ==> o'[b] == o[b0] && c'[b] == c[b0];
    }
    forall x | 1 <= x < |o'|
      ensures x in o'[1..]
    {
      if x == |o| {
        assert o'[1..][n - 1] == x;
      } else {
        assert x in o[1..];
        var a :| 1 <= a < |o| && o[a] == x;
        assert o'[1..][if a < n then a - 1 else a] == x;
      }
    }
  }

  lemma SortedIsDistinct(secs: seq<Sec>, t: Target, o: seq<nat>, c: seq<nat>)
    requires SortedBy(secs, t, o, c) && o[0] == 0
    ensures Distinct(o)
  {
    hide Class;
    forall a, b | 0 <= a < b < |o|
      ensures o[a] != o[b]
    {
      assert 1 <= o[b];
      if a > 0 {
        assert InOrder(c[a], o[a], c[b], o[b]);
      }
    }
  }

  /** What compilers and assemblers produce: zero-initialised sections are thread-local, or writable and not
      executable; and no writable string table is loaded from the last place. */
  ghost predicate Conventional(secs: seq<Sec>, t: Target) {
    forall i {:trigger secs[i]} :: 1 <= i < |secs| && secs[i].named && secs[i].alloc ==>
      && (secs[i].kind == Nobits && !secs[i].tls ==> IsBss(secs[i]) && t.got != i)
      && !(secs[i].kind == Strtab && !secs[i].stabStrings && i + 1 == |secs| && secs[i].write && !secs[i].tls)
  }

  ghost predicate AdjustedFrom(secs: seq<Sec>, adj: seq<Sec>, t: Target) {
    |adj| == |secs| && forall i {:trigger adj[i]} :: 1 <= i < |secs| ==> adj[i] == Adjusted(secs[i], i, |secs|, t)
  }

  /** A loaded section whose class is at least that of zero-initialised data is such data. */
  lemma HighIsBss(s: Sec, i: nat, n: nat, t: Target)
    requires NOT_LOADED > Class(s, i, n, t) >= 0x270
    requires !(s.kind == Strtab && !s.stabStrings && i + 1 == n && s.write && !s.tls)
    ensures IsBss(s)
  {
  }

  lemma BssIsHigh(s: Sec, i: nat, n: nat, t: Target)
    requires Class(s, i, n, t) < NOT_LOADED && IsBss(s) && t.got != i
    ensures Class(s, i, n, t) >= 0x270
  {
  }

  lemma AdjustedKeeps(s: Sec, i: nat, n: nat, t: Target)
    ensures var r := Adjusted(s, i, n, t);
            r.kind == s.kind && r.tls == s.tls && (IsBss(s) ==> r.write && !r.exec) && r.align == s.align
  {
  }

  predicate MapsAsBss(adj: seq<Sec>, order: seq<nat>, cls: seq<nat>, x: nat) {
    x < |order| == |cls| && order[x] < |adj| && cls[x] < NOT_LOADED && adj[order[x]].write && !adj[order[x]].exec
  }

  /** Once zero-initialised data with contents has been visited, its permissions are the current ones. */
  lemma {:induction false} BssSetsPerm(adj: seq<Sec>, order: seq<nat>, cls: seq<nat>, q: nat, p: nat)
    requires Sizes(adj, order, cls) && 1 <= q < p <= |order| && adj[order[q]].size > 0
    requires forall x: nat :: q <= x < p ==> MapsAsBss(adj, order, cls, x)
    ensures PermAt(adj, order, cls, p) == Perm(true, false)
  {
    assert MapsAsBss(adj, order, cls, p - 1);
    if q < p - 1 {
      BssSetsPerm(adj, order, cls, q, p - 1);
    }
  }

  /** Sorted sections that are conventional are laid out tidily. */
  lemma SortedIsTidy(secs: seq<Sec>, adj: seq<Sec>, t: Target, order: seq<nat>, cls: seq<nat>, flags: seq<Flag>)
    requires SortedBy(secs, t, order, cls) && |order| == |secs| && AdjustedFrom(secs, adj, t) && Conventional(secs, t)
    requires AreFlags(flags, adj, order, cls)
    ensures Tidy(adj, order, flags)
  {
    hide Class, Adjusted, PermAt, IsBss;
    forall p {:trigger flags[p]} | 1 <= p < |order| && flags[p].Loaded? && BrokenBefore(adj, order, flags, p)
      ensures adj[order[p]].kind == Nobits && !flags[p].newPh
    {
      var q :| 1 <= q < p && Breaks(adj[order[q]], flags[q]);
      assert flags[q] == FlagAt(adj, order, cls, q) && flags[p] == FlagAt(adj, order, cls, p);
      assert InOrder(cls[q], order[q], cls[p], order[p]);
      forall x: nat | q <= x < p
        ensures MapsAsBss(adj, order, cls, x)
      {
        PlaceIsBss(secs, adj, t, order, cls, q, x);
        assert InOrder(cls[x], order[x], cls[p], order[p]);
      }
      PlaceIsBss(secs, adj, t, order, cls, q, p);
      BssSetsPerm(adj, order, cls, q, p);
    }
  }

  /** Everything loaded from the place of zero-initialised data on is zero-initialised data. */
  lemma PlaceIsBss(secs: seq<Sec>, adj: seq<Sec>, t: Target, order: seq<nat>, cls: seq<nat>, q: nat, x: nat)
    requires SortedBy(secs, t, order, cls) && |order| == |secs| && AdjustedFrom(secs, adj, t) && Conventional(secs, t)
    requires 1 <= q <= x < |order| && cls[q] < NOT_LOADED && adj[order[q]].kind == Nobits && !adj[order[q]].tls
    ensures cls[x] < NOT_LOADED ==> adj[order[x]].kind == Nobits && adj[order[x]].write && !adj[order[x]].exec
  {
    hide Class, Adjusted, IsBss;
    var i, j, n := order[q], order[x], |secs|;
    AdjustedKeeps(secs[i], i, n, t);
    AdjustedKeeps(secs[j], j, n, t);
    LoadedIsAlloc(secs[i], i, n, t);
    LoadedIsAlloc(secs[j], j, n, t);
    BssIsHigh(secs[i], i, n, t);
    assert q == x || InOrder(cls[q], i, cls[x], j);
    if cls[x] < NOT_LOADED {
      HighIsBss(secs[j], j, n, t);
      BssIsNobits(secs[j]);
    }
  }

  lemma BssIsNobits(s: Sec)
    requires IsBss(s)
    ensures s.kind == Nobits && !s.tls
  {
  }
}
