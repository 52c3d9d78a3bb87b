/** The linker's symbol table: records, string section and chained hash section, updated in place. */
module SymbolTable {
  import opened Bytes
  import opened SymbolIndex
  import opened SymbolMerge
  import opened SymbolBuffers
  import opened Relocations
  import opened Grouping

  const NULL_SYM := Sym(0, 0, 0, 0, 0, 0)

  /** The ELF hash, byte by byte. */
  method ElfHash(name: seq<Byte>) returns (h: Hash28)
    ensures h == HashFrom(0, name)
  {
    h := 0;
    var i := 0;
    while i < |name|
      invariant 0 <= i <= |name|
      invariant HashFrom(0, name) == HashFrom(h, name[i..])
    {
      assert name[i..][0] == name[i] && name[i..][1..] == name[i + 1..];
      h := HashStep(h, name[i]);
      i := i + 1;
    }
  }

  /** A hash section being refilled: the first n symbols of t are in. */
  ghost predicate Filled(hash: seq<nat>, t: seq<Entry>, nb: nat, n: nat) {
    && nb > 0 && n <= |t| && |hash| == 2 + nb + |t| && hash[0] == nb && hash[1] == |t|
    && (forall k :: 2 <= k < 2 + nb ==> hash[k] == LastIn(t, nb, k - 2, n))
    && (forall k :: 2 + nb <= k < 2 + nb + n ==> hash[k] == ChainWord(t, nb, k - 2 - nb))
  }

  lemma FillLocal(hash: seq<nat>, t: seq<Entry>, nb: nat, n: nat)
    requires Filled(hash, t, nb, n) && n < |t| && IsLocal(t[n])
    ensures Filled(hash[2 + nb + n := 0], t, nb, n + 1)
  {
  }

  lemma FillNonLocal(hash: seq<nat>, t: seq<Entry>, nb: nat, n: nat, h: nat)
    requires Filled(hash, t, nb, n) && n < |t| && !IsLocal(t[n])
    requires h == Bucket(t[n].name, nb)
    ensures Filled(hash[2 + nb + n := hash[2 + h]][2 + h := n], t, nb, n + 1)
  {
    var hash' := hash[2 + nb + n := hash[2 + h]][2 + h := n];
    forall k | 2 <= k < 2 + nb
      ensures hash'[k] == LastIn(t, nb, k - 2, n + 1)
    {
      assert k != 2 + h ==> hash'[k] == hash[k];
    }
    forall k | 2 + nb <= k < 2 + nb + n + 1
      ensures hash'[k] == ChainWord(t, nb, k - 2 - nb)
    {
      assert k < 2 + nb + n ==> hash'[k] == hash[k];
    }
  }

  /** The loop of rebuild_hash: links every non-local symbol in at the head of its bucket. */
  method FillHash(syms: seq<Sym>, str: seq<Byte>, nsyms: nat, nb: nat, stale: seq<nat>) returns (words: seq<nat>)
    requires 0 < nsyms <= |syms| && nb > 0
    ensures Indexes(words, ViewOf(syms, str, nsyms)) && words[0] == nb
  {
    words := [nb, nsyms] + seq(nb + nsyms, k => if k <= nb || k >= |stale| then 0 else stale[k]);
    ghost var t := ViewOf(syms, str, nsyms);
    var i := 1;
    while i < nsyms
      invariant 1 <= i <= nsyms
      invariant Filled(words, t, nb, i)
    {
      assert t[i] == EntryOf(syms[i], str);
      if Bind(syms[i].info) != STB_LOCAL {
        var h := ElfHash(StrAt(str, syms[i].name));
        h := h % nb;
        FillNonLocal(words, t, nb, i, h);
        words := words[2 + nb + i := words[2 + h]][2 + h := i];
      } else {
        FillLocal(words, t, nb, i);
        words := words[2 + nb + i := 0];
      }
      i := i + 1;
    }
  }

  /** The loop of find_elf_sym: follows the links of one bucket. */
  method WalkBucket(hash: seq<nat>, syms: seq<Sym>, str: seq<Byte>, ghost t: seq<Entry>, name: seq<Byte>)
    returns (index: nat)
    requires |t| <= |syms| && t == ViewOf(syms, str, |t|) && Indexes(hash, t)
    ensures index == Find(t, name)
  {
    var nbuckets := hash[0];
    var h := ElfHash(name);
    h := h % nbuckets;
    index := hash[2 + h];
    ghost var n: nat := |t|;
    while index != 0
      invariant n <= |t| && index == LastIn(t, nbuckets, h, n)
      invariant FindBelow(t, name, |t|) == FindBelow(t, name, n)
      decreases index
    {
      ChainStep(t, nbuckets, name, n);
      assert t[index] == EntryOf(syms[index], str);
      if StrAt(str, syms[index].name) == name {
        return;
      }
      n := index;
      index := hash[2 + nbuckets + index];
    }
    ChainStep(t, nbuckets, name, n);
  }

  /** Links a symbol that has just been appended: its chain word, its bucket head, the chain count. */
  method LinkWord(hash: seq<nat>, name: seq<Byte>, local: bool, index: nat, ghost t: seq<Entry>, ghost e: Entry)
    returns (words: seq<nat>)
    requires Indexes(hash, t) && index == |t| && local == IsLocal(e) && name == e.name
    ensures Indexes(words, t + [e]) && words[0] == hash[0]
  {
    words := hash + [0];
    if !local {
      var h := ElfHash(name);
      h := h % words[0];
      words := words[|hash| := words[2 + h]];
      words := words[2 + h := index];
    }
    words := words[1 := words[1] + 1];
    IndexesAppend(hash, t, e, words);
  }

  /** The hash section indexes t, and holds at most two non-local symbols a bucket. */
  ghost predicate IndexOk(hash: seq<nat>, nbHashed: nat, t: seq<Entry>) {
    Indexes(hash, t) && nbHashed == CountNonLocal(t) && nbHashed <= 2 * hash[0]
  }

  /** How the number of buckets follows the table t: it doubles when there are more than two non-local symbols for
      each. */
  ghost predicate LoadKept(hash: seq<nat>, hash': seq<nat>, t: seq<Entry>) {
    && |hash| > 0 && |hash'| > 0 && CountNonLocal(t) <= 2 * hash'[0]
    && hash'[0] == if CountNonLocal(t) <= 2 * hash[0] then hash[0] else 2 * hash[0]
  }

  /** A record, given the name it carries. */
  function EntryAs(s: Sym, name: seq<Byte>): (e: Entry) {
    Entry(name, s.info, s.other, s.shndx, s.value, s.size)
  }

  /** The branches of set_elf_sym for a name that is already there: how its record changes. */
  method MeetExisting(old_sym: Sym, name: seq<Byte>, a: Entry, kind: Kind) returns (esym: Sym, clash: bool)
    requires a.name == name
    ensures esym.name == old_sym.name
    ensures Merge(EntryAs(old_sym, name), a, kind) == Merged(EntryAs(esym, name), clash)
  {
    esym, clash := old_sym, false;
    if esym.value == a.value && esym.size == a.size && esym.info == a.info && esym.other == a.other
       && esym.shndx == a.shndx {
      return;
    }
    var symBind := Bind(a.info);
    var patch := true;
    if esym.shndx != SHN_UNDEF {
      var newVis := JoinVisibility(Visibility(esym.other), Visibility(a.other));
      WithVisibilityKeepsTheRest(esym.other, newVis);
      esym := esym.(other := WithVisibility(esym.other, newVis));
      if a.shndx == SHN_UNDEF {
        patch := false;
      } else {
        patch, clash := MeetDefined(esym, a, kind);
        assert Contest(EntryAs(esym, name), a, kind) == Contest(EntryAs(old_sym, name), a, kind);
      }
    } else {
      esym := esym.(other := a.other);
    }
    assert symBind * 16 + Type(a.info) == a.info;
    if patch {
      esym := esym.(info := symBind * 16 + Type(a.info), shndx := a.shndx, value := a.value, size := a.size);
    }
  }

  /** The most constraining of two visibilities. */
  method JoinVisibility(esymVis: nat, symVis: nat) returns (newVis: nat)
    requires esymVis < 4 && symVis < 4
    ensures newVis == Tighter(esymVis, symVis)
  {
    if esymVis == STV_DEFAULT {
      newVis := symVis;
    } else if symVis == STV_DEFAULT {
      newVis := esymVis;
    } else {
      newVis := if esymVis < symVis then esymVis else symVis;
    }
  }

  /** The precedence between two definitions of one name. */
  method MeetDefined(esym: Sym, a: Entry, kind: Kind) returns (patch: bool, clash: bool)
    ensures forall name :: Contest(EntryAs(esym, name), a, kind) ==
              if patch then Replace else if clash then Clash else Keep
    ensures !(patch && clash)
  {
    patch, clash := false, false;
    var symBind, esymBind, symVis := Bind(a.info), Bind(esym.info), Visibility(a.other);
    if symBind == STB_GLOBAL && esymBind == STB_WEAK {
      patch := true;
    } else if symBind == STB_WEAK && esymBind == STB_GLOBAL {
      // weak is ignored if already global
    } else if symBind == STB_WEAK && esymBind == STB_WEAK {
      // the first weak definition stays
    } else if symVis == STV_HIDDEN || symVis == STV_INTERNAL {
      // hidden symbols are ignored afterwards
    } else if kind.dynamic {
      // two libraries may define the same symbol
    } else if (esym.shndx == SHN_COMMON || esym.shndx == kind.bss)
              && a.shndx < SHN_LORESERVE && a.shndx != kind.bss {
      patch := true;
    } else if a.shndx == SHN_COMMON || a.shndx == kind.bss {
      // data keeps precedence over common and bss
    } else if AsmSet(esym.other) {
      patch := true;
    } else {
      clash := true;
    }
  }

  const STT_NOTYPE: nat := 0
  const STT_TLS: nat := 6

  /** A symbol of the file as it is added again: if undefined it becomes global, and loses its type
      in an object file unless that is TLS. */
  function Readded(e: Entry, toObject: bool): (r: Entry) {
    if Defined(e) then e
    else
      var bind := if Bind(e.info) == STB_LOCAL then STB_GLOBAL else Bind(e.info);
      var keepType := bind != STB_GLOBAL || !toObject || Type(e.info) == STT_TLS;
      e.(info := bind * 16 + if keepType then Type(e.info) else STT_NOTYPE)
  }

  function ReaddCalls(file: seq<Entry>, toObject: bool): (calls: seq<Entry>)
    ensures |calls| == |file|
  {
    seq(|file|, k requires 0 <= k < |file| => Readded(file[k], toObject))
  }

  /** The records from `next` to `end` and their names have not been written over, and the string
      cursor has not reached any of those names. */
  ghost predicate Unread(syms0: seq<Sym>, syms: seq<Sym>, str0: seq<Byte>, str: seq<Byte>, len0: nat,
                         next: nat, end: nat, nsyms: nat, strLen: nat)
  {
    && nsyms <= next <= end <= |syms0| && end <= |syms|
    && (forall j :: next <= j < end ==> syms[j] == syms0[j])
    && (forall j :: next <= j < end && syms0[j].name != 0 ==> strLen <= syms0[j].name)
    && len0 <= |str| && len0 <= |str0| && (forall k :: strLen <= k < len0 ==> str[k] == str0[k])
  }

  /** A name that has not been written over reads back as it was. */
  lemma UnreadName(syms0: seq<Sym>, syms: seq<Sym>, str0: seq<Byte>, str: seq<Byte>, len0: nat,
                   pos: nat, end: nat, nsyms: nat, strLen: nat)
    requires StringsOk(str0, len0) && NamesWithin(syms0, end, len0) && |str| > 0 && str[0] == 0
    requires pos < end && Unread(syms0, syms, str0, str, len0, pos, end, nsyms, strLen)
    ensures StrAt(str, syms0[pos].name) == StrAt(str0, syms0[pos].name)
  {
    if syms0[pos].name != 0 {
      StrAtFrame(str0, str, syms0[pos].name, len0 - 1);
    }
  }

  /** One addition leaves the rest of the file unread: the cursors advance by no more than the record
      and the name just read. */
  lemma UnreadStep(syms0: seq<Sym>, syms1: seq<Sym>, syms2: seq<Sym>, str0: seq<Byte>, str1: seq<Byte>, str2: seq<Byte>,
                   len0: nat, pos: nat, end: nat, nsyms1: nat, nsyms2: nat, strLen1: nat, strLen2: nat)
    requires pos < end && nsyms1 <= pos && nsyms2 <= nsyms1 + 1
    requires end <= |syms0| && end <= |syms1| && forall j :: pos < j < end ==> syms1[j] == syms0[j]
    requires forall j :: pos <= j < end && syms0[j].name != 0 ==> strLen1 <= syms0[j].name
    requires len0 <= |str1| && len0 <= |str0| && forall k :: strLen1 <= k < len0 ==> str1[k] == str0[k]
    requires TailKept(syms1, syms2, nsyms2) && TailKept(str1, str2, strLen2) && strLen1 <= strLen2
    requires var n := StrAt(str0, syms0[pos].name); strLen2 <= strLen1 + if n == [] then 0 else |n| + 1
    requires syms0[pos].name == 0 ==> StrAt(str0, syms0[pos].name) == []
    requires forall j :: pos < j < end && syms0[pos].name != 0 && syms0[j].name != 0 ==>
               NameEnd(syms0[pos], str0) <= syms0[j].name
    ensures Unread(syms0, syms2, str0, str2, len0, pos + 1, end, nsyms2, strLen2)
  {
  }

  /** The first i calls are done: the table, the indices given, and whether all went well. */
  ghost predicate Progress(t: seq<Entry>, calls: seq<Entry>, i: nat, kind: Kind, view: seq<Entry>, tr: seq<nat>,
                           clean: bool)
  {
    && i == |tr| <= |calls| && view == AddUpTo(t, calls, i, kind)
    && (clean <==> NoClash(t, calls, i, kind))
    && forall k {:trigger tr[k]} :: 0 <= k < i ==> tr[k] == Nth(t, calls, k, kind).index && tr[k] < |view|
  }

  lemma ProgressStep(t: seq<Entry>, calls: seq<Entry>, i: nat, kind: Kind, view: seq<Entry>, tr: seq<nat>, clean: bool,
                     r: Added, clean': bool)
    requires Progress(t, calls, i, kind, view, tr, clean) && i < |calls|
    requires r == Add(view, calls[i], kind) && r.index < |r.table| && |view| <= |r.table|
    requires clean' <==> clean && !r.clash
    ensures Progress(t, calls, i + 1, kind, r.table, tr + [r.index], clean')
  {
    assert r == Nth(t, calls, i, kind);
  }

  /** The buffers as they were when the end of the file was reached, and the additions to be made. */
  datatype FileSource = FileSource(syms: seq<Sym>, str: seq<Byte>, len: nat, first: nat, firstStr: nat,
                                   t0: seq<Entry>, calls: seq<Entry>, toObject: bool)
  {
    ghost predicate Ok() {
      && StringsOk(str, len) && NamesWithin(syms, first + |calls|, len)
      && NamesInOrder(syms, str, first, first + |calls|, firstStr, len)
      && forall k :: 0 <= k < |calls| ==> calls[k] == Readded(EntryOf(syms[first + k], str), toObject)
    }
  }

  function NamesOf(t: seq<Entry>): (names: seq<seq<Byte>>)
    ensures |names| == |t|
  {
    seq(|t|, k requires 0 <= k < |t| => t[k].name)
  }

  /** After a file was added again: relocations below `first` are untouched, and every relocation names
      a symbol of the same name as before. */
  ghost predicate SameNames(before: seq<Entry>, after: seq<Entry>, sections: seq<Section>, sections': seq<Section>,
                            table: nat, first: nat)
  {
    && |sections'| == |sections|
    && (forall i :: 0 <= i < |sections| && !RefersTo(sections[i], table) ==> sections'[i] == sections[i])
    && (forall i :: 0 <= i < |sections| && RefersTo(sections[i], table) ==>
          && sections'[i] == sections[i].(rels := sections'[i].rels) && |sections'[i].rels| == |sections[i].rels|
          && forall k :: 0 <= k < |sections[i].rels| ==>
               RelSameName(before, after, sections[i].rels[k], sections'[i].rels[k], first))
  }

  ghost predicate RelSameName(before: seq<Entry>, after: seq<Entry>, rel: Rel, rel': Rel, first: nat) {
    && rel' == rel.(sym := rel'.sym)
    && (rel.sym < first ==> rel' == rel)
    && rel.sym < |before| && rel'.sym < |after| && after[rel'.sym].name == before[rel.sym].name
  }

  /** The renumbering of a file's symbols sends each to one of the same name. */
  lemma FileNames(before: seq<Entry>, calls: seq<Entry>, t0: seq<Entry>, first: nat, toObject: bool, kind: Kind,
                  tr: seq<nat>)
    requires first <= |before| && t0 == before[..first] && IsTable(t0)
    requires calls == ReaddCalls(before[first..], toObject)
    requires |tr| == |calls| && forall k {:trigger tr[k]} :: 0 <= k < |tr| ==> tr[k] == Nth(t0, calls, k, kind).index
    ensures var after := AddAll(t0, calls, kind);
            && first <= |after|
            && (forall j :: 0 <= j < first ==> NamesOf(after)[j] == NamesOf(before)[j])
            && (forall j :: 0 <= j < |tr| ==> tr[j] < |after| && NamesOf(after)[tr[j]] == NamesOf(before)[first + j])
  {
    AddKeepsNames(t0, calls, |calls|, kind);
    forall j | 0 <= j < |tr|
      ensures tr[j] < |AddAll(t0, calls, kind)|
      ensures NamesOf(AddAll(t0, calls, kind))[tr[j]] == NamesOf(before)[first + j]
    {
      IndexNamesForEver(t0, calls, j, |calls|, kind);
      assert calls[j] == Readded(before[first..][j], toObject);
    }
  }

  lemma FileRelocs(before: seq<Entry>, after: seq<Entry>, sections: seq<Section>, sections': seq<Section>,
                   table: nat, first: nat, tr: seq<nat>)
    requires first <= |after| && first + |tr| == |before|
    requires forall j :: 0 <= j < first ==> NamesOf(after)[j] == NamesOf(before)[j]
    requires forall j :: 0 <= j < |tr| ==> tr[j] < |after| && NamesOf(after)[tr[j]] == NamesOf(before)[first + j]
    requires RelsWithin(sections, table, |before|) && Renumbered(sections, sections', table, tr, first)
    ensures SameNames(before, after, sections, sections', table, first)
    ensures RelsWithin(sections', table, |after|)
  {
    RelocationsDenoteTheSame(sections, sections', table, tr, first, NamesOf(before), NamesOf(after));
    forall i | 0 <= i < |sections|
      ensures RenumberedSection(sections[i], sections'[i], table, tr, first)
    {
    }
  }

  /** What a symbol of the file is added again as. A definition stays as it is. A reference becomes global if it was
      local; if it is then global and goes to an object file it has no type, unless that is the thread-local one,
      6; nothing else about it changes. */
  ghost predicate AddedAgain(e: Entry, a: Entry, toObject: bool) {
    && a == e.(info := a.info)
    && (e.shndx != 0 ==> a.info == e.info)
    && (e.shndx == 0 ==>
          && a.info / 16 == (if e.info < 16 then 1 else e.info / 16)
          && a.info % 16 == if toObject && e.info < 32 && e.info % 16 != 6 then 0 else e.info % 16)
  }

  lemma ReaddedIs(e: Entry, toObject: bool)
    ensures AddedAgain(e, Readded(e, toObject), toObject)
  {
    var r := Readded(e, toObject);
    if e.shndx == 0 {
      assert r.info == r.info / 16 * 16 + r.info % 16;
    }
  }

  /** After a file was added again: a relocation that named a global symbol of the file, or a reference of any
      kind, names what a lookup of that name finds, and one that named a local definition names that very record. */
  ghost predicate FollowsNames(before: seq<Entry>, after: seq<Entry>, sections: seq<Section>, sections': seq<Section>,
                               table: nat, first: nat)
  {
    && |sections'| == |sections|
    && forall i, k :: 0 <= i < |sections| && RefersTo(sections[i], table) && 0 <= k < |sections[i].rels| ==>
         k < |sections'[i].rels| && RelFollows(before, after, sections[i].rels[k].sym, sections'[i].rels[k].sym, first)
  }

  ghost predicate RelFollows(before: seq<Entry>, after: seq<Entry>, sym: nat, sym': nat, first: nat) {
    && sym < |before| && sym' < |after|
    && (sym >= first ==>
          if before[sym].shndx == 0 || before[sym].info >= 16 then sym' == Find(after, before[sym].name) > 0
          else after[sym'] == before[sym])
  }

  lemma NewNumberFollows(before: seq<Entry>, calls: seq<Entry>, t0: seq<Entry>, first: nat, toObject: bool, kind: Kind,
                         j: nat)
    requires first <= |before| && t0 == before[..first] && IsTable(t0) && j < |calls|
    requires calls == ReaddCalls(before[first..], toObject)
    ensures RelFollows(before, AddAll(t0, calls, kind), first + j, Nth(t0, calls, j, kind).index, first)
  {
    hide Nth, Readded;
    var e := before[first..][j];
    assert calls[j] == Readded(e, toObject);
    ReaddedIs(e, toObject);
    if IsLocal(calls[j]) {
      LocalStays(t0, calls, j, |calls|, kind);
    } else {
      IndexNamesForEver(t0, calls, j, |calls|, kind);
      IndexIsFound(t0, calls, j, |calls|, kind);
    }
  }

  lemma FileFollows(before: seq<Entry>, calls: seq<Entry>, t0: seq<Entry>, first: nat, toObject: bool, kind: Kind,
                    tr: seq<nat>, sections: seq<Section>, sections': seq<Section>, table: nat)
    requires first <= |before| && t0 == before[..first] && IsTable(t0)
    requires calls == ReaddCalls(before[first..], toObject)
    requires |tr| == |calls| && forall k {:trigger tr[k]} :: 0 <= k < |tr| ==> tr[k] == Nth(t0, calls, k, kind).index
    requires RelsWithin(sections, table, |before|) && Renumbered(sections, sections', table, tr, first)
    ensures FollowsNames(before, AddAll(t0, calls, kind), sections, sections', table, first)
  {
    hide Nth, RelFollows, Readded;
    var after := AddAll(t0, calls, kind);
    AddKeepsNames(t0, calls, |calls|, kind);
    forall i, k | 0 <= i < |sections| && RefersTo(sections[i], table) && 0 <= k < |sections[i].rels|
      ensures k < |sections'[i].rels|
      ensures RelFollows(before, after, sections[i].rels[k].sym, sections'[i].rels[k].sym, first)
    {
      assert RenumberedSection(sections[i], sections'[i], table, tr, first);
      var s := sections[i].rels[k].sym;
      assert sections'[i].rels[k].sym == NewIndex(s, tr, first);
      if s >= first {
        NewNumberFollows(before, calls, t0, first, toObject, kind, s - first);
      } else {
        EarlierFollows(before, after, s, first);
      }
    }
  }

  lemma EarlierFollows(before: seq<Entry>, after: seq<Entry>, s: nat, first: nat)
    requires s < first <= |before| && first <= |after|
    ensures RelFollows(before, after, s, s, first)
  {
  }

  /** No symbol from `first` on is a local reference, whatever the file held. */
  lemma NoLocalReferences(file: seq<Entry>, t0: seq<Entry>, toObject: bool, kind: Kind)
    requires IsTable(t0)
    ensures var r := AddAll(t0, ReaddCalls(file, toObject), kind);
            forall j :: |t0| <= j < |r| && r[j].shndx == 0 ==> r[j].info >= 16
  {
    hide Readded;
    var calls := ReaddCalls(file, toObject);
    forall k | 0 <= k < |calls|
      ensures AddedAgain(file[k], calls[k], toObject)
    {
      ReaddedIs(file[k], toObject);
    }
    hide AddUpTo;
    var r := AddAll(t0, calls, kind);
    assert r == AddUpTo(t0, calls, |calls|, kind);
    ReferencesAreGlobal(t0, calls, |calls|, kind);
    forall j | |t0| <= j < |r| && r[j].shndx == 0
      ensures r[j].info >= 16
    {
      assert !IsLocal(r[j]);
    }
  }

  function LocalityKeys(t: seq<Entry>): (keys: seq<nat>)
    ensures |keys| == |t| && forall i :: 0 <= i < |t| ==> keys[i] < 2
  {
    seq(|t|, i requires 0 <= i < |t| => if IsLocal(t[i]) then 0 else 1)
  }

  /** The order by locality puts the local symbols, and only them, first. */
  lemma LocalsFirst(t: seq<Entry>)
    ensures var r, n := Arranged(t, LocalityKeys(t), 2), CountBelow(LocalityKeys(t), 1, |t|);
            n <= |r| && forall j :: 0 <= j < |r| ==> (r[j].info < 16 <==> j < n)
  {
    var keys := LocalityKeys(t);
    var order, locals := Grouped(keys, 2), Grouped(keys, 1);
    GroupedIsStableOrder(keys, 2);
    GroupedLength(keys, 1);
    GroupedHolds(keys, 1);
    IndicesAreThose(keys, 1, |t|);
    assert order == locals + Indices(keys, 1, |t|);
    forall j | 0 <= j < |t|
      ensures Arranged(t, keys, 2)[j].info < 16 <==> j < |locals|
    {
      if j < |locals| {
        assert order[j] == locals[j] && locals[j] in locals;
      } else {
        assert order[j] in Indices(keys, 1, |t|);
      }
    }
  }

  /** Copies one record to the end of the reordered ones, and remembers where it went. */
  method CollectRecord(syms: seq<Sym>, newSyms0: seq<Sym>, newIndex0: seq<nat>, cur: nat, ghost keys: seq<nat>,
                       ghost g: nat)
    returns (newSyms: seq<Sym>, newIndex: seq<nat>)
    requires cur < |keys| == |newIndex0| && |keys| <= |syms| && keys[cur] == g
    requires InvertsSoFar(newIndex0, SoFar(keys, g, cur)) && GatheredSoFar(syms, newSyms0, SoFar(keys, g, cur))
    ensures |newIndex| == |keys|
    ensures InvertsSoFar(newIndex, SoFar(keys, g, cur + 1)) && GatheredSoFar(syms, newSyms, SoFar(keys, g, cur + 1))
  {
    CollectNext(keys, g, cur, newIndex0);
    newIndex := newIndex0[cur := |newSyms0|];
    newSyms := newSyms0 + [syms[cur]];
  }

  /** One pass of the sort: copies the local, or the other, records to the end of newSyms. */
  method CollectPass(syms: seq<Sym>, n: nat, local: bool, newSyms0: seq<Sym>, newIndex0: seq<nat>, ghost keys: seq<nat>)
    returns (newSyms: seq<Sym>, newIndex: seq<nat>)
    requires n == |keys| == |newIndex0| <= |syms|
    requires forall i :: 0 <= i < n ==> keys[i] == if Bind(syms[i].info) == STB_LOCAL then 0 else 1
    requires var g := if local then 0 else 1;
             InvertsSoFar(newIndex0, Grouped(keys, g)) && GatheredSoFar(syms, newSyms0, Grouped(keys, g))
    ensures var g := if local then 0 else 1;
            |newIndex| == n && InvertsSoFar(newIndex, Grouped(keys, g + 1))
            && GatheredSoFar(syms, newSyms, Grouped(keys, g + 1))
  {
    ghost var g := if local then 0 else 1;
    newSyms, newIndex := newSyms0, newIndex0;
    assert SoFar(keys, g, 0) == Grouped(keys, g);
    var i := 0;
    while i < n
      invariant 0 <= i <= n && |newIndex| == n
      invariant InvertsSoFar(newIndex, SoFar(keys, g, i)) && GatheredSoFar(syms, newSyms, SoFar(keys, g, i))
    {
      if (Bind(syms[i].info) == STB_LOCAL) == local {
        newSyms, newIndex := CollectRecord(syms, newSyms, newIndex, i, keys, g);
      } else {
        assert SoFar(keys, g, i + 1) == SoFar(keys, g, i);
      }
      i := i + 1;
    }
  }

  /** Both passes. */
  method SortRecords(syms: seq<Sym>, n: nat, ghost keys: seq<nat>)
    returns (newSyms: seq<Sym>, newIndex: seq<nat>, localCount: nat)
    requires n == |keys| <= |syms|
    requires forall i :: 0 <= i < n ==> keys[i] == if Bind(syms[i].info) == STB_LOCAL then 0 else 1
    ensures GatheredSoFar(syms, newSyms, Grouped(keys, 2)) && |newSyms| == n
    ensures Inverts(newIndex, Grouped(keys, 2)) && localCount == CountBelow(keys, 1, n)
  {
    assert Grouped(keys, 0) == [];
    newSyms, newIndex := CollectPass(syms, n, true, [], seq(n, _ => 0), keys);
    localCount := |newSyms|;
    GroupedLength(keys, 1);
    newSyms, newIndex := CollectPass(syms, n, false, newSyms, newIndex, keys);
    GroupedIsStableOrder(keys, 2);
  }

  /** newSyms holds the records at the positions of the order, in that order. */
  ghost predicate GatheredSoFar<T>(xs: seq<T>, ys: seq<T>, order: seq<nat>) {
    |ys| == |order| && forall j :: 0 <= j < |order| ==> order[j] < |xs| && ys[j] == xs[order[j]]
  }

  /** Writing the collected records back over the table moves every symbol to its new index. */
  lemma ReorderResult(syms: seq<Sym>, newSyms: seq<Sym>, newIndex: seq<nat>, str: seq<Byte>, n: nat, len: nat,
                      keys: seq<nat>, groups: nat)
    requires NamesWithin(syms, n, len) && |keys| == n && forall i :: 0 <= i < n ==> keys[i] < groups
    requires GatheredSoFar(syms, newSyms, Grouped(keys, groups)) && Inverts(newIndex, Grouped(keys, groups))
    ensures var t, syms' := ViewOf(syms, str, n), Overwrite(syms, 0, newSyms);
            && NamesWithin(syms', n, len)
            && ViewOf(syms', str, n) == Arranged(t, keys, groups)
            && Moved(t, ViewOf(syms', str, n), newIndex)
  {
    GroupedIsStableOrder(keys, groups);
    ReorderedView(syms, Overwrite(syms, 0, newSyms), str, n, len, Grouped(keys, groups));
    OrderIsBijection(keys, Grouped(keys, groups), newIndex, ViewOf(syms, str, n));
  }

  lemma ReorderedView(syms: seq<Sym>, syms': seq<Sym>, str: seq<Byte>, n: nat, len: nat, order: seq<nat>)
    requires n <= |syms| && n <= |syms'| && |order| == n && NamesWithin(syms, n, len)
    requires forall j :: 0 <= j < n ==> order[j] < n && syms'[j] == syms[order[j]]
    ensures NamesWithin(syms', n, len)
    ensures ViewOf(syms', str, n) == Gather(ViewOf(syms, str, n), order)
  {
  }

  /** Every relocation into the table stands for the same symbol as before; nothing else changed. */
  ghost predicate SameDenotation(before: seq<Entry>, after: seq<Entry>, sections: seq<Section>, sections': seq<Section>,
                                 table: nat)
  {
    && |sections'| == |sections|
    && (forall i :: 0 <= i < |sections| && !RefersTo(sections[i], table) ==> sections'[i] == sections[i])
    && (forall i :: 0 <= i < |sections| && RefersTo(sections[i], table) ==>
          && sections'[i] == sections[i].(rels := sections'[i].rels) && |sections'[i].rels| == |sections[i].rels|
          && forall k :: 0 <= k < |sections[i].rels| ==>
               RelSameSymbol(before, after, sections[i].rels[k], sections'[i].rels[k]))
  }

  ghost predicate RelSameSymbol(before: seq<Entry>, after: seq<Entry>, rel: Rel, rel': Rel) {
    && rel' == rel.(sym := rel'.sym)
    && rel.sym < |before| && rel'.sym < |after| && after[rel'.sym] == before[rel.sym]
  }

  /** Every symbol is found, unchanged, at its new index. */
  ghost predicate Moved(before: seq<Entry>, after: seq<Entry>, newIndex: seq<nat>) {
    && |newIndex| == |before| == |after|
    && forall i :: 0 <= i < |before| ==> newIndex[i] < |after| && after[newIndex[i]] == before[i]
  }

  lemma DenotesTheSame(before: seq<Entry>, after: seq<Entry>, sections: seq<Section>, sections': seq<Section>,
                       table: nat, newIndex: seq<nat>)
    requires Moved(before, after, newIndex) && RelsWithin(sections, table, |before|)
    requires Renumbered(sections, sections', table, newIndex, 0)
    ensures SameDenotation(before, after, sections, sections', table)
    ensures RelsWithin(sections', table, |after|)
  {
    RelocationsDenoteTheSame(sections, sections', table, newIndex, 0, before, after);
    forall i | 0 <= i < |sections|
      ensures RenumberedSection(sections[i], sections'[i], table, newIndex, 0)
    {
    }
  }

  class SymbolTable {
    const id: nat // which table this is, for the relocations that refer to it
    const kind: Kind
    var syms: seq<Sym>
    var nsyms: nat
    var str: seq<Byte>
    var strLen: nat
    var hash: seq<nat>
    var hashed: bool // the index is set aside while a file is being compiled
    var nbHashed: nat
    var firstSym: nat // cursors saved when the current file was begun
    var firstStr: nat
    var sections: seq<Section>
    var nbErrors: nat

    function View(): (t: seq<Entry>)
      reads this
      requires nsyms <= |syms|
    {
      ViewOf(syms, str, nsyms)
    }

    /** The records and their names, without the index. */
    ghost predicate RecordsOk()
      reads this
    {
      nsyms > 0 && StringsOk(str, strLen) && NamesWithin(syms, nsyms, strLen)
    }

    ghost predicate Valid()
      reads this
    {
      && RecordsOk() && syms[0] == NULL_SYM
      && (hashed ==> IndexOk(hash, nbHashed, View()))
      && (!hashed ==> FileOk(syms, nsyms, str, strLen, firstSym, firstStr)
                      && IndexOk(hash, nbHashed, ViewOf(syms, str, firstSym)))
    }

    /** Every relocation into this table names one of its symbols. */
    ghost predicate Linked()
      reads this
    {
      RelsWithin(sections, id, nsyms)
    }

    constructor (id: nat, kind: Kind)
      ensures Valid() && Linked() && hashed && this.id == id && this.kind == kind
      ensures View() == [Entry([], 0, 0, 0, 0, 0)] && nbErrors == 0 && sections == []
    {
      this.id, this.kind := id, kind;
      str, strLen := [0], 1;
      syms, nsyms := [NULL_SYM], 1;
      hash := [1, 1, 0, 0];
      hashed, nbHashed := true, 0;
      firstSym, firstStr := 0, 0;
      sections, nbErrors := [], 0;
      new;
      assert View()[..0] == [];
    }

    lemma ViewIsTable()
      requires Valid()
      ensures IsTable(View()) && View()[0] == Entry([], 0, 0, 0, 0, 0)
    {
      assert StrAt(str, 0) == [];
    }

    /** Appends a name and its terminator to the string section. */
    method PutElfStr(name: seq<Byte>) returns (offset: nat)
      requires strLen <= |str|
      modifies this`str, this`strLen
      ensures offset == old(strLen) && strLen == old(strLen) + |name| + 1
      ensures str == Overwrite(old(str), old(strLen), name + [0])
    {
      offset := strLen;
      str := Overwrite(str, offset, name + [0]);
      strLen := strLen + |name| + 1;
    }

    /** Refills the hash section, with a new number of buckets unless that is 0. */
    method RebuildHash(nbuckets: nat)
      requires nsyms > 0 && StringsOk(str, strLen) && NamesWithin(syms, nsyms, strLen)
      requires |hash| >= 1 && hash[0] > 0
      modifies this`hash
      ensures Indexes(hash, View())
      ensures hash[0] == if nbuckets == 0 then old(hash[0]) else nbuckets
    {
      hash := FillHash(syms, str, nsyms, if nbuckets == 0 then hash[0] else nbuckets, hash);
    }

    /** Appends a symbol, and links it into its bucket unless it is local. */
    method PutElfSym(a: Entry) returns (index: nat)
      requires Valid() && NoNul(a.name)
      modifies this`syms, this`nsyms, this`str, this`strLen, this`hash, this`nbHashed
      ensures Valid() && View() == old(View()) + [a]
      ensures index == old(nsyms) && nsyms == index + 1
      ensures strLen == old(strLen) + if a.name == [] then 0 else |a.name| + 1
      ensures Kept(old(syms), old(nsyms), syms, nsyms) && Kept(old(str), old(strLen), str, strLen)
      ensures if hashed then LoadKept(old(hash), hash, View()) else hash == old(hash) && nbHashed == old(nbHashed)
    {
      ghost var t := View();
      ghost var syms0, str0, len0 := syms, str, strLen;
      index := nsyms;
      var offset := 0;
      if a.name != [] {
        offset := PutElfStr(a.name);
      }
      var s := Sym(offset, a.info, a.other, a.shndx, a.value, a.size);
      syms := Overwrite(syms, index, [s]);
      nsyms := index + 1;
      ViewAppend(syms0, index, str0, len0, a, s, str, strLen);
      assert View() == t + [a];
      if hashed {
        LinkLast(t, a);
      } else {
        FileOkAppend(syms0, index, str0, len0, firstSym, firstStr, a, s, str, strLen);
      }
    }

    /** The part of put_elf_sym that maintains the hash section, for the symbol just appended. */
    method LinkLast(ghost t: seq<Entry>, ghost a: Entry)
      requires StringsOk(str, strLen) && NamesWithin(syms, nsyms, strLen)
      requires nsyms == |t| + 1 && View() == t + [a]
      requires IndexOk(hash, nbHashed, t)
      modifies this`hash, this`nbHashed
      ensures IndexOk(hash, nbHashed, View()) && LoadKept(old(hash), hash, View())
    {
      var s := syms[nsyms - 1];
      assert View()[nsyms - 1] == a == EntryOf(s, str);
      CountAppend(t, a);
      hash := LinkWord(hash, StrAt(str, s.name), Bind(s.info) == STB_LOCAL, nsyms - 1, t, a);
      if Bind(s.info) != STB_LOCAL {
        nbHashed := nbHashed + 1;
        if nbHashed > 2 * hash[0] {
          RebuildHash(2 * hash[0]);
        }
      }
    }

    /** Walks the bucket of a name. */
    method FindElfSym(name: seq<Byte>) returns (index: nat)
      requires Valid()
      ensures index == if hashed then Find(View(), name) else 0
    {
      if !hashed { return 0; }
      index := WalkBucket(hash, syms, str, View(), name);
    }

    /** Adds a symbol: appended if it is local, new, or in a file being compiled; merged otherwise. */
    method SetElfSym(a: Entry) returns (index: nat)
      requires Valid() && NoNul(a.name)
      modifies this`syms, this`nsyms, this`str, this`strLen, this`hash, this`nbHashed, this`nbErrors
      ensures Valid()
      ensures hashed ==> Added(View(), index, nbErrors != old(nbErrors)) == Add(old(View()), a, kind)
      ensures !hashed ==> View() == old(View()) + [a] && index == old(nsyms) && nbErrors == old(nbErrors)
      ensures old(nsyms) <= nsyms <= old(nsyms) + 1 && index < nsyms && old(nbErrors) <= nbErrors <= old(nbErrors) + 1
      ensures old(strLen) <= strLen <= old(strLen) + if a.name == [] then 0 else |a.name| + 1
      ensures TailKept(old(syms), syms, nsyms) && TailKept(old(str), str, strLen)
    {
      if Bind(a.info) != STB_LOCAL {
        index := FindElfSym(a.name);
        if index != 0 {
          MergeAt(index, a);
          return;
        }
      }
      index := PutElfSym(a);
    }

    /** Patches the record of an existing symbol in place. */
    method MergeAt(index: nat, a: Entry)
      requires Valid() && hashed && !IsLocal(a)
      requires index != 0 && index == Find(View(), a.name)
      modifies this`syms, this`nbErrors
      ensures Valid() && Added(View(), index, nbErrors != old(nbErrors)) == Add(old(View()), a, kind)
      ensures index < nsyms && old(nbErrors) <= nbErrors <= old(nbErrors) + 1
      ensures TailKept(old(syms), syms, nsyms)
    {
      ghost var t, syms0 := View(), syms;
      FindBelowIsLargest(t, a.name, |t|);
      assert t[index] == EntryOf(syms[index], str);
      ViewIsTable();
      AddFind(t, a, kind, a.name);
      var esym, clash := MeetExisting(syms[index], a.name, a, kind);
      syms := syms[index := esym];
      if clash {
        nbErrors := nbErrors + 1;
      }
      ghost var e := Merge(t[index], a, kind).entry;
      assert View() == t[index := e] by {
        assert EntryOf(esym, str) == e;
      }
      IndexesUpdate(hash, t, index, e);
      CountUpdate(t, index, e);
    }

    /** Remembers where the current file starts, and sets the index aside. */
    method BeginFile()
      requires Valid() && hashed
      modifies this`firstSym, this`firstStr, this`hashed
      ensures Valid() && !hashed && firstSym == nsyms && View() == old(View())
    {
      firstSym, firstStr := nsyms, strLen;
      hashed := false;
    }

    /** What the compiler does to a symbol of the current file: edits its record, not its name. */
    method EditSym(index: nat, info: Byte, other: Byte, shndx: nat, value: nat, size: nat)
      requires Valid() && !hashed && firstSym <= index < nsyms
      modifies this`syms
      ensures Valid()
      ensures var e := old(View())[index];
              View() == old(View())[index := e.(info := info, other := other, shndx := shndx, value := value, size := size)]
    {
      ghost var syms0 := syms;
      var s := Sym(syms[index].name, info, other, shndx, value, size);
      syms := syms[index := s];
      NamesInOrderEdit(syms0, str, firstSym, nsyms, firstStr, strLen, index, s);
      ViewFrame(syms0, syms, str, str, firstSym, firstStr);
    }

    /** Adds a relocation to section i. */
    method PutReloc(i: nat, rel: Rel)
      requires Valid() && Linked() && i < |sections| && sections[i].isRela && rel.sym < nsyms
      modifies this`sections
      ensures Valid() && Linked()
      ensures sections == old(sections)[i := old(sections)[i].(rels := old(sections)[i].rels + [rel])]
    {
      sections := sections[i := sections[i].(rels := sections[i].rels + [rel])];
    }

    /** Adds the record at `pos` again. It lies at or beyond the cursor, so writing the symbol cannot
        destroy a record or a name that has not been read yet. */
    method ReaddOne(pos: nat, toObject: bool, ghost syms0: seq<Sym>, ghost str0: seq<Byte>, ghost len0: nat,
                    ghost end: nat, ghost a: Entry)
      returns (index: nat)
      requires Valid() && hashed
      requires StringsOk(str0, len0) && NamesWithin(syms0, end, len0)
      requires pos < end && Unread(syms0, syms, str0, str, len0, pos, end, nsyms, strLen)
      requires a == Readded(EntryOf(syms0[pos], str0), toObject)
      requires forall j :: pos < j < end && syms0[pos].name != 0 && syms0[j].name != 0 ==>
                 NameEnd(syms0[pos], str0) <= syms0[j].name
      modifies this`syms, this`nsyms, this`str, this`strLen, this`hash, this`nbHashed, this`nbErrors
      ensures Valid()
      ensures Added(View(), index, nbErrors != old(nbErrors)) == Add(old(View()), a, kind)
      ensures index < nsyms && old(nbErrors) <= nbErrors <= old(nbErrors) + 1
      ensures Unread(syms0, syms, str0, str, len0, pos + 1, end, nsyms, strLen)
    {
      UnreadName(syms0, syms, str0, str, len0, pos, end, nsyms, strLen);
      FixUndefined(pos, toObject);
      ghost var syms1, str1, nsyms1, strLen1 := syms, str, nsyms, strLen;
      var name := StrAt(str, syms[pos].name);
      StrAtNoNul(str, syms[pos].name);
      index := SetElfSym(EntryAs(syms[pos], name));
      UnreadStep(syms0, syms1, syms, str0, str1, str, len0, pos, end, nsyms1, nsyms, strLen1, strLen);
    }

    /** Turns an undefined symbol of the file global, in place. */
    method FixUndefined(pos: nat, toObject: bool)
      requires Valid() && hashed && nsyms <= pos < |syms|
      modifies this`syms
      ensures Valid() && View() == old(View())
      ensures |syms| == |old(syms)| && forall j :: 0 <= j < |syms| && j != pos ==> syms[j] == old(syms)[j]
      ensures syms[pos].name == old(syms)[pos].name
      ensures forall name :: EntryAs(syms[pos], name) == Readded(EntryAs(old(syms)[pos], name), toObject)
    {
      ghost var before := syms;
      var sym := syms[pos];
      if sym.shndx == SHN_UNDEF {
        var bind, typ := Bind(sym.info), Type(sym.info);
        if bind == STB_LOCAL {
          bind := STB_GLOBAL;
        }
        if bind == STB_GLOBAL && toObject && typ != STT_TLS {
          typ := STT_NOTYPE;
        }
        syms := syms[pos := sym.(info := bind * 16 + typ)];
      }
      ViewFrame(before, syms, str, str, nsyms, strLen);
    }

    /** The invariant of the loop that adds the records of the file again: i of them are done. */
    ghost predicate Readding(f: FileSource, i: nat, tr: seq<nat>, clean: bool)
      reads this
    {
      && f.Ok() && i <= |f.calls|
      && Valid() && hashed
      && Unread(f.syms, syms, f.str, str, f.len, f.first + i, f.first + |f.calls|, nsyms, strLen)
      && Progress(f.t0, f.calls, i, kind, View(), tr, clean)
    }

    method ReaddNext(toObject: bool, pos: nat, ghost f: FileSource, ghost i: nat, ghost tr: seq<nat>, ghost clean: bool)
      returns (index: nat)
      requires f.toObject == toObject && pos == f.first + i && i < |f.calls|
      requires Readding(f, i, tr, clean)
      modifies this`syms, this`nsyms, this`str, this`strLen, this`hash, this`nbHashed, this`nbErrors
      ensures Readding(f, i + 1, tr + [index], clean && nbErrors == old(nbErrors))
      ensures old(nbErrors) <= nbErrors <= old(nbErrors) + 1
    {
      ghost var view := View();
      index := ReaddOne(pos, toObject, f.syms, f.str, f.len, f.first + |f.calls|, f.calls[i]);
      ghost var r := Added(View(), index, nbErrors != old(nbErrors));
      ProgressStep(f.t0, f.calls, i, kind, view, tr, clean, r, clean && nbErrors == old(nbErrors));
    }

    /** Adds the n records of the file again, from position `first` on. */
    method ReaddAll(first: nat, n: nat, toObject: bool, ghost f: FileSource) returns (tr: seq<nat>)
      requires f.toObject == toObject && first == f.first && n == |f.calls|
      requires Readding(f, 0, [], true)
      modifies this`syms, this`nsyms, this`str, this`strLen, this`hash, this`nbHashed, this`nbErrors
      ensures Readding(f, n, tr, nbErrors == old(nbErrors))
    {
      hide Unread, Progress, IndexOk, NamesWithin, StringsOk, NamesInOrder, Readded;
      tr := [];
      var i := 0;
      while i < n
        invariant 0 <= i <= n && nbErrors >= old(nbErrors)
        invariant Readding(f, i, tr, nbErrors == old(nbErrors))
      {
        var index := ReaddNext(toObject, first + i, f, i, tr, nbErrors == old(nbErrors));
        tr := tr + [index];
        i := i + 1;
      }
    }

    /** Rewinds both cursors to the start of the file and adds its symbols again, over their own
        storage, this time merging them with the symbols that were there before. */
    method EndFile(toObject: bool)
      requires Valid() && Linked() && !hashed
      modifies this`syms, this`nsyms, this`str, this`strLen, this`hash, this`hashed, this`nbHashed,
               this`sections, this`nbErrors
      ensures Valid() && Linked() && hashed
      ensures var before, calls := old(View()[..firstSym]), ReaddCalls(old(View()[firstSym..]), toObject);
              && View() == AddAll(before, calls, kind)
              && (nbErrors == old(nbErrors) <==> NoClash(before, calls, |calls|, kind))
      ensures forall k :: firstSym <= k < old(nsyms) ==>
                AddedAgain(old(View())[k], ReaddCalls(old(View()[firstSym..]), toObject)[k - firstSym], toObject)
      ensures forall j :: firstSym <= j < nsyms && View()[j].shndx == 0 ==> View()[j].info >= 16
      ensures SameNames(old(View()), View(), old(sections), sections, id, firstSym)
      ensures FollowsNames(old(View()), View(), old(sections), sections, id, firstSym)
    {
      hide Readded, SameNames, FollowsNames, AddedAgain, AddUpTo;
      ghost var before, t0 := View(), View()[..firstSym];
      ghost var calls := ReaddCalls(before[firstSym..], toObject);
      var tr := MergeFile(toObject, t0, calls);
      ViewIsTable();
      FileNames(before, calls, t0, firstSym, toObject, kind, tr);
      var sections' := UpdateRelocs(sections, id, tr, firstSym);
      FileRelocs(before, View(), sections, sections', id, firstSym, tr);
      FileFollows(before, calls, t0, firstSym, toObject, kind, tr, sections, sections', id);
      NoLocalReferences(before[firstSym..], t0, toObject, kind);
      forall k | firstSym <= k < |before|
        ensures AddedAgain(before[k], calls[k - firstSym], toObject)
      {
        ReaddedIs(before[k], toObject);
      }
      sections := sections';
    }

    method MergeFile(toObject: bool, ghost t0: seq<Entry>, ghost calls: seq<Entry>) returns (tr: seq<nat>)
      requires Valid() && !hashed
      requires t0 == View()[..firstSym] && calls == ReaddCalls(View()[firstSym..], toObject)
      modifies this`syms, this`nsyms, this`str, this`strLen, this`hash, this`hashed, this`nbHashed, this`nbErrors
      ensures Valid() && hashed && IsTable(t0)
      ensures View() == AddAll(t0, calls, kind)
      ensures nbErrors == old(nbErrors) <==> NoClash(t0, calls, |calls|, kind)
      ensures |tr| == |calls|
      ensures forall k {:trigger tr[k]} :: 0 <= k < |tr| ==> tr[k] == Nth(t0, calls, k, kind).index && tr[k] < nsyms
    {
      hide Nth, IndexOk, StrAt;
      ghost var f := FileSource(syms, str, strLen, firstSym, firstStr, t0, calls, toObject);
      ViewIsTable();
      var n := nsyms - firstSym;
      nsyms, strLen, hashed := firstSym, firstStr, true;
      assert View() == t0;
      tr := ReaddAll(firstSym, n, toObject, f);
    }

    /** Moves the local symbols before the others, keeping the order within each kind, and renumbers the
        relocations. The hash section is not rebuilt. Returns the number of local symbols. */
    method SortSyms() returns (localCount: nat)
      requires RecordsOk() && Linked()
      modifies this`syms, this`sections
      ensures RecordsOk() && Linked()
      ensures View() == Arranged(old(View()), LocalityKeys(old(View())), 2)
      ensures localCount == CountBelow(LocalityKeys(old(View())), 1, nsyms)
      ensures forall j :: 0 <= j < nsyms ==> (View()[j].info < 16 <==> j < localCount)
      ensures SameDenotation(old(View()), View(), old(sections), sections, id)
    {
      var newIndex;
      localCount, newIndex := MoveLocalsFirst();
      RenumberRelocs(newIndex, old(View()));
      LocalsFirst(old(View()));
    }

    method MoveLocalsFirst() returns (localCount: nat, newIndex: seq<nat>)
      requires RecordsOk()
      modifies this`syms
      ensures RecordsOk()
      ensures View() == Arranged(old(View()), LocalityKeys(old(View())), 2)
      ensures localCount == CountBelow(LocalityKeys(old(View())), 1, nsyms)
      ensures Moved(old(View()), View(), newIndex)
    {
      var newSyms;
      newSyms, newIndex, localCount := SortRecords(syms, nsyms, LocalityKeys(View()));
      ReorderResult(syms, newSyms, newIndex, str, nsyms, strLen, LocalityKeys(View()), 2);
      syms := Overwrite(syms, 0, newSyms);
    }

    /** Runs the relocations through the new index of a table whose symbols were moved. */
    method RenumberRelocs(newIndex: seq<nat>, ghost before: seq<Entry>)
      requires nsyms <= |syms| && RelsWithin(sections, id, |before|)
      requires Moved(before, View(), newIndex)
      modifies this`sections
      ensures Linked() && SameDenotation(before, View(), old(sections), sections, id)
    {
      var sections' := UpdateRelocs(sections, id, newIndex, 0);
      DenotesTheSame(before, View(), sections, sections', id, newIndex);
      sections := sections';
    }
  }
}
