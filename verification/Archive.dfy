/** Loading from an archive only the members that define a symbol still undefined, until none is left
    that the archive's index could supply: the passes over the index, and when they come to an end. */
module Archive {
  import opened Bytes
  import opened SymbolIndex
  import opened SymbolMerge

  /** An index entry: a symbol name and the offset of the member said to define it. */
  datatype IndexEntry = IndexEntry(name: seq<Byte>, offset: nat)

  /** The members that have a readable header: whether the object file can be loaded at all, the symbols it
      adds, section numbers already converted, and whether all its relocations are valid. */
  datatype Member = Member(loadable: bool, symbols: seq<Entry>, relocatable: bool)

  predicate Usable(m: Member) {
    m.loadable && m.relocatable
  }

  datatype Ar = Ar(index: seq<IndexEntry>, members: map<nat, Member>)

  /** Where the n-th load finds the section of the k-th symbol: the offset added to its value. It differs
      from load to load, since sections grow. */
  type Offsets = nat -> nat -> nat

  /** A symbol with the offset of its section added, unless it is in none. */
  function PlacedEntry(e: Entry, offset: nat): (r: Entry)
    ensures r == e.(value := r.value)
  {
    if e.shndx != SHN_UNDEF && e.shndx < SHN_LORESERVE then e.(value := e.value + offset) else e
  }

  function Placed(symbols: seq<Entry>, offset: nat -> nat): (r: seq<Entry>)
    ensures |r| == |symbols|
    ensures forall k :: 0 <= k < |r| ==> r[k] == PlacedEntry(symbols[k], offset(k))
  {
    seq(|symbols|, k requires 0 <= k < |symbols| => PlacedEntry(symbols[k], offset(k)))
  }

  predicate Undefined(t: seq<Entry>, name: seq<Byte>) {
    Find(t, name) != 0 && !Defined(t[Find(t, name)])
  }

  predicate DefinedIn(t: seq<Entry>, name: seq<Byte>) {
    Find(t, name) != 0 && Defined(t[Find(t, name)])
  }

  predicate Defines(symbols: seq<Entry>, name: seq<Byte>) {
    exists k :: 0 <= k < |symbols| && Names(symbols[k], name) && Defined(symbols[k])
  }

  predicate NamesOk(ar: Ar) {
    && (forall i :: 0 <= i < |ar.index| ==> NoNul(ar.index[i].name))
    && (forall m, k :: m in ar.members && 0 <= k < |ar.members[m].symbols| ==> NoNul(ar.members[m].symbols[k].name))
  }

  /** Nothing is left to load: no symbol of the index is referred to and undefined. */
  predicate Settled(t: seq<Entry>, ar: Ar) {
    forall i :: 0 <= i < |ar.index| ==> !Undefined(t, ar.index[i].name)
  }

  /** An undefined symbol that the index could satisfy, and the member it would take. */
  predicate Wants(t: seq<Entry>, ar: Ar, offset: nat) {
    exists i :: 0 <= i < |ar.index| && Undefined(t, ar.index[i].name) && ar.index[i].offset == offset
  }

  lemma AddDefines(t: seq<Entry>, a: Entry, kind: Kind, name: seq<Byte>)
    requires IsTable(t) && Names(a, name) && Defined(a)
    ensures DefinedIn(Add(t, a, kind).table, name)
  {
    AddFind(t, a, kind, name);
  }

  lemma AddKeepsUndefined(t: seq<Entry>, a: Entry, kind: Kind, name: seq<Byte>)
    requires IsTable(t) && Undefined(t, name) && !(Names(a, name) && Defined(a))
    ensures Undefined(Add(t, a, kind).table, name)
  {
    AddFind(t, a, kind, name);
  }

  /** Once a defining symbol has been added, the name is defined from then on. */
  lemma {:induction false} AddAllDefines(t: seq<Entry>, calls: seq<Entry>, n: nat, kind: Kind, name: seq<Byte>, k: nat)
    requires IsTable(t) && k < n <= |calls| && Names(calls[k], name) && Defined(calls[k])
    ensures DefinedIn(AddUpTo(t, calls, n, kind), name)
  {
    AddKeepsNames(t, calls, n - 1, kind);
    var u := AddUpTo(t, calls, n - 1, kind);
    if k == n - 1 {
      AddDefines(u, calls[k], kind, name);
    } else {
      AddAllDefines(t, calls, n - 1, kind, name, k);
      DefinedOnce(u, calls[n - 1], kind, name);
    }
  }

  /** What loading one member does to the names: defined ones stay, those it defines become so. */
  lemma LoadingDefines(t: seq<Entry>, symbols: seq<Entry>, kind: Kind, name: seq<Byte>)
    requires IsTable(t)
    ensures IsTable(AddAll(t, symbols, kind))
    ensures DefinedIn(t, name) || Defines(symbols, name) ==> DefinedIn(AddAll(t, symbols, kind), name)
  {
    AddKeepsNames(t, symbols, |symbols|, kind);
    if DefinedIn(t, name) {
      DefinedForEver(t, symbols, |symbols|, kind, name);
    } else if Defines(symbols, name) {
      var k :| 0 <= k < |symbols| && Names(symbols[k], name) && Defined(symbols[k]);
      AddAllDefines(t, symbols, |symbols|, kind, name, k);
    }
  }

  lemma {:induction false} StaysUndefined(t: seq<Entry>, calls: seq<Entry>, n: nat, kind: Kind, name: seq<Byte>)
    requires IsTable(t) && Undefined(t, name) && !Defines(calls, name) && n <= |calls|
    ensures IsTable(AddUpTo(t, calls, n, kind)) && Undefined(AddUpTo(t, calls, n, kind), name)
  {
    if n != 0 {
      StaysUndefined(t, calls, n - 1, kind, name);
      AddKeepsNames(t, calls, n, kind);
      AddKeepsUndefined(AddUpTo(t, calls, n - 1, kind), calls[n - 1], kind, name);
    }
  }

  lemma PlacedDefines(symbols: seq<Entry>, offset: nat -> nat, name: seq<Byte>)
    ensures Defines(Placed(symbols, offset), name) <==> Defines(symbols, name)
  {
    var p := Placed(symbols, offset);
    if Defines(symbols, name) {
      var k :| 0 <= k < |symbols| && Names(symbols[k], name) && Defined(symbols[k]);
      assert Names(p[k], name) && Defined(p[k]);
    }
    if Defines(p, name) {
      var k :| 0 <= k < |p| && Names(p[k], name) && Defined(p[k]);
      assert Names(symbols[k], name) && Defined(symbols[k]);
    }
  }

  /** After a load into a table that had no such name, the symbol that stands for it has the information and size
      of the first of the member's best ones, and its value: moved by the offset of its section if it is in one. */
  lemma LoadedRecord(t: seq<Entry>, symbols: seq<Entry>, offset: nat -> nat, kind: Kind, name: seq<Byte>) returns (k: nat)
    requires IsTable(t) && Find(t, name) == 0 && !kind.dynamic && Defines(symbols, name)
    requires var p := Placed(symbols, offset); NoClash(t, p, |p|, kind) && Rankable(p, name) && NoneSet(p, name)
    ensures var r := AddAll(t, Placed(symbols, offset), kind);
            && Find(r, name) != 0 && IsFirstBest(Placed(symbols, offset), |symbols|, name, kind, k)
            && var e := r[Find(r, name)];
               && e.info == symbols[k].info && e.shndx == symbols[k].shndx && e.size == symbols[k].size
               && e.value == symbols[k].value + (if 0 < symbols[k].shndx < 0xff00 then offset(k) else 0)
  {
    hide AddUpTo, NoClash, Rankable, NoneSet, Find;
    var p := Placed(symbols, offset);
    PlacedDefines(symbols, offset, name);
    k := SurvivorIsFirstBest(t, p, |p|, kind, name);
    MaxRankIsMaximum(p, |p|, name, kind);
    var d :| 0 <= d < |p| && Names(p[d], name) && Defined(p[d]);
  }

  /** A load defines a name that was undefined exactly when the member does. */
  lemma LoadPaysIff(t: seq<Entry>, symbols: seq<Entry>, kind: Kind, name: seq<Byte>)
    requires IsTable(t) && Undefined(t, name)
    ensures DefinedIn(AddAll(t, symbols, kind), name) <==> Defines(symbols, name)
  {
    if Defines(symbols, name) {
      LoadingDefines(t, symbols, kind, name);
    } else {
      StaysUndefined(t, symbols, |symbols|, kind, name);
    }
  }

  // The search

  /** The state of a search: whether it goes on, whether no error has been reported, the table, and the
      members loaded so far. */
  datatype Run = Run(ok: bool, clean: bool, table: seq<Entry>, loaded: seq<nat>)

  /** Loading member m: it fails, with nothing added, if it cannot be loaded, and otherwise if there has been
      any error, an invalid relocation among them. */
  ghost function Load(r: Run, ar: Ar, kind: Kind, at: Offsets, m: nat): (r': Run)
    requires m in ar.members
  {
    if !ar.members[m].loadable then r.(ok := false, clean := false)
    else
      var symbols := Placed(ar.members[m].symbols, at(|r.loaded|));
      var clean := r.clean && NoClash(r.table, symbols, |symbols|, kind) && ar.members[m].relocatable;
      Run(clean, clean, AddAll(r.table, symbols, kind), r.loaded + [m])
  }

  /** One index entry. */
  ghost function Try(r: Run, ar: Ar, kind: Kind, at: Offsets, e: IndexEntry): (r': Run) {
    if !r.ok || !Undefined(r.table, e.name) then r
    else if e.offset !in ar.members then r.(ok := false, clean := false)
    else Load(r, ar, kind, at, e.offset)
  }

  /** The first n entries of the index. */
  ghost function Tries(r: Run, ar: Ar, kind: Kind, at: Offsets, n: nat): (r': Run)
    requires n <= |ar.index|
  {
    if n == 0 then r else Try(Tries(r, ar, kind, at, n - 1), ar, kind, at, ar.index[n - 1])
  }

  /** The first k passes over the whole index. */
  ghost function Passes(r: Run, ar: Ar, kind: Kind, at: Offsets, k: nat): (r': Run) {
    if k == 0 then r else Tries(Passes(r, ar, kind, at, k - 1), ar, kind, at, |ar.index|)
  }

  /** The search ends with pass k: it failed, or loaded nothing. */
  ghost predicate StopsAt(r: Run, ar: Ar, kind: Kind, at: Offsets, k: nat) {
    k > 0 && (!Passes(r, ar, kind, at, k).ok || Passes(r, ar, kind, at, k).loaded == Passes(r, ar, kind, at, k - 1).loaded)
  }

  ghost predicate Stops(r: Run, ar: Ar, kind: Kind, at: Offsets) {
    exists k :: StopsAt(r, ar, kind, at, k)
  }

  /** The search from a table, when no error has been reported. */
  function Begin(t: seq<Entry>): (r: Run) {
    Run(true, true, t, [])
  }

  /** What one entry can do: keep the table, or load the member it names because its symbol is undefined. */
  lemma TryChoice(r: Run, ar: Ar, kind: Kind, at: Offsets, e: IndexEntry)
    ensures var r' := Try(r, ar, kind, at, e);
            && (r'.ok ==> r.ok)
            && (r'.loaded == r.loaded ==> r'.table == r.table)
            && (r'.loaded != r.loaded ==>
                  && Undefined(r.table, e.name) && e.offset in ar.members && ar.members[e.offset].loadable
                  && r'.loaded == r.loaded + [e.offset]
                  && r'.table == AddAll(r.table, Placed(ar.members[e.offset].symbols, at(|r.loaded|)), kind)
                  && (r'.ok ==> ar.members[e.offset].relocatable))
            && (r'.ok && r'.loaded == r.loaded ==> !Undefined(r.table, e.name))
  {
    hide AddAll, NoClash, Undefined, Placed;
  }

  /** Through any number of entries names stay defined, and names that are there stay there. */
  lemma {:induction false} TriesKeep(r: Run, ar: Ar, kind: Kind, at: Offsets, m: nat, n: nat, name: seq<Byte>)
    requires IsTable(r.table) && m <= n <= |ar.index|
    ensures var a, b := Tries(r, ar, kind, at, m), Tries(r, ar, kind, at, n);
            && IsTable(a.table) && IsTable(b.table) && (b.ok ==> a.ok) && |a.loaded| <= |b.loaded|
            && (DefinedIn(a.table, name) ==> DefinedIn(b.table, name))
            && (Undefined(a.table, name) ==> Undefined(b.table, name) || DefinedIn(b.table, name))
            && (|a.loaded| == |b.loaded| ==> a.table == b.table && a.loaded == b.loaded)
  {
    hide Try, Undefined, DefinedIn, AddAll;
    if n > 0 {
      TriesKeep(r, ar, kind, at, if m < n then m else m - 1, n - 1, name);
      var u := Tries(r, ar, kind, at, n - 1);
      TryKeeps(u, ar, kind, at, ar.index[n - 1], name);
    }
  }

  lemma TryKeeps(r: Run, ar: Ar, kind: Kind, at: Offsets, e: IndexEntry, name: seq<Byte>)
    requires IsTable(r.table)
    ensures var r' := Try(r, ar, kind, at, e);
            && IsTable(r'.table) && (r'.ok ==> r.ok) && |r.loaded| <= |r'.loaded|
            && (DefinedIn(r.table, name) ==> DefinedIn(r'.table, name))
            && (Undefined(r.table, name) ==> Undefined(r'.table, name) || DefinedIn(r'.table, name))
            && (|r.loaded| == |r'.loaded| ==> r.table == r'.table && r.loaded == r'.loaded)
  {
    hide Try, Undefined, DefinedIn, AddAll;
    TryChoice(r, ar, kind, at, e);
    var r' := Try(r, ar, kind, at, e);
    if r'.loaded != r.loaded {
      var symbols := Placed(ar.members[e.offset].symbols, at(|r.loaded|));
      LoadingDefines(r.table, symbols, kind, name);
      if Undefined(r.table, name) {
        PresentStays(r.table, symbols, kind, name);
      }
    }
  }

  lemma PresentStays(t: seq<Entry>, symbols: seq<Entry>, kind: Kind, name: seq<Byte>)
    requires IsTable(t) && Undefined(t, name)
    ensures Undefined(AddAll(t, symbols, kind), name) || DefinedIn(AddAll(t, symbols, kind), name)
  {
    hide Undefined, DefinedIn, AddAll, Defines;
    if Defines(symbols, name) {
      LoadingDefines(t, symbols, kind, name);
    } else {
      StillUndefined(t, symbols, kind, name);
    }
  }

  lemma StillUndefined(t: seq<Entry>, symbols: seq<Entry>, kind: Kind, name: seq<Byte>)
    requires IsTable(t) && Undefined(t, name) && !Defines(symbols, name)
    ensures Undefined(AddAll(t, symbols, kind), name)
  {
    StaysUndefined(t, symbols, |symbols|, kind, name);
  }

  lemma NotBoth(t: seq<Entry>, name: seq<Byte>)
    ensures !(Undefined(t, name) && DefinedIn(t, name))
  {
  }

  /** A pass that loads nothing and does not fail leaves nothing to load. */
  lemma QuietPassSettles(r: Run, ar: Ar, kind: Kind, at: Offsets)
    requires IsTable(r.table)
    requires var r' := Tries(r, ar, kind, at, |ar.index|); r'.ok && r'.loaded == r.loaded
    ensures var r' := Tries(r, ar, kind, at, |ar.index|); r'.table == r.table && Settled(r'.table, ar)
  {
    hide Try, Undefined, AddAll;
    TriesKeep(r, ar, kind, at, 0, |ar.index|, []);
    forall i | 0 <= i < |ar.index|
      ensures !Undefined(r.table, ar.index[i].name)
    {
      TriesKeep(r, ar, kind, at, 0, i, []);
      TriesKeep(r, ar, kind, at, i, i + 1, []);
      TriesKeep(r, ar, kind, at, i + 1, |ar.index|, []);
      assert Tries(r, ar, kind, at, i + 1) == Try(Tries(r, ar, kind, at, i), ar, kind, at, ar.index[i]);
      TryChoice(Tries(r, ar, kind, at, i), ar, kind, at, ar.index[i]);
    }
  }

  /** A search that gives up has reported an error. */
  lemma {:induction false} FailureIsReported(r: Run, ar: Ar, kind: Kind, at: Offsets, n: nat)
    requires n <= |ar.index| && (!r.ok ==> !r.clean) && !Tries(r, ar, kind, at, n).ok
    ensures !Tries(r, ar, kind, at, n).clean
  {
    hide AddAll, NoClash, Undefined, Placed;
    if n > 0 && !Tries(r, ar, kind, at, n - 1).ok {
      FailureIsReported(r, ar, kind, at, n - 1);
    }
  }

  /** How many of the first n index entries name a symbol that is not defined. */
  function Missing(t: seq<Entry>, ar: Ar, n: nat): (c: nat)
    requires n <= |ar.index|
  {
    if n == 0 then 0 else Missing(t, ar, n - 1) + if DefinedIn(t, ar.index[n - 1].name) then 0 else 1
  }

  /** If every defined index name stays defined, no more are missing; and one fewer at least if some
      name became defined. */
  lemma {:induction false} MissingShrinks(t: seq<Entry>, t': seq<Entry>, ar: Ar, n: nat)
    requires n <= |ar.index|
    requires forall i :: 0 <= i < n && DefinedIn(t, ar.index[i].name) ==> DefinedIn(t', ar.index[i].name)
    ensures Missing(t', ar, n) <= Missing(t, ar, n)
    ensures (exists i :: 0 <= i < n && !DefinedIn(t, ar.index[i].name) && DefinedIn(t', ar.index[i].name)) ==>
              Missing(t', ar, n) < Missing(t, ar, n)
  {
    if n != 0 {
      MissingShrinks(t, t', ar, n - 1);
    }
  }
}
