/** The loader: adds the symbols of members to the symbol table, pass by pass over the index. */
module ArchiveLoader {
  import opened Bytes
  import opened SymbolIndex
  import opened SymbolMerge
  import opened SymbolTable
  import opened Archive
  import opened ArchiveIndex
  import opened ArchiveEnds

  /** Adds the symbols of one object file, whose sections were placed at the given offsets, then checks its
      relocations. Fails if any error has been reported so far. */
  method LoadObjectFile(table: SymbolTable, member: Member, offset: nat -> nat) returns (ok: bool)
    requires table.Valid() && table.hashed
    requires forall k :: 0 <= k < |member.symbols| ==> NoNul(member.symbols[k].name)
    modifies table
    ensures table.Valid() && table.hashed
    ensures var symbols := Placed(member.symbols, offset);
            && (member.loadable ==>
                  && table.View() == AddAll(old(table.View()), symbols, table.kind)
                  && ok == (table.nbErrors == 0)
                  && (table.nbErrors == 0 <==>
                        && old(table.nbErrors) == 0 && NoClash(old(table.View()), symbols, |symbols|, table.kind)
                        && member.relocatable))
            && (!member.loadable ==> !ok && table.View() == old(table.View()) && table.nbErrors == old(table.nbErrors) + 1)
  {
    hide Add, IndexOk, Placed, PlacedEntry, AddUpTo, NoClash, Nth;
    if !member.loadable {
      table.nbErrors := table.nbErrors + 1;
      return false;
    }
    ghost var t0, symbols := table.View(), Placed(member.symbols, offset);
    NoneAdded(t0, symbols, table.kind);
    var i := 0;
    while i < |member.symbols|
      invariant 0 <= i <= |member.symbols|
      invariant table.Valid() && table.hashed && table.View() == AddUpTo(t0, symbols, i, table.kind)
      invariant table.nbErrors >= old(table.nbErrors)
      invariant table.nbErrors == old(table.nbErrors) <==> NoClash(t0, symbols, i, table.kind)
    {
      var index := table.SetElfSym(PlacedEntry(member.symbols[i], offset(i)));
      OneMore(t0, symbols, i, table.kind);
      i := i + 1;
    }
    if !member.relocatable {
      table.nbErrors := table.nbErrors + 1;
      return false;
    }
    ok := table.nbErrors == 0;
  }

  lemma NoneAdded(t: seq<Entry>, symbols: seq<Entry>, kind: Kind)
    ensures AddUpTo(t, symbols, 0, kind) == t && NoClash(t, symbols, 0, kind)
  {
  }

  lemma OneMore(t: seq<Entry>, symbols: seq<Entry>, k: nat, kind: Kind)
    requires k < |symbols|
    ensures var r := Add(AddUpTo(t, symbols, k, kind), symbols[k], kind);
            && AddUpTo(t, symbols, k + 1, kind) == r.table
            && (NoClash(t, symbols, k + 1, kind) <==> NoClash(t, symbols, k, kind) && !r.clash)
  {
    hide Add;
  }

  /** One index entry: loads its member if the symbol is referred to and undefined. */
  method TryEntry(table: SymbolTable, ar: Ar, i: nat, at: Offsets, loads: nat, ghost loaded0: seq<nat>)
    returns (ok: bool, took: bool, ghost loaded: seq<nat>)
    requires table.Valid() && table.hashed && NamesOk(ar) && i < |ar.index| && loads == |loaded0|
    modifies table
    ensures table.Valid() && table.hashed
    ensures Try(Run(true, old(table.nbErrors) == 0, old(table.View()), loaded0), ar, table.kind, at, ar.index[i])
            == Run(ok, table.nbErrors == 0, table.View(), loaded)
    ensures ok ==> loaded == if took then loaded0 + [ar.index[i].offset] else loaded0
  {
    hide AddAll, NoClash, Placed, Find;
    ok, took, loaded := true, false, loaded0;
    var symIndex := table.FindElfSym(ar.index[i].name);
    if symIndex == 0 || table.syms[symIndex].shndx != SHN_UNDEF {
      return;
    }
    var m := ar.index[i].offset;
    if m !in ar.members {
      table.nbErrors := table.nbErrors + 1;
      ok := false;
      return;
    }
    ok := LoadObjectFile(table, ar.members[m], at(loads));
    took := true;
    if ar.members[m].loadable {
      loaded := loaded0 + [m];
    }
  }

  /** One pass over the index: how many members it loaded. */
  method Pass(table: SymbolTable, ar: Ar, at: Offsets, loads: nat, ghost loaded0: seq<nat>)
    returns (ok: bool, bound: nat, ghost loaded: seq<nat>)
    requires table.Valid() && table.hashed && NamesOk(ar) && loads == |loaded0|
    modifies table
    ensures table.Valid() && table.hashed
    ensures Tries(Run(true, old(table.nbErrors) == 0, old(table.View()), loaded0), ar, table.kind, at, |ar.index|)
            == Run(ok, table.nbErrors == 0, table.View(), loaded)
    ensures ok ==> |loaded| == loads + bound
  {
    hide NamesOk, Try;
    ok, bound, loaded := true, 0, loaded0;
    ghost var r := Run(true, table.nbErrors == 0, table.View(), loaded0);
    var i := 0;
    while i < |ar.index|
      invariant 0 <= i <= |ar.index| && ok && table.Valid() && table.hashed && |loaded| == loads + bound
      invariant Tries(r, ar, table.kind, at, i) == Run(true, table.nbErrors == 0, table.View(), loaded)
    {
      var took;
      ok, took, loaded := TryEntry(table, ar, i, at, loads + bound, loaded);
      if !ok {
        TriesStop(r, ar, table.kind, at, i + 1, |ar.index|);
        return;
      }
      if took {
        bound := bound + 1;
      }
      i := i + 1;
    }
  }

  lemma {:induction false} TriesStop(r: Run, ar: Ar, kind: Kind, at: Offsets, m: nat, n: nat)
    requires m <= n <= |ar.index| && !Tries(r, ar, kind, at, m).ok
    ensures Tries(r, ar, kind, at, n) == Tries(r, ar, kind, at, m)
  {
    if m < n {
      TriesStop(r, ar, kind, at, m, n - 1);
    }
  }

  /** The search from a table: passes until one loads nothing. It is called where it ends. */
  method LoadAlacarte(table: SymbolTable, ar: Ar, at: Offsets) returns (ok: bool, ghost loaded: seq<nat>, ghost k: nat)
    requires table.Valid() && table.hashed && NamesOk(ar)
    requires Stops(Run(true, table.nbErrors == 0, table.View(), []), ar, table.kind, at)
    modifies table
    ensures table.Valid() && table.hashed
    ensures var r := Run(true, old(table.nbErrors) == 0, old(table.View()), []);
            && Passes(r, ar, table.kind, at, k) == Run(ok, table.nbErrors == 0, table.View(), loaded)
            && StopsAt(r, ar, table.kind, at, k)
    ensures ok ==> Settled(table.View(), ar)
    ensures !ok ==> table.nbErrors > 0
  {
    hide NamesOk, Tries, Settled;
    table.ViewIsTable();
    ghost var r := Run(true, table.nbErrors == 0, table.View(), []);
    ghost var last: nat :| StopsAt(r, ar, table.kind, at, last);
    var bound, loads := 1, 0;
    ok, loaded, k := true, [], 0;
    while bound != 0
      invariant table.Valid() && table.hashed && ok && loads == |loaded| && IsTable(table.View())
      invariant Passes(r, ar, table.kind, at, k) == Run(true, table.nbErrors == 0, table.View(), loaded)
      invariant bound != 0 ==> forall j :: 0 <= j <= k ==> !StopsAt(r, ar, table.kind, at, j)
      invariant bound == 0 ==> StopsAt(r, ar, table.kind, at, k) && Settled(table.View(), ar)
      decreases if bound == 0 then 0 else last + 1 - k
    {
      ghost var before := Run(true, table.nbErrors == 0, table.View(), loaded);
      ok, bound, loaded := Pass(table, ar, at, loads, loaded);
      k := k + 1;
      table.ViewIsTable();
      if !ok {
        FailureIsReported(before, ar, table.kind, at, |ar.index|);
        return;
      }
      if bound == 0 {
        TriesPrefix(before, ar, table.kind, at, |ar.index|);
        QuietPassSettles(before, ar, table.kind, at);
      }
      loads := loads + bound;
    }
  }

  lemma {:induction false} TriesPrefix(r: Run, ar: Ar, kind: Kind, at: Offsets, n: nat)
    requires n <= |ar.index|
    ensures r.loaded <= Tries(r, ar, kind, at, n).loaded
  {
    hide Try;
    if n > 0 {
      TriesPrefix(r, ar, kind, at, n - 1);
      TryChoice(Tries(r, ar, kind, at, n - 1), ar, kind, at, ar.index[n - 1]);
    }
  }

  /** For an index that serves every name it lists, the search can be called on every table. */
  lemma ServedCanBeLoaded(table: SymbolTable, ar: Ar, at: Offsets)
    requires table.Valid() && ServesAll(ar)
    ensures Stops(Run(true, table.nbErrors == 0, table.View(), []), ar, table.kind, at)
  {
    hide ServesAll, StopsAt;
    table.ViewIsTable();
    var k := ServedSearchStops(Run(true, table.nbErrors == 0, table.View(), []), ar, table.kind, at);
  }
}
