/** What an archive's index must say for the search to be good: exactly when every load pays, when each member
    is loaded once, and when the search ends from every table. */
module ArchiveIndex {
  import opened Bytes
  import opened SymbolIndex
  import opened SymbolMerge
  import opened Archive

  // Truthful indices

  /** The index tells the truth: a member it points at, if it is usable, defines the name. */
  predicate TruthfulIndex(ar: Ar) {
    forall i :: 0 <= i < |ar.index| ==> TruthfulEntry(ar, ar.index[i])
  }

  predicate TruthfulEntry(ar: Ar, e: IndexEntry) {
    e.offset in ar.members && Usable(ar.members[e.offset]) ==> Defines(ar.members[e.offset].symbols, e.name)
  }

  /** Whatever the table and wherever the member goes, a usable member loaded on behalf of an entry defines its
      name. */
  ghost predicate EveryLoadPays(ar: Ar, kind: Kind) {
    forall t, i, offset: nat -> nat :: IsTable(t) && 0 <= i < |ar.index| ==> LoadPays(t, ar, kind, ar.index[i], offset)
  }

  predicate LoadPays(t: seq<Entry>, ar: Ar, kind: Kind, e: IndexEntry, offset: nat -> nat) {
    Undefined(t, e.name) && e.offset in ar.members && Usable(ar.members[e.offset]) ==>
      DefinedIn(AddAll(t, Placed(ar.members[e.offset].symbols, offset), kind), e.name)
  }

  const NULL_ENTRY := Entry([], 0, 0, 0, 0, 0)

  function Reference(name: seq<Byte>): (e: Entry) {
    Entry(name, 16 * STB_GLOBAL, 0, SHN_UNDEF, 0, 0)
  }

  /** A table that holds nothing but a reference to a name. */
  function Wanting(name: seq<Byte>): (t: seq<Entry>) {
    [NULL_ENTRY, Reference(name)]
  }

  lemma WantingIsUndefined(name: seq<Byte>)
    ensures IsTable(Wanting(name)) && Undefined(Wanting(name), name)
  {
    FindBelowUnique(Wanting(name), name, 2, 1);
  }

  lemma LoadPaysWhenTrue(t: seq<Entry>, ar: Ar, kind: Kind, e: IndexEntry, offset: nat -> nat)
    requires IsTable(t) && TruthfulEntry(ar, e)
    ensures LoadPays(t, ar, kind, e, offset)
  {
    if Undefined(t, e.name) && e.offset in ar.members && Usable(ar.members[e.offset]) {
      var symbols := ar.members[e.offset].symbols;
      PlacedDefines(symbols, offset, e.name);
      LoadPaysIff(t, Placed(symbols, offset), kind, e.name);
    }
  }

  /** The index is truthful exactly when every load pays for the entry that caused it. */
  lemma TruthfulIffEveryLoadPays(ar: Ar, kind: Kind)
    ensures TruthfulIndex(ar) <==> EveryLoadPays(ar, kind)
  {
    hide LoadPays, TruthfulEntry;
    if TruthfulIndex(ar) {
      forall t, i, offset: nat -> nat | IsTable(t) && 0 <= i < |ar.index|
        ensures LoadPays(t, ar, kind, ar.index[i], offset)
      {
        LoadPaysWhenTrue(t, ar, kind, ar.index[i], offset);
      }
    }
    if EveryLoadPays(ar, kind) {
      forall i | 0 <= i < |ar.index|
        ensures TruthfulEntry(ar, ar.index[i])
      {
        WantingIsUndefined(ar.index[i].name);
        var offset: nat -> nat := _ => 0;
        assert LoadPays(Wanting(ar.index[i].name), ar, kind, ar.index[i], offset);
        TrueWhenLoadPays(ar, kind, ar.index[i], offset);
      }
    }
  }

  lemma TrueWhenLoadPays(ar: Ar, kind: Kind, e: IndexEntry, offset: nat -> nat)
    requires LoadPays(Wanting(e.name), ar, kind, e, offset)
    ensures TruthfulEntry(ar, e)
  {
    WantingIsUndefined(e.name);
    if e.offset in ar.members && Usable(ar.members[e.offset]) {
      var symbols := ar.members[e.offset].symbols;
      PlacedDefines(symbols, offset, e.name);
      LoadPaysIff(Wanting(e.name), Placed(symbols, offset), kind, e.name);
    }
  }

  // What is loaded

  ghost predicate Loadable(ar: Ar, loaded: seq<nat>) {
    forall k :: 0 <= k < |loaded| ==> loaded[k] in ar.members && ar.members[loaded[k]].loadable
  }

  /** The table after loading the members at these offsets, in order. */
  function LoadAll(t: seq<Entry>, ar: Ar, loaded: seq<nat>, kind: Kind, at: Offsets): (r: seq<Entry>)
    requires forall m :: m in loaded ==> m in ar.members
  {
    if loaded == [] then t
    else
      var n := |loaded| - 1;
      AddAll(LoadAll(t, ar, loaded[..n], kind, at), Placed(ar.members[loaded[n]].symbols, at(n)), kind)
  }

  /** Every member was wanted when it was loaded. */
  ghost predicate AllWanted(t0: seq<Entry>, ar: Ar, kind: Kind, at: Offsets, loaded: seq<nat>)
    requires Loadable(ar, loaded)
  {
    forall k :: 0 <= k < |loaded| ==> Wants(LoadAll(t0, ar, loaded[..k], kind, at), ar, loaded[k])
  }

  /** The table is the result of the loads, each of them wanted. */
  ghost predicate Traced(t0: seq<Entry>, ar: Ar, kind: Kind, at: Offsets, r: Run) {
    && IsTable(r.table) && Loadable(ar, r.loaded) && r.table == LoadAll(t0, ar, r.loaded, kind, at)
    && AllWanted(t0, ar, kind, at, r.loaded)
  }

  ghost predicate Distinct(loaded: seq<nat>) {
    forall i, j :: 0 <= i < j < |loaded| ==> loaded[i] != loaded[j]
  }

  /** The names the index promises of the members loaded are defined. */
  ghost predicate Paid(t: seq<Entry>, ar: Ar, loaded: seq<nat>) {
    forall i :: 0 <= i < |ar.index| && ar.index[i].offset in loaded ==> DefinedIn(t, ar.index[i].name)
  }

  lemma LoadAllNext(t0: seq<Entry>, ar: Ar, kind: Kind, at: Offsets, loaded: seq<nat>, m: nat)
    requires m in ar.members && forall k :: k in loaded ==> k in ar.members
    ensures LoadAll(t0, ar, loaded + [m], kind, at)
            == AddAll(LoadAll(t0, ar, loaded, kind, at), Placed(ar.members[m].symbols, at(|loaded|)), kind)
  {
    hide AddAll, Placed;
    assert (loaded + [m])[..|loaded|] == loaded;
  }

  lemma WantedNext(t0: seq<Entry>, ar: Ar, kind: Kind, at: Offsets, loaded: seq<nat>, m: nat)
    requires Loadable(ar, loaded + [m]) && Loadable(ar, loaded) && AllWanted(t0, ar, kind, at, loaded)
    requires Wants(LoadAll(t0, ar, loaded, kind, at), ar, m)
    ensures AllWanted(t0, ar, kind, at, loaded + [m])
  {
    hide LoadAll, Wants;
    forall k | 0 <= k < |loaded| + 1
      ensures Wants(LoadAll(t0, ar, (loaded + [m])[..k], kind, at), ar, (loaded + [m])[k])
    {
      assert (loaded + [m])[..k] == loaded[..k];
      assert k == |loaded| ==> loaded[..k] == loaded;
    }
  }

  lemma TryTraced(t0: seq<Entry>, ar: Ar, kind: Kind, at: Offsets, r: Run, i: nat)
    requires i < |ar.index| && Traced(t0, ar, kind, at, r)
    ensures Traced(t0, ar, kind, at, Try(r, ar, kind, at, ar.index[i]))
  {
    hide Undefined, AddAll, Try, AllWanted, LoadAll;
    var e := ar.index[i];
    TryChoice(r, ar, kind, at, e);
    TryKeeps(r, ar, kind, at, e, []);
    if Try(r, ar, kind, at, e).loaded != r.loaded {
      LoadAllNext(t0, ar, kind, at, r.loaded, e.offset);
      WantedNext(t0, ar, kind, at, r.loaded, e.offset);
    }
  }

  lemma {:induction false} TriesTraced(t0: seq<Entry>, ar: Ar, kind: Kind, at: Offsets, r: Run, n: nat)
    requires n <= |ar.index| && Traced(t0, ar, kind, at, r)
    ensures Traced(t0, ar, kind, at, Tries(r, ar, kind, at, n))
  {
    hide Traced, Try;
    if n > 0 {
      TriesTraced(t0, ar, kind, at, r, n - 1);
      TryTraced(t0, ar, kind, at, Tries(r, ar, kind, at, n - 1), n - 1);
    }
  }

  /** After any number of passes the table is the result of the members loaded, in order, and each was
      loaded because an undefined symbol wanted it. */
  lemma {:induction false} OnlyWantedAreLoaded(t0: seq<Entry>, ar: Ar, kind: Kind, at: Offsets, k: nat)
    requires IsTable(t0)
    ensures Traced(t0, ar, kind, at, Passes(Begin(t0), ar, kind, at, k))
  {
    if k > 0 {
      OnlyWantedAreLoaded(t0, ar, kind, at, k - 1);
      hide Traced, Tries;
      TriesTraced(t0, ar, kind, at, Passes(Begin(t0), ar, kind, at, k - 1), |ar.index|);
    }
  }

  ghost predicate Once(ar: Ar, r: Run) {
    IsTable(r.table) && Distinct(r.loaded) && (r.ok ==> Paid(r.table, ar, r.loaded))
  }

  lemma TryOnce(ar: Ar, kind: Kind, at: Offsets, r: Run, i: nat)
    requires i < |ar.index| && TruthfulIndex(ar) && Once(ar, r)
    ensures Once(ar, Try(r, ar, kind, at, ar.index[i]))
  {
    hide Undefined, DefinedIn, AddAll, Try, TruthfulIndex, Placed;
    var e, r' := ar.index[i], Try(r, ar, kind, at, ar.index[i]);
    TryChoice(r, ar, kind, at, e);
    TryKeeps(r, ar, kind, at, e, []);
    if r'.loaded != r.loaded {
      NotBoth(r.table, e.name);
      if r'.ok {
        PaysNext(ar, kind, at, r, i);
      } else {
        assert r.ok by { StoppedStays(r, ar, kind, at, e); }
      }
    }
  }

  lemma StoppedStays(r: Run, ar: Ar, kind: Kind, at: Offsets, e: IndexEntry)
    ensures !r.ok ==> Try(r, ar, kind, at, e) == r
  {
  }

  /** A usable member just loaded has paid for every entry that names it. */
  lemma PaysNext(ar: Ar, kind: Kind, at: Offsets, r: Run, i: nat)
    requires i < |ar.index| && TruthfulIndex(ar) && IsTable(r.table) && Paid(r.table, ar, r.loaded)
    requires var r' := Try(r, ar, kind, at, ar.index[i]); r'.ok && r'.loaded != r.loaded
    ensures var r' := Try(r, ar, kind, at, ar.index[i]); Paid(r'.table, ar, r'.loaded)
  {
    hide Undefined, DefinedIn, AddAll, Try, TruthfulIndex, Placed;
    var e, r' := ar.index[i], Try(r, ar, kind, at, ar.index[i]);
    TryChoice(r, ar, kind, at, e);
    forall j | 0 <= j < |ar.index| && ar.index[j].offset in r'.loaded
      ensures DefinedIn(r'.table, ar.index[j].name)
    {
      TryKeeps(r, ar, kind, at, e, ar.index[j].name);
      if ar.index[j].offset == e.offset {
        MemberPays(r.table, ar, kind, ar.index[j], at(|r.loaded|));
      }
    }
  }

  /** A truthful member defines every name the index promises of it. */
  lemma MemberPays(t: seq<Entry>, ar: Ar, kind: Kind, e: IndexEntry, offset: nat -> nat)
    requires IsTable(t) && TruthfulIndex(ar) && e in ar.index && e.offset in ar.members && Usable(ar.members[e.offset])
    ensures DefinedIn(AddAll(t, Placed(ar.members[e.offset].symbols, offset), kind), e.name)
  {
    hide AddAll, DefinedIn;
    assert TruthfulEntry(ar, e);
    PlacedDefines(ar.members[e.offset].symbols, offset, e.name);
    LoadingDefines(t, Placed(ar.members[e.offset].symbols, offset), kind, e.name);
  }

  lemma {:induction false} TriesOnce(ar: Ar, kind: Kind, at: Offsets, r: Run, n: nat)
    requires n <= |ar.index| && TruthfulIndex(ar) && Once(ar, r)
    ensures Once(ar, Tries(r, ar, kind, at, n))
  {
    hide Once, Try, TruthfulIndex;
    if n > 0 {
      TriesOnce(ar, kind, at, r, n - 1);
      TryOnce(ar, kind, at, Tries(r, ar, kind, at, n - 1), n - 1);
    }
  }

  /** If the index is truthful, no member is ever loaded twice. */
  lemma {:induction false} LoadedOnce(t0: seq<Entry>, ar: Ar, kind: Kind, at: Offsets, k: nat)
    requires IsTable(t0) && TruthfulIndex(ar)
    ensures Once(ar, Passes(Begin(t0), ar, kind, at, k))
  {
    if k > 0 {
      LoadedOnce(t0, ar, kind, at, k - 1);
      hide Once, Tries, TruthfulIndex;
      TriesOnce(ar, kind, at, Passes(Begin(t0), ar, kind, at, k - 1), |ar.index|);
    }
  }
}
