/** When the archive search comes to an end: from every table exactly if the index serves every name it lists. */
module ArchiveEnds {
  import opened Bytes
  import opened SymbolIndex
  import opened SymbolMerge
  import opened Archive
  import opened ArchiveIndex

  /** Some entry for the name leads to a member that defines it, or that puts an end to the search because it
      is not usable. */
  predicate Served(ar: Ar, name: seq<Byte>) {
    exists j :: 0 <= j < |ar.index| && ar.index[j].name == name && TruthfulEntry(ar, ar.index[j])
  }

  predicate ServesAll(ar: Ar) {
    forall i :: 0 <= i < |ar.index| ==> Served(ar, ar.index[i].name)
  }

  // Served names: the search ends

  lemma {:induction false} FirstLoad(r: Run, ar: Ar, kind: Kind, at: Offsets, n: nat) returns (i: nat)
    requires IsTable(r.table) && n <= |ar.index|
    requires Tries(r, ar, kind, at, n).loaded != r.loaded
    ensures i < n && Undefined(r.table, ar.index[i].name)
  {
    hide Undefined, AddAll, Try;
    if Tries(r, ar, kind, at, n - 1).loaded != r.loaded {
      i := FirstLoad(r, ar, kind, at, n - 1);
    } else {
      i := n - 1;
      TriesKeep(r, ar, kind, at, 0, n - 1, []);
      TryChoice(Tries(r, ar, kind, at, n - 1), ar, kind, at, ar.index[n - 1]);
    }
  }

  /** A name wanted when a pass begins is defined when the pass has gone well, if it is served. */
  lemma ServedIsDefined(r: Run, ar: Ar, kind: Kind, at: Offsets, name: seq<Byte>)
    requires IsTable(r.table) && Undefined(r.table, name) && Served(ar, name)
    requires Tries(r, ar, kind, at, |ar.index|).ok
    ensures DefinedIn(Tries(r, ar, kind, at, |ar.index|).table, name)
  {
    hide Undefined, DefinedIn, AddAll, Try, TruthfulEntry;
    var j :| 0 <= j < |ar.index| && ar.index[j].name == name && TruthfulEntry(ar, ar.index[j]);
    var u := Tries(r, ar, kind, at, j);
    TriesKeep(r, ar, kind, at, 0, j, name);
    TriesKeep(r, ar, kind, at, j, j + 1, name);
    TriesKeep(r, ar, kind, at, j + 1, |ar.index|, name);
    if Undefined(u.table, name) {
      assert Tries(r, ar, kind, at, j + 1) == Try(u, ar, kind, at, ar.index[j]);
      TryPays(u, ar, kind, at, ar.index[j]);
    }
  }

  lemma TryPays(r: Run, ar: Ar, kind: Kind, at: Offsets, e: IndexEntry)
    requires IsTable(r.table) && Undefined(r.table, e.name) && TruthfulEntry(ar, e) && Try(r, ar, kind, at, e).ok
    ensures DefinedIn(Try(r, ar, kind, at, e).table, e.name)
  {
    hide AddAll, Undefined, DefinedIn;
    TryChoice(r, ar, kind, at, e);
    LoadPaysWhenTrue(r.table, ar, kind, e, at(|r.loaded|));
  }

  /** A pass that loads something and goes well leaves fewer index names undefined. */
  lemma PassShrinks(r: Run, ar: Ar, kind: Kind, at: Offsets)
    requires IsTable(r.table) && ServesAll(ar)
    requires var r' := Tries(r, ar, kind, at, |ar.index|); r'.ok && r'.loaded != r.loaded
    ensures Missing(Tries(r, ar, kind, at, |ar.index|).table, ar, |ar.index|) < Missing(r.table, ar, |ar.index|)
  {
    hide Undefined, DefinedIn, Tries, Missing, Served;
    var r' := Tries(r, ar, kind, at, |ar.index|);
    var i := FirstLoad(r, ar, kind, at, |ar.index|);
    NotBoth(r.table, ar.index[i].name);
    ServedIsDefined(r, ar, kind, at, ar.index[i].name);
    forall j | 0 <= j < |ar.index| && DefinedIn(r.table, ar.index[j].name)
      ensures DefinedIn(r'.table, ar.index[j].name)
    {
      PassKeeps(r, ar, kind, at, ar.index[j].name);
    }
    MissingShrinks(r.table, r'.table, ar, |ar.index|);
  }

  lemma PassKeeps(r: Run, ar: Ar, kind: Kind, at: Offsets, name: seq<Byte>)
    requires IsTable(r.table)
    ensures var r' := Tries(r, ar, kind, at, |ar.index|);
            IsTable(r'.table) && (DefinedIn(r.table, name) ==> DefinedIn(r'.table, name))
  {
    hide DefinedIn, Undefined, Try;
    TriesKeep(r, ar, kind, at, 0, |ar.index|, name);
  }

  /** As long as no pass has ended the search, each has made an index name defined. */
  lemma {:induction false} PassesShrink(r: Run, ar: Ar, kind: Kind, at: Offsets, k: nat)
    requires IsTable(r.table) && ServesAll(ar) && forall j :: 0 <= j <= k ==> !StopsAt(r, ar, kind, at, j)
    ensures IsTable(Passes(r, ar, kind, at, k).table)
    ensures Missing(Passes(r, ar, kind, at, k).table, ar, |ar.index|) + k <= Missing(r.table, ar, |ar.index|)
  {
    hide Tries, Missing, ServesAll;
    if k > 0 {
      PassesShrink(r, ar, kind, at, k - 1);
      assert !StopsAt(r, ar, kind, at, k);
      PassKeeps(Passes(r, ar, kind, at, k - 1), ar, kind, at, []);
      PassShrinks(Passes(r, ar, kind, at, k - 1), ar, kind, at);
    }
  }

  /** If every name is served, the search ends, after at most one pass more than there are index entries. */
  lemma ServedSearchStops(r: Run, ar: Ar, kind: Kind, at: Offsets) returns (k: nat)
    requires IsTable(r.table) && ServesAll(ar)
    ensures k <= |ar.index| + 1 && StopsAt(r, ar, kind, at, k)
  {
    hide StopsAt, Missing, ServesAll, Passes;
    MissingAtMost(r.table, ar, |ar.index|);
    k := Missing(r.table, ar, |ar.index|) + 1;
    if forall j :: 0 <= j <= k ==> !StopsAt(r, ar, kind, at, j) {
      PassesShrink(r, ar, kind, at, k);
      assert false;
    }
    k :| 0 <= k <= Missing(r.table, ar, |ar.index|) + 1 && StopsAt(r, ar, kind, at, k);
  }

  lemma {:induction false} MissingAtMost(t: seq<Entry>, ar: Ar, n: nat)
    requires n <= |ar.index|
    ensures Missing(t, ar, n) <= n
  {
    if n > 0 {
      MissingAtMost(t, ar, n - 1);
    }
  }

  // A name that is not served: a table from which the search never ends

  /** A definition made by .set, which any later definition may replace without a clash. */
  predicate Yielding(e: Entry) {
    Defined(e) && AsmSet(e.other)
  }

  predicate Yields(t: seq<Entry>, name: seq<Byte>) {
    Find(t, name) != 0 && Yielding(t[Find(t, name)])
  }

  lemma YieldingMerge(e: Entry, a: Entry, kind: Kind)
    requires Yielding(e)
    ensures !Merge(e, a, kind).clash && Yielding(Merge(e, a, kind).entry)
  {
    WithVisibilityKeepsTheRest(e.other, Tighter(Visibility(e.other), Visibility(a.other)));
  }

  /** Nothing but references to `name`, and no other name that is not among `names`. */
  predicate Harmless(a: Entry, name: seq<Byte>, names: seq<seq<Byte>>) {
    IsLocal(a) || (if a.name == name then !Defined(a) else a.name in names)
  }

  /** The table refers to `name` and has a yielding definition of every other of the names. */
  ghost predicate Stuck(t: seq<Entry>, name: seq<Byte>, names: seq<seq<Byte>>) {
    IsTable(t) && Undefined(t, name) && forall x :: x in names && x != name ==> Yields(t, x)
  }

  lemma AddKeepsStuck(t: seq<Entry>, a: Entry, kind: Kind, name: seq<Byte>, names: seq<seq<Byte>>)
    requires Stuck(t, name, names) && Harmless(a, name, names)
    ensures !Add(t, a, kind).clash && Stuck(Add(t, a, kind).table, name, names)
  {
    hide Merge, Find, Yielding, Defined;
    AddFind(t, a, kind, name);
    AddKeepsUndefined(t, a, kind, name);
    var i := Find(t, a.name);
    if !IsLocal(a) {
      if a.name == name {
        UndefinedMerge(t[i], a, kind);
      } else {
        assert Yields(t, a.name);
        YieldingMerge(t[i], a, kind);
      }
    }
    forall x | x in names && x != name
      ensures Yields(Add(t, a, kind).table, x)
    {
      assert Yields(t, x);
      AddFind(t, a, kind, x);
    }
  }

  lemma UndefinedMerge(e: Entry, a: Entry, kind: Kind)
    requires !Defined(e)
    ensures !Merge(e, a, kind).clash
  {
  }

  lemma {:induction false} LoadKeepsStuck(t: seq<Entry>, symbols: seq<Entry>, n: nat, kind: Kind, name: seq<Byte>, names: seq<seq<Byte>>)
    requires n <= |symbols| && Stuck(t, name, names) && forall k :: 0 <= k < n ==> Harmless(symbols[k], name, names)
    ensures NoClash(t, symbols, n, kind) && Stuck(AddUpTo(t, symbols, n, kind), name, names)
  {
    hide Stuck, Harmless, Add;
    if n > 0 {
      LoadKeepsStuck(t, symbols, n - 1, kind, name, names);
      AddKeepsStuck(AddUpTo(t, symbols, n - 1, kind), symbols[n - 1], kind, name, names);
    }
  }

  function NamesOf(symbols: seq<Entry>): (names: seq<seq<Byte>>)
    ensures |names| == |symbols| && forall k :: 0 <= k < |symbols| ==> names[k] == symbols[k].name
  {
    seq(|symbols|, k requires 0 <= k < |symbols| => symbols[k].name)
  }

  /** Every name the first n entries or the members they lead to mention. */
  function Mentioned(ar: Ar, n: nat): (names: seq<seq<Byte>>)
    requires n <= |ar.index|
  {
    if n == 0 then []
    else
      var e := ar.index[n - 1];
      Mentioned(ar, n - 1) + [e.name] + (if e.offset in ar.members then NamesOf(ar.members[e.offset].symbols) else [])
  }

  lemma {:induction false} MentionedHas(ar: Ar, i: nat, n: nat)
    requires i < n <= |ar.index|
    ensures ar.index[i].name in Mentioned(ar, n)
    ensures ar.index[i].offset in ar.members ==>
              forall k :: 0 <= k < |ar.members[ar.index[i].offset].symbols| ==>
                ar.members[ar.index[i].offset].symbols[k].name in Mentioned(ar, n)
  {
    if i < n - 1 {
      MentionedHas(ar, i, n - 1);
    } else if ar.index[i].offset in ar.members {
      var symbols := ar.members[ar.index[i].offset].symbols;
      forall k | 0 <= k < |symbols|
        ensures symbols[k].name in Mentioned(ar, n)
      {
        assert symbols[k].name == NamesOf(symbols)[k];
      }
    }
  }

  /** What a member's entry may add, if the name is not served. */
  lemma UnservedIsHarmless(ar: Ar, name: seq<Byte>, i: nat, offset: nat -> nat)
    requires i < |ar.index| && ar.index[i].name == name && !Served(ar, name)
    ensures ar.index[i].offset in ar.members && Usable(ar.members[ar.index[i].offset])
    ensures var symbols := Placed(ar.members[ar.index[i].offset].symbols, offset);
            forall k :: 0 <= k < |symbols| ==> Harmless(symbols[k], name, Mentioned(ar, |ar.index|))
  {
    hide Placed, Mentioned;
    assert !TruthfulEntry(ar, ar.index[i]);
    MentionedHas(ar, i, |ar.index|);
    var symbols := ar.members[ar.index[i].offset].symbols;
    forall k | 0 <= k < |symbols|
      ensures Harmless(Placed(symbols, offset)[k], name, Mentioned(ar, |ar.index|))
    {
      assert !(Names(symbols[k], name) && Defined(symbols[k]));
    }
  }

  /** The search has gone well so far and the table is stuck. */
  ghost predicate Looping(r: Run, ar: Ar, name: seq<Byte>) {
    r.ok && r.clean && Stuck(r.table, name, Mentioned(ar, |ar.index|))
  }

  /** Every entry for the name loads its member, in vain; every other entry is passed over. */
  lemma TryLoops(r: Run, ar: Ar, kind: Kind, at: Offsets, name: seq<Byte>, i: nat)
    requires i < |ar.index| && !Served(ar, name) && Looping(r, ar, name)
    ensures var r' := Try(r, ar, kind, at, ar.index[i]);
            Looping(r', ar, name) && r'.loaded == if ar.index[i].name == name then r.loaded + [ar.index[i].offset] else r.loaded
  {
    hide Served, Mentioned, Harmless, AddUpTo, Placed, Yielding;
    var e := ar.index[i];
    if e.name == name {
      UnservedIsHarmless(ar, name, i, at(|r.loaded|));
      var symbols := Placed(ar.members[e.offset].symbols, at(|r.loaded|));
      LoadKeepsStuck(r.table, symbols, |symbols|, kind, name, Mentioned(ar, |ar.index|));
    } else {
      MentionedHas(ar, i, |ar.index|);
      assert Yields(r.table, e.name);
      YieldsIsDefined(r.table, e.name);
    }
  }

  lemma YieldsIsDefined(t: seq<Entry>, name: seq<Byte>)
    requires Yields(t, name)
    ensures !Undefined(t, name)
  {
  }

  lemma {:induction false} TriesLoop(r: Run, ar: Ar, kind: Kind, at: Offsets, name: seq<Byte>, n: nat)
    requires n <= |ar.index| && !Served(ar, name) && Looping(r, ar, name)
    ensures var r' := Tries(r, ar, kind, at, n);
            && Looping(r', ar, name) && |r'.loaded| >= |r.loaded|
            && ((exists i :: 0 <= i < n && ar.index[i].name == name) ==> |r'.loaded| > |r.loaded|)
  {
    hide Served, Looping, Try;
    if n > 0 {
      TriesLoop(r, ar, kind, at, name, n - 1);
      TryLoops(Tries(r, ar, kind, at, n - 1), ar, kind, at, name, n - 1);
    }
  }

  /** Once looping, the search never ends: every pass goes well and loads something. */
  lemma {:induction false} LoopsForEver(r: Run, ar: Ar, kind: Kind, at: Offsets, i: nat, k: nat)
    requires i < |ar.index| && !Served(ar, ar.index[i].name) && Looping(r, ar, ar.index[i].name)
    ensures Looping(Passes(r, ar, kind, at, k), ar, ar.index[i].name) && !StopsAt(r, ar, kind, at, k)
  {
    if k > 0 {
      LoopsForEver(r, ar, kind, at, i, k - 1);
      hide Served, Stuck, Tries;
      TriesLoop(Passes(r, ar, kind, at, k - 1), ar, kind, at, ar.index[i].name, |ar.index|);
    }
  }

  function YieldingEntry(name: seq<Byte>): (e: Entry) {
    Entry(name, 16 * STB_GLOBAL, 4, 1, 0, 0)
  }

  function StuckTable(name: seq<Byte>, names: seq<seq<Byte>>): (t: seq<Entry>) {
    if names == [] then Wanting(name)
    else
      var n := |names| - 1;
      var t := StuckTable(name, names[..n]);
      if names[n] == name then t else t + [YieldingEntry(names[n])]
  }

  lemma {:induction false} StuckTableIsStuck(name: seq<Byte>, names: seq<seq<Byte>>)
    ensures Stuck(StuckTable(name, names), name, names)
  {
    if names == [] {
      WantingIsUndefined(name);
    } else {
      var n := |names| - 1;
      StuckTableIsStuck(name, names[..n]);
      var t, e := StuckTable(name, names[..n]), YieldingEntry(names[n]);
      if names[n] != name {
        forall x
          ensures Find(t + [e], x) == if x == names[n] then |t| else Find(t, x)
        {
          FindBelowAppend(t, e, x, |t|);
        }
      }
      forall x | x in names && x != name
        ensures Yields(StuckTable(name, names), x)
      {
        if x != names[n] {
          assert x in names[..n];
          assert Yields(t, x);
        }
      }
    }
  }

  /** The search ends from every table, wherever members are put, exactly if the index serves every name it
      lists. */
  lemma SearchEndsIffServed(ar: Ar, kind: Kind)
    ensures ServesAll(ar) <==> forall t, at: Offsets :: IsTable(t) ==> Stops(Begin(t), ar, kind, at)
  {
    hide Stops, StopsAt, Served, Passes;
    if ServesAll(ar) {
      forall t, at: Offsets | IsTable(t)
        ensures Stops(Begin(t), ar, kind, at)
      {
        var k := ServedSearchStops(Begin(t), ar, kind, at);
        StopsHere(Begin(t), ar, kind, at, k);
      }
    } else {
      var i :| 0 <= i < |ar.index| && !Served(ar, ar.index[i].name);
      var at: Offsets := _ => _ => 0;
      NoEnd(ar, kind, at, i);
    }
  }

  lemma StopsHere(r: Run, ar: Ar, kind: Kind, at: Offsets, k: nat)
    requires StopsAt(r, ar, kind, at, k)
    ensures Stops(r, ar, kind, at)
  {
  }

  /** A table from which an index that does not serve a name makes the search go on for ever. */
  lemma NoEnd(ar: Ar, kind: Kind, at: Offsets, i: nat)
    requires i < |ar.index| && !Served(ar, ar.index[i].name)
    ensures var t := StuckTable(ar.index[i].name, Mentioned(ar, |ar.index|));
            IsTable(t) && !Stops(Begin(t), ar, kind, at)
  {
    hide StopsAt, Served, Passes, StuckTable;
    var name := ar.index[i].name;
    StuckTableIsStuck(name, Mentioned(ar, |ar.index|));
    var r := Begin(StuckTable(name, Mentioned(ar, |ar.index|)));
    forall k: nat
      ensures !StopsAt(r, ar, kind, at, k)
    {
      LoopsForEver(r, ar, kind, at, i, k);
    }
  }

  /** A table that refers to f, and an archive whose index promises f of a member that is empty: that member is
      loaded in every pass, for ever. */
  lemma EmptyMemberLoadsForEver(kind: Kind, at: Offsets, f: seq<Byte>, k: nat)
    ensures var ar := Ar([IndexEntry(f, 0)], map[0 := Member(true, [], true)]);
            && !Stops(Begin(Wanting(f)), ar, kind, at)
            && Passes(Begin(Wanting(f)), ar, kind, at, k) == Run(true, true, Wanting(f), seq(k, _ => 0))
  {
    var ar := Ar([IndexEntry(f, 0)], map[0 := Member(true, [], true)]);
    forall j: nat
      ensures Passes(Begin(Wanting(f)), ar, kind, at, j) == Run(true, true, Wanting(f), seq(j, _ => 0))
    {
      EmptyMemberPass(kind, at, f, j);
    }
  }

  lemma {:induction false} EmptyMemberPass(kind: Kind, at: Offsets, f: seq<Byte>, k: nat)
    ensures var ar := Ar([IndexEntry(f, 0)], map[0 := Member(true, [], true)]);
            Passes(Begin(Wanting(f)), ar, kind, at, k) == Run(true, true, Wanting(f), seq(k, _ => 0))
  {
    hide Wanting, Undefined;
    if k > 0 {
      var ar := Ar([IndexEntry(f, 0)], map[0 := Member(true, [], true)]);
      EmptyMemberPass(kind, at, f, k - 1);
      WantingIsUndefined(f);
      var r := Passes(Begin(Wanting(f)), ar, kind, at, k - 1);
      assert Tries(r, ar, kind, at, 0) == r;
      assert Tries(r, ar, kind, at, 1) == Try(r, ar, kind, at, ar.index[0]);
      assert Placed([], at(|r.loaded|)) == [];
      assert r.loaded + [0] == seq(k, _ => 0);
    }
  }
}
