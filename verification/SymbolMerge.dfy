/** How a new symbol meets an existing one of the same name, and what a whole run of additions leaves. */
module SymbolMerge {
  import opened Bytes
  import opened SymbolIndex

  const STV_DEFAULT: nat := 0
  const STV_INTERNAL: nat := 1
  const STV_HIDDEN: nat := 2
  const STV_PROTECTED: nat := 3
  const SHN_LORESERVE: nat := 0xff00
  const SHN_COMMON: nat := 0xfff2

  /** The table a symbol is added to: the index of its bss section, and whether it is a dynamic one. */
  datatype Kind = Kind(bss: nat, dynamic: bool)

  function Visibility(other: Byte): (v: nat) { other % 4 }

  /** The mark left by the assembler's .set directive: such a definition may be replaced. */
  predicate AsmSet(other: Byte) { other / 4 % 2 == 1 }

  /** How constraining a visibility is: default, protected, hidden, internal. */
  function Level(v: nat): (l: nat)
    requires v < 4
  {
    if v == STV_DEFAULT then 0 else 4 - v
  }

  function Tighter(v: nat, w: nat): (t: nat)
    requires v < 4 && w < 4
  {
    if Level(v) < Level(w) then w else v
  }

  function WithVisibility(other: Byte, v: nat): (o: Byte)
    requires v < 4
  {
    other - other % 4 + v
  }

  lemma WithVisibilityKeepsTheRest(other: Byte, v: nat)
    requires v < 4
    ensures Visibility(WithVisibility(other, v)) == v && AsmSet(WithVisibility(other, v)) == AsmSet(other)
  {
    assert WithVisibility(other, v) / 4 == other / 4;
  }

  predicate Defined(e: Entry) { e.shndx != SHN_UNDEF }

  predicate Tentative(shndx: nat, kind: Kind) {
    shndx == SHN_COMMON || shndx == kind.bss
  }

  predicate SameRecord(e: Entry, a: Entry) {
    e.value == a.value && e.size == a.size && e.info == a.info && e.other == a.other && e.shndx == a.shndx
  }

  /** e redefined by a: everything but the name and the st_other byte comes from a. */
  function Patched(e: Entry, a: Entry): (r: Entry) {
    e.(info := a.info, shndx := a.shndx, value := a.value, size := a.size)
  }

  datatype Outcome = Keep | Replace | Clash

  /** Which of two definitions of a name survives. */
  function Contest(e: Entry, a: Entry, kind: Kind): (o: Outcome) {
    if Bind(a.info) == STB_GLOBAL && Bind(e.info) == STB_WEAK then Replace
    else if Bind(a.info) == STB_WEAK && (Bind(e.info) == STB_GLOBAL || Bind(e.info) == STB_WEAK) then Keep
    else if Visibility(a.other) == STV_HIDDEN || Visibility(a.other) == STV_INTERNAL then Keep
    else if kind.dynamic then Keep
    else if Tentative(e.shndx, kind) && a.shndx < SHN_LORESERVE && a.shndx != kind.bss then Replace
    else if Tentative(a.shndx, kind) then Keep
    else if AsmSet(e.other) then Replace
    else Clash
  }

  datatype Merged = Merged(entry: Entry, clash: bool)

  /** The symbol that stands for the name once a has been added to e. */
  function Merge(e: Entry, a: Entry, kind: Kind): (m: Merged) {
    if SameRecord(e, a) then Merged(e, false)
    else if !Defined(e) then Merged(Patched(e, a).(other := a.other), false)
    else
      var e1 := e.(other := WithVisibility(e.other, Tighter(Visibility(e.other), Visibility(a.other))));
      if !Defined(a) then Merged(e1, false)
      else match Contest(e, a, kind)
        case Keep => Merged(e1, false)
        case Replace => Merged(Patched(e1, a), false)
        case Clash => Merged(e1, true)
  }

  /** A table after one addition, the index of the symbol that stands for it, and whether it clashed. */
  datatype Added = Added(table: seq<Entry>, index: nat, clash: bool)

  function Add(t: seq<Entry>, a: Entry, kind: Kind): (r: Added) {
    var i := Find(t, a.name);
    if IsLocal(a) || i == 0 then Added(t + [a], |t|, false)
    else
      var m := Merge(t[i], a, kind);
      Added(t[i := m.entry], i, m.clash)
  }

  /** The table after the first n of a run of additions. */
  function AddUpTo(t: seq<Entry>, calls: seq<Entry>, n: nat, kind: Kind): (r: seq<Entry>)
    requires n <= |calls|
    decreases n, 0
  {
    if n == 0 then t else Nth(t, calls, n - 1, kind).table
  }

  /** The k-th addition of a run. */
  function Nth(t: seq<Entry>, calls: seq<Entry>, k: nat, kind: Kind): (r: Added)
    requires k < |calls|
    decreases k, 1
  {
    Add(AddUpTo(t, calls, k, kind), calls[k], kind)
  }

  function AddAll(t: seq<Entry>, calls: seq<Entry>, kind: Kind): (r: seq<Entry>) {
    AddUpTo(t, calls, |calls|, kind)
  }

  ghost predicate NoClash(t: seq<Entry>, calls: seq<Entry>, n: nat, kind: Kind)
    requires n <= |calls|
  {
    n == 0 || (NoClash(t, calls, n - 1, kind) && !Nth(t, calls, n - 1, kind).clash)
  }

  /** A table starts with the null symbol, which is local. */
  predicate IsTable(t: seq<Entry>) {
    |t| > 0 && IsLocal(t[0])
  }

  /** undefined < weak < tentative global < other global */
  function Rank(e: Entry, kind: Kind): (r: nat) {
    if !Defined(e) then 0
    else if Bind(e.info) == STB_WEAK then 1
    else if Tentative(e.shndx, kind) then 2
    else 3
  }

  function RankOf(t: seq<Entry>, name: seq<Byte>, kind: Kind): (r: nat) {
    if Find(t, name) == 0 then 0 else Rank(t[Find(t, name)], kind)
  }

  function MaxRank(calls: seq<Entry>, n: nat, name: seq<Byte>, kind: Kind): (r: nat)
    requires n <= |calls|
  {
    if n == 0 then 0
    else
      var r := MaxRank(calls, n - 1, name, kind);
      if Names(calls[n - 1], name) && Rank(calls[n - 1], kind) > r then Rank(calls[n - 1], kind) else r
  }

  predicate GlobalOrWeak(e: Entry) {
    Bind(e.info) == STB_GLOBAL || Bind(e.info) == STB_WEAK
  }

  /** The branches in which a better definition is turned away: the new symbol is hidden or internal,
      or the table is a dynamic one. */
  predicate TurnedAway(e: Entry, a: Entry, kind: Kind) {
    && (Visibility(a.other) == STV_HIDDEN || Visibility(a.other) == STV_INTERNAL || kind.dynamic)
    && Defined(e) && Bind(e.info) == STB_GLOBAL && Bind(a.info) == STB_GLOBAL
    && Rank(a, kind) > Rank(e, kind)
  }

  /** An addition that does not clash leaves the higher of the two ranks, except exactly when it
      turns the better definition away. */
  lemma MergeTakesHigherRank(e: Entry, a: Entry, kind: Kind)
    requires GlobalOrWeak(e) && GlobalOrWeak(a)
    requires !Merge(e, a, kind).clash
    ensures var r := Rank(Merge(e, a, kind).entry, kind);
            (r == if Rank(a, kind) > Rank(e, kind) then Rank(a, kind) else Rank(e, kind)) <==> !TurnedAway(e, a, kind)
    ensures GlobalOrWeak(Merge(e, a, kind).entry)
  {
  }

  /** A defined symbol stays defined, and its visibility becomes exactly the tighter of the two. */
  lemma MergeKeepsDefinition(e: Entry, a: Entry, kind: Kind)
    requires Defined(e)
    ensures var m := Merge(e, a, kind).entry;
            && Defined(m)
            && Level(Visibility(m.other)) ==
               (if Level(Visibility(a.other)) > Level(Visibility(e.other)) then Level(Visibility(a.other))
                else Level(Visibility(e.other)))
  {
  }

  /** What an addition does to the lookup of any name. */
  lemma AddFind(t: seq<Entry>, a: Entry, kind: Kind, name: seq<Byte>)
    requires IsTable(t)
    ensures var r := Add(t, a, kind);
            && IsTable(r.table)
            && |t| <= |r.table| && r.index < |r.table|
            && r.table[r.index].name == a.name
            && (Names(a, name) ==> Find(r.table, name) == r.index && !IsLocal(r.table[r.index]))
            && (!Names(a, name) ==> Find(r.table, name) == Find(t, name))
            && (!Names(a, name) && Find(t, name) != 0 ==> r.table[Find(t, name)] == t[Find(t, name)])
            && (forall k :: 0 <= k < |t| ==> r.table[k].name == t[k].name && IsLocal(r.table[k]) == IsLocal(t[k]))
  {
    var i := Find(t, a.name);
    FindBelowIsLargest(t, a.name, |t|);
    FindBelowIsLargest(t, name, |t|);
    if IsLocal(a) || i == 0 {
      FindBelowAppend(t, a, name, |t|);
      assert (t + [a])[|t|] == a;
    } else {
      var e := Merge(t[i], a, kind).entry;
      FindBelowUpdate(t, i, e, name, |t|);
    }
  }

  /** Adding never renames a symbol, never changes its locality and never removes one. */
  lemma {:induction false} AddKeepsNames(t: seq<Entry>, calls: seq<Entry>, n: nat, kind: Kind)
    requires IsTable(t) && n <= |calls|
    ensures var r := AddUpTo(t, calls, n, kind);
            && IsTable(r) && |t| <= |r|
            && forall k :: 0 <= k < |t| ==> r[k].name == t[k].name && IsLocal(r[k]) == IsLocal(t[k])
  {
    if n != 0 {
      AddKeepsNames(t, calls, n - 1, kind);
      AddFind(AddUpTo(t, calls, n - 1, kind), calls[n - 1], kind, []);
    }
  }

  /** The index given to an addition names the same symbol for the rest of the run. */
  lemma {:induction false} IndexNamesForEver(t: seq<Entry>, calls: seq<Entry>, k: nat, n: nat, kind: Kind)
    requires IsTable(t) && k < n <= |calls|
    ensures var r, i := AddUpTo(t, calls, n, kind), Nth(t, calls, k, kind).index;
            i < |r| && r[i].name == calls[k].name
    decreases n
  {
    AddKeepsNames(t, calls, n - 1, kind);
    AddFind(AddUpTo(t, calls, n - 1, kind), calls[n - 1], kind, []);
    if k < n - 1 {
      IndexNamesForEver(t, calls, k, n - 1, kind);
    }
  }

  /** Once a name is defined, every later addition leaves it defined and no less constrained. */
  lemma {:induction false} DefinedForEver(t: seq<Entry>, calls: seq<Entry>, n: nat, kind: Kind, name: seq<Byte>)
    requires IsTable(t) && n <= |calls|
    requires Find(t, name) != 0 && Defined(t[Find(t, name)])
    ensures var r, i := AddUpTo(t, calls, n, kind), Find(t, name);
            && Find(r, name) == i < |r| && Defined(r[i])
            && Level(Visibility(r[i].other)) >= Level(Visibility(t[i].other))
  {
    if n != 0 {
      DefinedForEver(t, calls, n - 1, kind, name);
      AddKeepsNames(t, calls, n - 1, kind);
      DefinedOnce(AddUpTo(t, calls, n - 1, kind), calls[n - 1], kind, name);
    }
  }

  lemma DefinedOnce(t: seq<Entry>, a: Entry, kind: Kind, name: seq<Byte>)
    requires IsTable(t) && Find(t, name) != 0 && Defined(t[Find(t, name)])
    ensures var r, i := Add(t, a, kind).table, Find(t, name);
            && Find(r, name) == i < |r| && Defined(r[i])
            && Level(Visibility(r[i].other)) >= Level(Visibility(t[i].other))
  {
    AddFind(t, a, kind, name);
    if Names(a, name) {
      MergeKeepsDefinition(t[Find(t, name)], a, kind);
    }
  }

  /** Calls a reader of the symbol `name` may rank: bound global or weak, and visible. */
  predicate Rankable(calls: seq<Entry>, name: seq<Byte>) {
    forall k :: 0 <= k < |calls| && Names(calls[k], name) ==>
      GlobalOrWeak(calls[k]) && Visibility(calls[k].other) != STV_HIDDEN && Visibility(calls[k].other) != STV_INTERNAL
  }

  /** The symbol that stands for `name`, if there is one, is bound global or weak. */
  predicate StandsWell(t: seq<Entry>, name: seq<Byte>) {
    Find(t, name) != 0 ==> GlobalOrWeak(t[Find(t, name)])
  }

  lemma AddTakesHigherRank(t: seq<Entry>, a: Entry, kind: Kind, name: seq<Byte>)
    requires IsTable(t) && StandsWell(t, name) && !kind.dynamic
    requires Names(a, name)
    requires Rankable([a], name) && !Add(t, a, kind).clash
    ensures var r := Add(t, a, kind).table;
            && StandsWell(r, name)
            && RankOf(r, name, kind) ==
               if Rank(a, kind) > RankOf(t, name, kind) then Rank(a, kind) else RankOf(t, name, kind)
  {
    assert [a][0] == a;
    AddFind(t, a, kind, name);
    var i := Find(t, name);
    if i != 0 {
      MergeTakesHigherRank(t[i], a, kind);
    }
  }

  /** In a table that is not dynamic, over any run without a clash, the symbol that stands for a name
      has the highest rank among all the symbols added under that name. */
  lemma {:induction false} SurvivorHasHighestRank(t: seq<Entry>, calls: seq<Entry>, n: nat, kind: Kind, name: seq<Byte>)
    requires IsTable(t) && Find(t, name) == 0 && !kind.dynamic && n <= |calls|
    requires NoClash(t, calls, n, kind) && Rankable(calls, name)
    ensures StandsWell(AddUpTo(t, calls, n, kind), name)
    ensures RankOf(AddUpTo(t, calls, n, kind), name, kind) == MaxRank(calls, n, name, kind)
  {
    if n != 0 {
      SurvivorHasHighestRank(t, calls, n - 1, kind, name);
      AddKeepsNames(t, calls, n - 1, kind);
      var u, last := AddUpTo(t, calls, n - 1, kind), calls[n - 1];
      assert !Nth(t, calls, n - 1, kind).clash;
      if Names(last, name) {
        assert Rankable([last], name);
        AddTakesHigherRank(u, last, kind, name);
      } else {
        AddFind(u, last, kind, name);
      }
    }
  }

  lemma {:induction false} MaxRankIsMaximum(calls: seq<Entry>, n: nat, name: seq<Byte>, kind: Kind)
    requires n <= |calls|
    ensures forall k :: 0 <= k < n && Names(calls[k], name) ==> Rank(calls[k], kind) <= MaxRank(calls, n, name, kind)
    ensures MaxRank(calls, n, name, kind) != 0 ==>
              exists k :: 0 <= k < n && Names(calls[k], name) && Rank(calls[k], kind) == MaxRank(calls, n, name, kind)
  {
    if n != 0 {
      MaxRankIsMaximum(calls, n - 1, name, kind);
    }
  }

  /** The order of the additions does not matter to the rank of the survivor. */
  lemma OrderDoesNotMatter(t: seq<Entry>, calls: seq<Entry>, calls': seq<Entry>, kind: Kind, name: seq<Byte>)
    requires IsTable(t) && Find(t, name) == 0 && !kind.dynamic
    requires multiset(calls) == multiset(calls')
    requires NoClash(t, calls, |calls|, kind) && NoClash(t, calls', |calls'|, kind) && Rankable(calls, name)
    ensures RankOf(AddAll(t, calls, kind), name, kind) == RankOf(AddAll(t, calls', kind), name, kind)
  {
    forall k | 0 <= k < |calls'|
      ensures calls'[k] in calls
    {
      assert calls'[k] in multiset(calls');
    }
    forall k | 0 <= k < |calls|
      ensures calls[k] in calls'
    {
      assert calls[k] in multiset(calls);
    }
    SurvivorHasHighestRank(t, calls, |calls|, kind, name);
    SurvivorHasHighestRank(t, calls', |calls'|, kind, name);
    MaxRankIsMaximum(calls, |calls|, name, kind);
    MaxRankIsMaximum(calls', |calls'|, name, kind);
  }

  // Which record survives

  /** m has the information, section, value and size of e. */
  predicate RecordOf(m: Entry, e: Entry) {
    m.info == e.info && m.shndx == e.shndx && m.value == e.value && m.size == e.size
  }

  predicate Visible(a: Entry) {
    a.other % 4 == 0 || a.other % 4 == 3
  }

  /** Records are never mixed: but for st_other, the result is wholly the old symbol or wholly the new one. It is
      the new one if the old one was a reference, and the old one if the new one is a reference or they clash. */
  lemma MergeIsWhole(e: Entry, a: Entry, kind: Kind)
    ensures var m := Merge(e, a, kind);
            && m.entry.name == e.name && (RecordOf(m.entry, e) || RecordOf(m.entry, a))
            && (e.shndx == 0 ==> RecordOf(m.entry, a) && m.entry.other == a.other)
            && (e.shndx != 0 && (a.shndx == 0 || m.clash) ==> RecordOf(m.entry, e))
  {
  }

  /** Without a clash the new record is taken exactly if it has the higher rank and is not turned away, if the old
      one was a reference, or if it replaces one made by .set. */
  lemma MergeTakesRecord(e: Entry, a: Entry, kind: Kind)
    requires GlobalOrWeak(e) && GlobalOrWeak(a) && !Merge(e, a, kind).clash
    ensures var taken :=
              || e.shndx == 0
              || (Rank(a, kind) > Rank(e, kind) && !TurnedAway(e, a, kind))
              || (Rank(a, kind) == Rank(e, kind) == 3 && e.other / 4 % 2 == 1 && Visible(a) && !kind.dynamic);
            RecordOf(Merge(e, a, kind).entry, if taken then a else e)
  {
  }

  /** Two symbols clash exactly if they differ, the table is not dynamic, the new one is visible and a definition
      proper, the old one was not made by .set, and is a definition proper too or gives way to real sections only. */
  lemma ClashesIff(e: Entry, a: Entry, kind: Kind)
    requires GlobalOrWeak(e) && GlobalOrWeak(a)
    ensures Merge(e, a, kind).clash <==>
              && !(RecordOf(e, a) && e.other == a.other) && !kind.dynamic && Visible(a) && e.other / 4 % 2 == 0
              && Rank(a, kind) == 3 && (Rank(e, kind) == 3 || (Rank(e, kind) == 2 && a.shndx >= 0xff00))
  {
  }

  /** A common symbol, or one in bss, gives way to a definition in any other section, whichever comes first. */
  lemma CommonGivesWay(c: Entry, d: Entry, kind: Kind)
    requires c.info / 16 == 1 && d.info / 16 == 1 && Visible(c) && Visible(d) && !kind.dynamic
    requires c.shndx != 0 && (c.shndx == 0xfff2 || c.shndx == kind.bss)
    requires 0 < d.shndx < 0xff00 && d.shndx != kind.bss
    ensures !Merge(c, d, kind).clash && RecordOf(Merge(c, d, kind).entry, d)
    ensures !Merge(d, c, kind).clash && RecordOf(Merge(d, c, kind).entry, d)
  {
  }

  /** A global definition replaces a weak one and is not replaced by one, and the first of two weak ones stays. */
  lemma WeakGivesWay(w: Entry, g: Entry, kind: Kind)
    requires w.info / 16 == 2 && w.shndx != 0 && g.shndx != 0
    ensures g.info / 16 == 1 ==> !Merge(w, g, kind).clash && RecordOf(Merge(w, g, kind).entry, g)
    ensures g.info / 16 == 1 || g.info / 16 == 2 ==> !Merge(g, w, kind).clash && RecordOf(Merge(g, w, kind).entry, g)
  {
  }

  /** The visibility a definition ends with: the one of two that is not default, or else the smaller number. The
      other bits of st_other stay. */
  lemma VisibilityJoins(e: Entry, a: Entry, kind: Kind)
    requires e.shndx != 0
    ensures var o, v, w := Merge(e, a, kind).entry.other, e.other % 4, a.other % 4;
            && o / 4 == e.other / 4
            && o % 4 == if v == 0 then w else if w == 0 then v else if v < w then v else w
  {
  }

  /** No symbol called `name` was made by .set. */
  predicate NoneSet(calls: seq<Entry>, name: seq<Byte>) {
    forall k :: 0 <= k < |calls| && Names(calls[k], name) ==> calls[k].other / 4 % 2 == 0
  }

  /** The k-th is the first of the first n calls that has the highest rank under `name`. */
  predicate IsFirstBest(calls: seq<Entry>, n: nat, name: seq<Byte>, kind: Kind, k: nat) {
    && k < n <= |calls| && Names(calls[k], name)
    && (forall j :: 0 <= j < k && Names(calls[j], name) ==> Rank(calls[j], kind) < Rank(calls[k], kind))
    && (forall j :: k < j < n && Names(calls[j], name) ==> Rank(calls[j], kind) <= Rank(calls[k], kind))
  }

  /** One more call under the name: the record is its own if it ranks higher than all before. */
  lemma BestNext(t: seq<Entry>, a: Entry, kind: Kind, name: seq<Byte>)
    requires IsTable(t) && StandsWell(t, name) && !kind.dynamic && Names(a, name)
    requires Rankable([a], name) && NoneSet([a], name) && !Add(t, a, kind).clash
    requires Find(t, name) != 0 ==> t[Find(t, name)].other / 4 % 2 == 0
    ensures var r := Add(t, a, kind).table; var i := Find(r, name);
            && i != 0 && r[i].other / 4 % 2 == 0
            && (RankOf(t, name, kind) == 0 || Rank(a, kind) > RankOf(t, name, kind) ==> RecordOf(r[i], a))
            && (RankOf(t, name, kind) > 0 && Rank(a, kind) <= RankOf(t, name, kind) ==> RecordOf(r[i], t[Find(t, name)]))
  {
    assert [a][0] == a;
    AddFind(t, a, kind, name);
    var i := Find(t, name);
    if i != 0 {
      FindBelowIsLargest(t, name, |t|);
      MergeTakesRecord(t[i], a, kind);
      if t[i].shndx != 0 {
        VisibilityJoins(t[i], a, kind);
      } else {
        MergeIsWhole(t[i], a, kind);
      }
    }
  }

  lemma FirstBestNext(calls: seq<Entry>, n: nat, name: seq<Byte>, kind: Kind, k: nat)
    requires 0 < n <= |calls|
    requires MaxRank(calls, n - 1, name, kind) > 0 ==> IsFirstBest(calls, n - 1, name, kind, k)
    ensures var last, r := calls[n - 1], MaxRank(calls, n - 1, name, kind);
            && MaxRank(calls, n, name, kind) == (if Names(last, name) && Rank(last, kind) > r then Rank(last, kind) else r)
            && (if Names(last, name) && Rank(last, kind) > r then IsFirstBest(calls, n, name, kind, n - 1)
                else r > 0 ==> IsFirstBest(calls, n, name, kind, k))
  {
    hide Rank;
    MaxRankIsMaximum(calls, n - 1, name, kind);
  }

  /** In a table that is not dynamic, over any run without a clash, the symbol that stands for a name ends with
      the information, section, value and size of the first of the best symbols added under that name. */
  lemma {:induction false} SurvivorIsFirstBest(t: seq<Entry>, calls: seq<Entry>, n: nat, kind: Kind, name: seq<Byte>)
    returns (k: nat)
    requires IsTable(t) && Find(t, name) == 0 && !kind.dynamic && n <= |calls|
    requires NoClash(t, calls, n, kind) && Rankable(calls, name) && NoneSet(calls, name)
    ensures var r := AddUpTo(t, calls, n, kind);
            && (Find(r, name) != 0 ==> r[Find(r, name)].other / 4 % 2 == 0)
            && (MaxRank(calls, n, name, kind) > 0 ==>
                  Find(r, name) != 0 && IsFirstBest(calls, n, name, kind, k) && RecordOf(r[Find(r, name)], calls[k]))
  {
    if n == 0 {
      k := 0;
    } else {
      hide Add, Rank, RecordOf, GlobalOrWeak;
      k := SurvivorIsFirstBest(t, calls, n - 1, kind, name);
      SurvivorHasHighestRank(t, calls, n - 1, kind, name);
      AddKeepsNames(t, calls, n - 1, kind);
      FirstBestNext(calls, n, name, kind, k);
      var u, last := AddUpTo(t, calls, n - 1, kind), calls[n - 1];
      assert !Nth(t, calls, n - 1, kind).clash;
      AddFind(u, last, kind, name);
      if Names(last, name) {
        assert Rankable([last], name) && NoneSet([last], name);
        BestNext(u, last, kind, name);
        if Rank(last, kind) > MaxRank(calls, n - 1, name, kind) {
          k := n - 1;
        }
      }
    }
  }

  // What becomes of one addition in the rest of a run

  /** An addition under a global name: for the rest of the run its index is what a lookup of the name finds. */
  lemma {:induction false} IndexIsFound(t: seq<Entry>, calls: seq<Entry>, k: nat, n: nat, kind: Kind)
    requires IsTable(t) && k < n <= |calls| && !IsLocal(calls[k])
    ensures Find(AddUpTo(t, calls, n, kind), calls[k].name) == Nth(t, calls, k, kind).index > 0
    decreases n
  {
    hide Add;
    AddKeepsNames(t, calls, n - 1, kind);
    var u := AddUpTo(t, calls, n - 1, kind);
    AddFind(u, calls[n - 1], kind, calls[k].name);
    if k < n - 1 {
      IndexIsFound(t, calls, k, n - 1, kind);
      IndexStays(u, calls[n - 1], kind);
    } else {
      IndexStays(u, calls[n - 1], kind);
    }
  }

  lemma IndexStays(t: seq<Entry>, a: Entry, kind: Kind)
    requires IsTable(t)
    ensures Add(t, a, kind).index > 0
    ensures Find(t, a.name) != 0 && !IsLocal(a) ==> Add(t, a, kind).index == Find(t, a.name)
  {
  }

  /** A local addition keeps its record for the rest of the run. */
  lemma {:induction false} LocalStays(t: seq<Entry>, calls: seq<Entry>, k: nat, n: nat, kind: Kind)
    requires IsTable(t) && k < n <= |calls| && IsLocal(calls[k])
    ensures var r, i := AddUpTo(t, calls, n, kind), Nth(t, calls, k, kind).index; i < |r| && r[i] == calls[k]
    decreases n
  {
    AddKeepsNames(t, calls, n - 1, kind);
    var u := AddUpTo(t, calls, n - 1, kind);
    if k < n - 1 {
      LocalStays(t, calls, k, n - 1, kind);
      LocalUntouched(u, calls[n - 1], kind, Nth(t, calls, k, kind).index);
    }
  }

  lemma LocalUntouched(t: seq<Entry>, a: Entry, kind: Kind, i: nat)
    requires IsTable(t) && i < |t| && IsLocal(t[i])
    ensures i < |Add(t, a, kind).table| && Add(t, a, kind).table[i] == t[i]
  {
    FindBelowIsLargest(t, a.name, |t|);
  }

  /** If no reference is added as a local symbol, none comes to be one. */
  lemma {:induction false} ReferencesAreGlobal(t: seq<Entry>, calls: seq<Entry>, n: nat, kind: Kind)
    requires IsTable(t) && n <= |calls|
    requires forall k :: 0 <= k < |calls| && calls[k].shndx == 0 ==> !IsLocal(calls[k])
    ensures var r := AddUpTo(t, calls, n, kind); forall j :: |t| <= j < |r| && r[j].shndx == 0 ==> !IsLocal(r[j])
  {
    if n != 0 {
      ReferencesAreGlobal(t, calls, n - 1, kind);
      AddKeepsNames(t, calls, n - 1, kind);
      ReferenceNext(AddUpTo(t, calls, n - 1, kind), calls[n - 1], kind, |t|);
    }
  }

  lemma ReferenceNext(t: seq<Entry>, a: Entry, kind: Kind, from: nat)
    requires IsTable(t) && (a.shndx == 0 ==> !IsLocal(a))
    requires forall j :: from <= j < |t| && t[j].shndx == 0 ==> !IsLocal(t[j])
    ensures var r := Add(t, a, kind).table; forall j :: from <= j < |r| && r[j].shndx == 0 ==> !IsLocal(r[j])
  {
    hide Merge;
    FindBelowIsLargest(t, a.name, |t|);
    AddFind(t, a, kind, a.name);
  }

  /** A hidden definition that arrives after a tentative one is turned away although it ranks higher. */
  lemma HiddenIsTurnedAway(kind: Kind)
    requires !kind.dynamic && kind.bss != 1
    ensures exists e, a ::
              && GlobalOrWeak(e) && GlobalOrWeak(a) && !Merge(e, a, kind).clash
              && Rank(a, kind) > Rank(e, kind) && Merge(e, a, kind).entry.shndx == e.shndx
  {
    var e := Entry([], 16, 0, SHN_COMMON, 8, 4);
    var a := Entry([], 16, 2, 1, 0, 4);
    assert Merge(e, a, kind).entry.shndx == e.shndx;
    assert Rank(a, kind) > Rank(e, kind);
  }
}
