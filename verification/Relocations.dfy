/** Relocation records, and the renumbering of their symbols after the table they refer to changed. */
module Relocations {

  datatype Rel = Rel(offset: nat, sym: nat, kind: nat, addend: int)

  /** A section as the renumbering sees it: whether it holds relocations, the table they refer to. */
  datatype Section = Section(isRela: bool, link: nat, rels: seq<Rel>)

  predicate RefersTo(s: Section, table: nat) {
    s.isRela && s.link == table
  }

  /** Every relocation into the table names one of its first n symbols. */
  ghost predicate RelsWithin(sections: seq<Section>, table: nat, n: nat) {
    forall i, k :: 0 <= i < |sections| && RefersTo(sections[i], table) && 0 <= k < |sections[i].rels| ==>
      sections[i].rels[k].sym < n
  }

  function NewIndex(sym: nat, newIndex: seq<nat>, first: nat): (r: nat)
    requires sym < first + |newIndex|
  {
    if sym < first then sym else newIndex[sym - first]
  }

  /** sections' is sections with the symbol of every relocation into `table` renumbered, from `first`
      on, and nothing else changed. */
  ghost predicate Renumbered(sections: seq<Section>, sections': seq<Section>, table: nat, newIndex: seq<nat>,
                             first: nat)
    requires RelsWithin(sections, table, first + |newIndex|)
  {
    && |sections'| == |sections|
    && forall i :: 0 <= i < |sections| ==> RenumberedSection(sections[i], sections'[i], table, newIndex, first)
  }

  ghost predicate RenumberedSection(s: Section, s': Section, table: nat, newIndex: seq<nat>, first: nat)
    requires RefersTo(s, table) ==> forall k :: 0 <= k < |s.rels| ==> s.rels[k].sym < first + |newIndex|
  {
    if RefersTo(s, table) then
      && s' == s.(rels := s'.rels) && |s'.rels| == |s.rels|
      && forall k :: 0 <= k < |s.rels| ==> s'.rels[k] == s.rels[k].(sym := NewIndex(s.rels[k].sym, newIndex, first))
    else s' == s
  }

  /** The loop over the sections, as run after a table was merged or reordered. */
  method UpdateRelocs(sections: seq<Section>, table: nat, newIndex: seq<nat>, first: nat)
    returns (sections': seq<Section>)
    requires RelsWithin(sections, table, first + |newIndex|)
    ensures Renumbered(sections, sections', table, newIndex, first)
  {
    sections' := sections;
    var i := 0;
    while i < |sections|
      invariant 0 <= i <= |sections| == |sections'|
      invariant forall j :: 0 <= j < i ==> RenumberedSection(sections[j], sections'[j], table, newIndex, first)
      invariant forall j :: i <= j < |sections| ==> sections'[j] == sections[j]
    {
      if RefersTo(sections[i], table) {
        var rels := RenumberAll(sections[i].rels, newIndex, first);
        sections' := sections'[i := sections[i].(rels := rels)];
      }
      i := i + 1;
    }
  }

  method RenumberAll(old_rels: seq<Rel>, newIndex: seq<nat>, first: nat) returns (rels: seq<Rel>)
    requires forall k :: 0 <= k < |old_rels| ==> old_rels[k].sym < first + |newIndex|
    ensures |rels| == |old_rels|
    ensures forall k :: 0 <= k < |rels| ==> rels[k] == old_rels[k].(sym := NewIndex(old_rels[k].sym, newIndex, first))
  {
    rels := old_rels;
    var k := 0;
    while k < |rels|
      invariant 0 <= k <= |rels| == |old_rels|
      invariant forall j :: 0 <= j < k ==> rels[j] == old_rels[j].(sym := NewIndex(old_rels[j].sym, newIndex, first))
      invariant forall j :: k <= j < |rels| ==> rels[j] == old_rels[j]
    {
      // a relocation below `first` is left alone (assembler code can produce symbol 0)
      if rels[k].sym >= first {
        rels := rels[k := rels[k].(sym := newIndex[rels[k].sym - first])];
      }
      k := k + 1;
    }
  }

  /** If the renumbering sends every symbol to one that carries the same thing, every relocation into
      the table carries the same thing as before. */
  lemma RelocationsDenoteTheSame<T>(sections: seq<Section>, sections': seq<Section>, table: nat, newIndex: seq<nat>,
                                    first: nat, before: seq<T>, after: seq<T>)
    requires RelsWithin(sections, table, first + |newIndex|)
    requires Renumbered(sections, sections', table, newIndex, first)
    requires first + |newIndex| == |before| && first <= |after|
    requires forall j :: 0 <= j < first ==> after[j] == before[j]
    requires forall j :: 0 <= j < |newIndex| ==> newIndex[j] < |after| && after[newIndex[j]] == before[first + j]
    ensures RelsWithin(sections', table, |after|)
    ensures forall i, k :: 0 <= i < |sections| && RefersTo(sections[i], table) && 0 <= k < |sections[i].rels| ==>
              after[sections'[i].rels[k].sym] == before[sections[i].rels[k].sym]
  {
    forall i, k | 0 <= i < |sections| && RefersTo(sections[i], table) && 0 <= k < |sections[i].rels|
      ensures sections'[i].rels[k].sym < |after| && after[sections'[i].rels[k].sym] == before[sections[i].rels[k].sym]
    {
      assert RenumberedSection(sections[i], sections'[i], table, newIndex, first);
      var s := sections[i].rels[k].sym;
      assert sections'[i].rels[k].sym == NewIndex(s, newIndex, first);
      if s >= first {
        assert before[first + (s - first)] == before[s];
      }
    }
    forall i | 0 <= i < |sections'| && RefersTo(sections'[i], table)
      ensures RefersTo(sections[i], table) && |sections'[i].rels| == |sections[i].rels|
    {
      assert RenumberedSection(sections[i], sections'[i], table, newIndex, first);
    }
  }
}
