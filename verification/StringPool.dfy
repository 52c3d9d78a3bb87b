/** The pool of debug strings: equal strings are stored once, and a string may share the tail of a longer
    one that fell into the same hash bucket. */
module StringPool {
  import opened Bytes
  import opened Sections

  const N_STR_HASH: nat := 251

  function HashFrom32(h: Word32, s: seq<Byte>): (r: Word32)
    decreases |s|
  {
    if s == [] then h else HashFrom32((h + s[0] + h * 31) % 0x1_0000_0000, s[1..])
  }

  function BucketOf(s: seq<Byte>): (b: nat)
    ensures b < N_STR_HASH
  {
    HashFrom32(5381, s) % N_STR_HASH
  }

  /** A string of the pool: its length, terminator included, and where it starts. */
  datatype Item = Item(len: nat, offset: nat)

  /** A bucket: the most recent item first. */
  datatype List = Nil | Cons(item: Item, next: List)

  function Items(l: List): (r: set<Item>) {
    if l.Nil? then {} else {l.item} + Items(l.next)
  }

  /** The string s and its terminator lie in the data at `offset`. */
  predicate ReadsAt(data: seq<Byte>, offset: nat, s: seq<Byte>) {
    NoNul(s) && offset + |s| < |data| && data[offset..offset + |s|] == s && data[offset + |s|] == 0
  }

  /** The item's text is a string and its terminator. */
  ghost predicate ItemOk(data: seq<Byte>, e: Item) {
    e.len >= 1 && e.offset + e.len <= |data| && data[e.offset + e.len - 1] == 0
    && NoNul(data[e.offset..e.offset + e.len - 1])
  }

  function Text(data: seq<Byte>, e: Item): (s: seq<Byte>)
    requires e.len >= 1 && e.offset + e.len <= |data|
  {
    data[e.offset..e.offset + e.len - 1]
  }

  ghost predicate EndsWith(t: seq<Byte>, s: seq<Byte>) {
    |s| <= |t| && t[|t| - |s|..] == s
  }

  ghost predicate ListOk(data: seq<Byte>, l: List) {
    forall e :: e in Items(l) ==> ItemOk(data, e)
  }

  /** No two items of a bucket carry the same text. */
  ghost predicate DistinctTexts(data: seq<Byte>, l: List)
    requires ListOk(data, l)
  {
    forall e, f :: e in Items(l) && f in Items(l) && Text(data, e) == Text(data, f) ==> e == f
  }

  ghost predicate HasText(data: seq<Byte>, l: List, s: seq<Byte>)
    requires ListOk(data, l)
  {
    exists e :: e in Items(l) && Text(data, e) == s
  }

  ghost predicate HasTail(data: seq<Byte>, l: List, s: seq<Byte>)
    requires ListOk(data, l)
  {
    exists e :: e in Items(l) && EndsWith(Text(data, e), s)
  }

  /** The offset is where s starts as the tail of an item. */
  ghost predicate IsTailOf(data: seq<Byte>, l: List, s: seq<Byte>, offset: nat)
    requires ListOk(data, l)
  {
    exists e :: e in Items(l) && EndsWith(Text(data, e), s) && offset == e.offset + e.len - 1 - |s|
  }

  datatype Found = Missing | Hit(item: Item)

  /** The first loop: an item of exactly this text. */
  method FindSame(d: seq<Byte>, l: List, s: seq<Byte>) returns (r: Found)
    requires ListOk(d, l) && NoNul(s)
    ensures r.Hit? ==> r.item in Items(l) && r.item.len == |s| + 1 && Text(d, r.item) == s
    ensures r.Missing? ==> !HasText(d, l, s)
  {
    hide NoNul, Text;
    var cur := l;
    while cur.Cons?
      invariant Items(cur) <= Items(l)
      invariant HasText(d, l, s) ==> HasText(d, cur, s)
      decreases cur
    {
      var e := cur.item;
      WholeBytes(d, e, s);
      if e.len == |s| + 1 && d[e.offset..e.offset + e.len] == s + [0] {
        return Hit(e);
      }
      cur := cur.next;
    }
    return Missing;
  }

  /** An item has the text s exactly when its bytes spell s and the terminator. */
  lemma WholeBytes(d: seq<Byte>, e: Item, s: seq<Byte>)
    requires ItemOk(d, e)
    ensures e.len == |s| + 1 && d[e.offset..e.offset + e.len] == s + [0] <==> Text(d, e) == s
  {
    var t := Text(d, e);
    assert d[e.offset..e.offset + e.len] == t + [0];
    assert (t + [0])[..|t|] == t;
    assert (s + [0])[..|s|] == s;
  }

  /** The second loop: an item whose text ends with this one. */
  method FindTail(d: seq<Byte>, l: List, s: seq<Byte>) returns (r: Found)
    requires ListOk(d, l) && NoNul(s) && !HasText(d, l, s)
    ensures r.Hit? ==> r.item.len == |s| + 1 && ItemOk(d, r.item) && Text(d, r.item) == s
    ensures r.Hit? <==> HasTail(d, l, s)
    ensures r.Hit? ==> IsTailOf(d, l, s, r.item.offset)
  {
    hide EndsWith, NoNul, Text;
    var cur := l;
    while cur.Cons?
      invariant Items(cur) <= Items(l)
      invariant HasTail(d, l, s) ==> HasTail(d, cur, s)
      decreases cur
    {
      var e := cur.item;
      if e.len > |s| + 1 {
        var n := e.offset + e.len - (|s| + 1);
        TailBytes(d, e, s);
        if d[n..n + |s| + 1] == s + [0] {
          assert EndsWith(Text(d, e), s) && e in Items(l);
          return Hit(Item(|s| + 1, n));
        }
      } else {
        ShortTail(d, l, e, s);
      }
      cur := cur.next;
    }
    return Missing;
  }

  /** A longer item ends with s exactly when its last bytes spell s and the terminator. */
  lemma TailBytes(d: seq<Byte>, e: Item, s: seq<Byte>)
    requires ItemOk(d, e) && e.len > |s| + 1 && NoNul(s)
    ensures var n := e.offset + e.len - (|s| + 1);
            && (d[n..n + |s| + 1] == s + [0] <==> EndsWith(Text(d, e), s))
            && (d[n..n + |s| + 1] == s + [0] ==> ItemOk(d, Item(|s| + 1, n)) && Text(d, Item(|s| + 1, n)) == s)
  {
    var n := e.offset + e.len - (|s| + 1);
    var t := Text(d, e);
    assert t[|t| - |s|..] == d[n..n + |s|];
    assert d[n..n + |s| + 1] == d[n..n + |s|] + [0];
    if d[n..n + |s| + 1] == s + [0] {
      assert (d[n..n + |s|] + [0])[..|s|] == d[n..n + |s|];
      assert (s + [0])[..|s|] == s;
    }
  }

  /** An item no longer than s does not end with s, unless it is s. */
  lemma ShortTail(d: seq<Byte>, l: List, e: Item, s: seq<Byte>)
    requires ListOk(d, l) && e in Items(l) && ItemOk(d, e) && e.len <= |s| + 1 && !HasText(d, l, s)
    ensures !EndsWith(Text(d, e), s)
  {
    var t := Text(d, e);
    assert t != s;
    assert |t| == |s| ==> t[|t| - |s|..] == t;
  }

  /** The hash, character by character. */
  method StrHash(s: seq<Byte>) returns (h: Word32)
    ensures h == HashFrom32(5381, s)
  {
    h := 5381;
    var i := 0;
    while i < |s|
      invariant 0 <= i <= |s| && HashFrom32(5381, s) == HashFrom32(h, s[i..])
    {
      assert s[i..][0] == s[i] && s[i..][1..] == s[i + 1..];
      h := (h + s[i] + h * 31) % 0x1_0000_0000;
      i := i + 1;
    }
  }

  /** Appending to the data changes no item. */
  lemma ItemsStay(d: seq<Byte>, d': seq<Byte>, l: List)
    requires d <= d' && ListOk(d, l)
    ensures ListOk(d', l)
    ensures forall e :: e in Items(l) ==> Text(d', e) == Text(d, e)
  {
    forall e | e in Items(l)
      ensures ItemOk(d', e) && Text(d', e) == Text(d, e)
    {
      assert ItemOk(d, e);
      assert d'[e.offset..e.offset + e.len - 1] == d[e.offset..e.offset + e.len - 1];
    }
  }

  /** A string in the pool: where it starts. */
  datatype Given = Given(str: seq<Byte>, offset: nat)

  /** Every offset handed out reads back as its string. */
  ghost predicate AllRead(d: seq<Byte>, given: set<Given>) {
    forall g :: g in given ==> ReadsAt(d, g.offset, g.str)
  }

  lemma ReadsStay(d: seq<Byte>, d': seq<Byte>, given: set<Given>)
    requires d <= d' && AllRead(d, given)
    ensures AllRead(d', given)
  {
    forall g | g in given
      ensures ReadsAt(d', g.offset, g.str)
    {
      assert ReadsAt(d, g.offset, g.str);
      assert d'[g.offset..g.offset + |g.str|] == d[g.offset..g.offset + |g.str|];
    }
  }

  /** The strings of this unit are items of their buckets. */
  ghost predicate Matches(d: seq<Byte>, l: List, s: seq<Byte>, offset: nat) {
    Item(|s| + 1, offset) in Items(l) && ItemOk(d, Item(|s| + 1, offset)) && Text(d, Item(|s| + 1, offset)) == s
  }

  /** One bucket: valid items with distinct texts, each a string of this unit that hashes here. */
  ghost predicate BucketOk(d: seq<Byte>, l: List) {
    ListOk(d, l) && DistinctTexts(d, l)
  }

  lemma BucketStays(d: seq<Byte>, d': seq<Byte>, l: List)
    requires d <= d' && BucketOk(d, l)
    ensures BucketOk(d', l)
    ensures forall s, offset :: Matches(d, l, s, offset) ==> Matches(d', l, s, offset)
  {
    ItemsStay(d, d', l);
  }

  /** A new text at the head of a bucket. */
  lemma BucketGrows(d: seq<Byte>, l: List, s: seq<Byte>, offset: nat)
    requires BucketOk(d, l) && !HasText(d, l, s)
    requires ItemOk(d, Item(|s| + 1, offset)) && Text(d, Item(|s| + 1, offset)) == s
    ensures BucketOk(d, Cons(Item(|s| + 1, offset), l))
    ensures Matches(d, Cons(Item(|s| + 1, offset), l), s, offset)
    ensures forall t, o :: Matches(d, l, t, o) ==> Matches(d, Cons(Item(|s| + 1, offset), l), t, o)
  {
  }

  lemma WholeIsTail(t: seq<Byte>)
    ensures EndsWith(t, t)
  {
  }

  /** An item of the text s: the tail test succeeds and the string reads back. */
  lemma HitReads(d: seq<Byte>, l: List, e: Item, s: seq<Byte>)
    requires ListOk(d, l) && e in Items(l) && e.len == |s| + 1 && Text(d, e) == s
    ensures HasTail(d, l, s) && ReadsAt(d, e.offset, s) && Matches(d, l, s, e.offset) && IsTailOf(d, l, s, e.offset)
  {
    WholeIsTail(s);
    assert ItemOk(d, e);
    assert e == Item(|s| + 1, e.offset);
  }

  /** Any other match of s in the bucket is the same item. */
  lemma HitAgrees(d: seq<Byte>, l: List, s: seq<Byte>, o: nat, p: nat)
    requires BucketOk(d, l) && Matches(d, l, s, o) && Matches(d, l, s, p)
    ensures o == p
  {
  }

  lemma AppendedItem(d: seq<Byte>, s: seq<Byte>)
    requires NoNul(s)
    ensures var d', e := d + (s + [0]), Item(|s| + 1, |d|);
            d <= d' && d' == d + s + [0] && ItemOk(d', e) && Text(d', e) == s
  {
    var d' := d + (s + [0]);
    assert d'[|d|..|d| + |s|] == s;
  }

  /** The whole pool: every bucket is right, every offset handed out reads back, and the strings of the
      current unit are in their buckets. */
  ghost predicate PoolOk(d: seq<Byte>, buckets: seq<List>, given: set<Given>, unit: map<seq<Byte>, nat>) {
    && |buckets| == N_STR_HASH
    && (forall b :: 0 <= b < N_STR_HASH ==> BucketOk(d, buckets[b]))
    && AllRead(d, given)
    && (forall s :: s in unit ==> Matches(d, buckets[BucketOf(s)], s, unit[s]))
  }

  /** The pool survives appending to the data. */
  lemma PoolStays(d: seq<Byte>, d': seq<Byte>, buckets: seq<List>, given: set<Given>, unit: map<seq<Byte>, nat>)
    requires d <= d' && PoolOk(d, buckets, given, unit)
    ensures PoolOk(d', buckets, given, unit)
  {
    ReadsStay(d, d', given);
    forall b | 0 <= b < N_STR_HASH
      ensures BucketOk(d', buckets[b])
      ensures forall s, offset :: Matches(d, buckets[b], s, offset) ==> Matches(d', buckets[b], s, offset)
    {
      BucketStays(d, d', buckets[b]);
    }
  }

  /** Adding s to its bucket keeps the pool right. */
  lemma PoolGrows(d: seq<Byte>, buckets: seq<List>, given: set<Given>, unit: map<seq<Byte>, nat>, s: seq<Byte>,
                  offset: nat)
    requires PoolOk(d, buckets, given, unit)
    requires BucketOk(d, buckets[BucketOf(s)]) && !HasText(d, buckets[BucketOf(s)], s)
    requires ItemOk(d, Item(|s| + 1, offset)) && Text(d, Item(|s| + 1, offset)) == s
    ensures var b := BucketOf(s);
            PoolOk(d, buckets[b := Cons(Item(|s| + 1, offset), buckets[b])], given + {Given(s, offset)}, unit[s := offset])
  {
    var b := BucketOf(s);
    BucketGrows(d, buckets[b], s, offset);
    ItemReads(d, s, offset);
  }

  lemma ItemReads(d: seq<Byte>, s: seq<Byte>, offset: nat)
    requires ItemOk(d, Item(|s| + 1, offset)) && Text(d, Item(|s| + 1, offset)) == s
    ensures ReadsAt(d, offset, s)
  {
  }

  /** Handing out a string that is already an item of its bucket. */
  lemma PoolHits(d: seq<Byte>, buckets: seq<List>, given: set<Given>, unit: map<seq<Byte>, nat>, s: seq<Byte>, e: Item)
    requires PoolOk(d, buckets, given, unit) && e in Items(buckets[BucketOf(s)]) && e.len == |s| + 1
    requires BucketOk(d, buckets[BucketOf(s)]) && ItemOk(d, e) && Text(d, e) == s
    ensures PoolOk(d, buckets, given + {Given(s, e.offset)}, unit[s := e.offset])
    ensures HasTail(d, buckets[BucketOf(s)], s) && IsTailOf(d, buckets[BucketOf(s)], s, e.offset)
    ensures s in unit ==> unit[s] == e.offset
  {
    hide IsTailOf, ReadsAt, HasTail, Text, ItemOk, DistinctTexts, BucketOf, Matches, ListOk, BucketOk;
    var l := buckets[BucketOf(s)];
    BucketLists(d, l);
    HitReads(d, l, e, s);
    if s in unit {
      HitAgrees(d, l, s, e.offset, unit[s]);
    }
  }

  /** A string of the unit is an item of its bucket. */
  lemma UnitHasText(d: seq<Byte>, buckets: seq<List>, given: set<Given>, unit: map<seq<Byte>, nat>, s: seq<Byte>)
    requires PoolOk(d, buckets, given, unit)
    ensures BucketOk(d, buckets[BucketOf(s)])
    ensures s in unit ==> HasText(d, buckets[BucketOf(s)], s)
  {
    assert s in unit ==> Matches(d, buckets[BucketOf(s)], s, unit[s]);
  }

  lemma NoTextStill(d: seq<Byte>, d': seq<Byte>, l: List, s: seq<Byte>)
    requires d <= d' && BucketOk(d, l) && !HasText(d, l, s)
    ensures BucketOk(d', l) && !HasText(d', l, s)
  {
    BucketStays(d, d', l);
    ItemsStay(d, d', l);
  }

  class StringPool {
    const dw: Section
    var buckets: seq<List>
    ghost var given: set<Given> // everything handed out so far
    ghost var unit: map<seq<Byte>, nat> // the strings of the current compilation unit

    ghost predicate Valid()
      reads this, dw, dw.data
    {
      dw.Valid() && PoolOk(dw.Contents(), buckets, given, unit)
    }

    constructor (dw: Section)
      requires dw.Valid()
      ensures Valid() && this.dw == dw && given == {} && unit == map[]
      ensures |buckets| == 251 && forall b :: 0 <= b < 251 ==> buckets[b] == Nil
    {
      this.dw := dw;
      buckets := seq(N_STR_HASH, _ => Nil);
      given, unit := {}, map[];
    }

    /** Forgets the strings of the unit; their bytes, and the offsets handed out, stay good. */
    method FreeStr()
      requires Valid()
      modifies this`buckets, this`unit
      ensures Valid() && unit == map[] && given == old(given)
      ensures |buckets| == 251 && forall b :: 0 <= b < 251 ==> buckets[b] == Nil
    {
      buckets := seq(N_STR_HASH, _ => Nil);
      unit := map[];
    }

    /** The offset of a string: that of the same string if this unit has it, the tail of a longer string
        of its bucket if there is one, the end of the section, where it is then written, otherwise. */
    method DwarfString(s: seq<Byte>) returns (offset: nat)
      requires Valid() && NoNul(s)
      modifies this`buckets, this`given, this`unit, dw`data, dw`dataOffset, dw`addrAlign, dw.data
      ensures Valid() && (dw.data == old(dw.data) || fresh(dw.data))
      ensures given == old(given) + {Given(s, offset)} && unit == old(unit)[s := offset]
      ensures s in old(unit) ==> offset == old(unit)[s]
      ensures Grown(old(dw.Contents()), dw.Contents(), old(buckets), s, offset)
    {
      hide PoolOk, HasTail, HasText, IsTailOf;
      ghost var d := dw.Contents();
      PoolSize(d, buckets, given, unit);
      UnitHasText(d, buckets, given, unit, s);
      var b := StrHash(s);
      b := b % N_STR_HASH;
      var found := FindSame(dw.data[..dw.dataOffset], buckets[b], s);
      if found.Hit? {
        offset := found.item.offset;
        PoolHits(d, buckets, given, unit, s, found.item);
      } else {
        offset := AddString(s, b);
      }
      given, unit := given + {Given(s, offset)}, unit[s := offset];
    }

    /** The part of dwarf_string for a text that is not in its bucket yet. */
    method AddString(s: seq<Byte>, b: nat) returns (offset: nat)
      requires Valid() && NoNul(s) && b == BucketOf(s) && b < |buckets|
      requires BucketOk(dw.Contents(), buckets[b]) && !HasText(dw.Contents(), buckets[b], s)
      modifies this`buckets, dw`data, dw`dataOffset, dw`addrAlign, dw.data
      ensures dw.Valid() && (dw.data == old(dw.data) || fresh(dw.data))
      ensures PoolOk(dw.Contents(), buckets, given + {Given(s, offset)}, unit[s := offset])
      ensures Grown(old(dw.Contents()), dw.Contents(), old(buckets), s, offset)
    {
      hide PoolOk, HasTail, HasText, BucketOk, IsTailOf;
      ghost var d := dw.Contents();
      var l := buckets[b];
      BucketLists(d, l);
      PoolSize(d, buckets, given, unit);
      var found := FindTail(dw.data[..dw.dataOffset], l, s);
      if found.Hit? {
        offset := found.item.offset;
        assert found.item == Item(|s| + 1, offset);
      } else {
        offset := dw.dataOffset;
        dw.Append(s + [0]);
        AppendedItem(d, s);
      }
      ghost var d' := dw.Contents();
      PoolStays(d, d', buckets, given, unit);
      NoTextStill(d, d', l, s);
      PoolGrows(d', buckets, given, unit, s, offset);
      buckets := buckets[b := Cons(Item(|s| + 1, offset), l)];
    }
  }

  /** Every offset ever handed out still reads back as its string. */
  lemma GivenReadsBack(pool: StringPool, s: seq<Byte>, offset: nat)
    requires pool.Valid() && Given(s, offset) in pool.given
    ensures StrAt(pool.dw.Contents(), offset) == s
  {
    var d := pool.dw.Contents();
    assert ReadsAt(d, offset, s);
    forall k | 0 <= k < |s|
      ensures d[offset + k] == s[k]
    {
      assert d[offset..offset + |s|][k] == d[offset + k];
    }
    StrAtReads(d, offset, s);
  }

  lemma PoolSize(d: seq<Byte>, buckets: seq<List>, given: set<Given>, unit: map<seq<Byte>, nat>)
    requires PoolOk(d, buckets, given, unit)
    ensures |buckets| == N_STR_HASH
  {
  }

  lemma BucketLists(d: seq<Byte>, l: List)
    requires BucketOk(d, l)
    ensures ListOk(d, l)
  {
  }

  /** If an item of the string's bucket ended with it, its tail is used and the section stays; otherwise the string
      goes to the end of the section. */
  ghost predicate Grown(d: seq<Byte>, d': seq<Byte>, buckets: seq<List>, s: seq<Byte>, offset: nat) {
    && |buckets| == N_STR_HASH && ListOk(d, buckets[BucketOf(s)])
    && if HasTail(d, buckets[BucketOf(s)], s) then d' == d && IsTailOf(d, buckets[BucketOf(s)], s, offset)
       else d' == d + s + [0] && offset == |d|
  }
}
