/** Building the GNU hash section: the symbols are reordered, undefined ones first and then bucket by
    bucket, while the bucket heads, chain words and bloom filter are written. */
module GnuHashBuild {
  import opened Bytes
  import opened SymbolIndex
  import opened SymbolMerge
  import opened SymbolBuffers
  import opened Relocations
  import opened Grouping
  import opened GnuHash
  import opened SymbolTable

  const ELFCLASS_BITS: nat := 64
  const BLOOM_SHIFT: nat := 6

  ghost predicate IsPowerOfTwo(n: nat) { exists k: nat :: n == Pow2(k) }

  function CountDefined(t: seq<Entry>, n: nat): (c: nat)
    requires n <= |t|
  {
    if n == 0 then 0 else CountDefined(t, n - 1) + if Defined(t[n - 1]) then 1 else 0
  }

  /** An empty section with room for the defined symbols of t, the first of which is the null symbol. */
  ghost predicate Roomy(g: Gnu, t: seq<Entry>) {
    && g.WellSized() && t != [] && !Defined(t[0]) && CountDefined(t, |t|) <= |g.chain|
    && forall b :: 0 <= b < |g.buckets| ==> g.buckets[b] == 0
  }

  /** What update_gnu_hash is called with: such a section made for the symbols of t. */
  ghost predicate Prepared(g: Gnu, t: seq<Entry>) {
    Roomy(g, t) && |g.chain| == CountDefined(t, |t|) && g.symoffset == |t| - |g.chain|
  }

  /** The section with only as many chain words as there are defined symbols among `total`. */
  function Used(g: Gnu, total: nat, defined: nat): (r: Gnu)
    requires defined <= total && defined <= |g.chain|
  {
    g.(symoffset := total - defined, chain := g.chain[..defined])
  }

  /** Reserves the section, all zero, for as many symbols as are defined. */
  method CreateGnuHash(d: SymbolTable) returns (g: Gnu)
    requires d.RecordsOk()
    ensures !Defined(d.View()[0]) ==> Prepared(g, d.View())
    ensures |g.buckets| == |g.chain| / 4 + 1 && g.bloomShift == BLOOM_SHIFT
    ensures IsPowerOfTwo(|g.bloom|) && |g.chain| < 8 * |g.bloom|
    ensures |g.bloom| > 1 ==> |g.chain| >= 4 * |g.bloom| // no larger than needed
  {
    ghost var t := d.View();
    var ndef, i := 0, 0;
    while i < d.nsyms
      invariant 0 <= i <= d.nsyms && ndef == CountDefined(t, i) <= i
    {
      assert t[i] == EntryOf(d.syms[i], d.str);
      if d.syms[i].shndx != SHN_UNDEF {
        ndef := ndef + 1;
      }
      i := i + 1;
    }
    var bloomSize: nat := 1;
    ghost var k: nat := 0;
    while ndef >= bloomSize * 8
      invariant bloomSize == Pow2(k) && (bloomSize > 1 ==> ndef >= 4 * bloomSize)
      decreases ndef - bloomSize
    {
      bloomSize := bloomSize * 2;
      k := k + 1;
    }
    g := Gnu(d.nsyms - ndef, BLOOM_SHIFT, seq(bloomSize, _ => {}), seq(ndef / 4 + 1, _ => 0), seq(ndef, _ => 0));
  }

  /** The GNU hash, byte by byte. */
  method ElfGnuHash(name: seq<Byte>) returns (h: Word32)
    ensures h == GnuHashOf(name)
  {
    h := 5381;
    var i := 0;
    while i < |name|
      invariant 0 <= i <= |name|
      invariant GnuHashOf(name) == HashFrom33(h, name[i..])
    {
      assert name[i..][0] == name[i] && name[i..][1..] == name[i + 1..];
      h := (h * 33 + name[i]) % 0x1_0000_0000;
      i := i + 1;
    }
  }

  /** The first loop: hashes the defined symbols and copies the undefined ones. */
  method CopyUndefined(syms: seq<Sym>, str: seq<Byte>, n: nat, ghost keys: seq<nat>)
    returns (newSyms: seq<Sym>, newIndex: seq<nat>, hash: seq<Word32>)
    requires n == |keys| <= |syms| && forall i :: 0 <= i < n ==> (keys[i] == 0 <==> syms[i].shndx == SHN_UNDEF)
    ensures |newIndex| == n && InvertsSoFar(newIndex, Grouped(keys, 1))
    ensures GatheredSoFar(syms, newSyms, Grouped(keys, 1))
    ensures |hash| == n && HashesOk(syms, str, hash, n)
  {
    newSyms, newIndex, hash := [], seq(n, _ => 0), seq(n, _ => 0);
    NothingYet(keys);
    hide Grouped, SoFar, Indices, InvertsSoFar, GatheredSoFar, HashesOk;
    EmptyIsPlaced(syms, newIndex);
    NoHashes(syms, str, hash);
    var i := 0;
    while i < n
      invariant 0 <= i <= n && |newIndex| == |hash| == n
      invariant InvertsSoFar(newIndex, SoFar(keys, 0, i)) && GatheredSoFar(syms, newSyms, SoFar(keys, 0, i))
      invariant HashesOk(syms, str, hash, i)
    {
      if syms[i].shndx == SHN_UNDEF {
        HashesNext(syms, str, hash, i, hash[i]);
        newSyms, newIndex := CollectRecord(syms, newSyms, newIndex, i, keys, 0);
      } else {
        var h := ElfGnuHash(StrAt(str, syms[i].name));
        HashesNext(syms, str, hash, i, h);
        hash := hash[i := h];
        Skipped(keys, i);
      }
      i := i + 1;
    }
    AllVisited(keys);
  }

  lemma NoHashes(syms: seq<Sym>, str: seq<Byte>, hash: seq<Word32>)
    requires |hash| <= |syms|
    ensures HashesOk(syms, str, hash, 0)
  {
  }

  lemma HashesNext(syms: seq<Sym>, str: seq<Byte>, hash: seq<Word32>, i: nat, h: Word32)
    requires i < |hash| <= |syms| && HashesOk(syms, str, hash, i)
    requires syms[i].shndx != SHN_UNDEF ==> h == GnuHashOf(StrAt(str, syms[i].name))
    ensures HashesOk(syms, str, hash[i := h], i + 1)
    ensures h == hash[i] ==> HashesOk(syms, str, hash, i + 1)
  {
  }

  lemma NothingYet(keys: seq<nat>)
    ensures SoFar(keys, 0, 0) == []
  {
  }

  lemma EmptyIsPlaced(syms: seq<Sym>, newIndex: seq<nat>)
    ensures InvertsSoFar(newIndex, []) && GatheredSoFar(syms, [], [])
  {
  }

  lemma Skipped(keys: seq<nat>, i: nat)
    requires i < |keys| && keys[i] != 0
    ensures SoFar(keys, 0, i + 1) == SoFar(keys, 0, i)
  {
  }

  lemma AllVisited(keys: seq<nat>)
    ensures SoFar(keys, 0, |keys|) == Grouped(keys, 1)
  {
  }

  ghost predicate HashesOk(syms: seq<Sym>, str: seq<Byte>, hash: seq<Word32>, n: nat)
    requires n <= |syms| && n <= |hash|
  {
    forall i :: 0 <= i < n && syms[i].shndx != SHN_UNDEF ==> hash[i] == GnuHashOf(StrAt(str, syms[i].name))
  }

  /** The bucket lists built so far hold the members of each bucket among the first n symbols. */
  ghost predicate ListOk(keys: seq<nat>, k: nat, n: nat, first: int, last: nat, next: seq<nat>)
    requires n <= |keys| == |next|
  {
    var l := Indices(keys, k, n);
    && (l == [] <==> first == -1)
    && (l != [] ==> first == l[0] && last == l[|l| - 1] && LinksOk(l, next))
  }

  ghost predicate LinksOk(l: seq<nat>, next: seq<nat>) {
    forall j {:trigger next[l[j]]} :: 0 <= j < |l| - 1 ==> l[j] < |next| && next[l[j]] == l[j + 1]
  }

  lemma ListSkips(keys: seq<nat>, k: nat, n: nat, first: int, last: nat, next: seq<nat>, at: nat, x: nat)
    requires n < |keys| == |next| && ListOk(keys, k, n, first, last, next)
    requires keys[n] != k && at < |keys| && keys[at] != k
    ensures ListOk(keys, k, n + 1, first, last, next[at := x])
  {
    IndicesAreThose(keys, k, n);
    var l := Indices(keys, k, n);
    forall j | 0 <= j < |l|
      ensures l[j] != at
    {
      assert l[j] in l;
    }
    forall j | 0 <= j < |l| - 1
      ensures l[j] < |next| && next[at := x][l[j]] == l[j + 1]
    {
      assert l[j] in l && next[l[j]] == l[j + 1];
    }
  }

  lemma ListGrows(keys: seq<nat>, k: nat, n: nat, first: int, last: nat, next: seq<nat>)
    requires n < |keys| == |next| && ListOk(keys, k, n, first, last, next) && keys[n] == k
    ensures first == -1 ==> ListOk(keys, k, n + 1, n, n, next)
    ensures first != -1 ==> last < |next| && ListOk(keys, k, n + 1, first, n, next[last := n])
  {
    IndicesAreThose(keys, k, n);
    var l := Indices(keys, k, n);
    assert Indices(keys, k, n + 1) == l + [n];
    if l != [] {
      assert last in l;
      assert LinksOk(l + [n], next[last := n]);
    }
  }

  ghost predicate ListsOk(keys: seq<nat>, nb: nat, n: nat, first: seq<int>, last: seq<nat>, next: seq<nat>) {
    && n <= |keys| == |next| && |first| == |last| == nb
    && forall b :: 0 <= b < nb ==> ListOk(keys, b + 1, n, first[b], last[b], next)
  }

  /** The second loop: threads the defined symbols of each bucket together. */
  method FindBuckets(syms: seq<Sym>, hash: seq<Word32>, n: nat, nb: nat, ghost keys: seq<nat>)
    returns (first: seq<int>, last: seq<nat>, next: seq<nat>)
    requires n == |keys| == |hash| <= |syms| && nb > 0
    requires forall i :: 0 <= i < n ==> keys[i] == if syms[i].shndx == SHN_UNDEF then 0 else 1 + hash[i] % nb
    ensures ListsOk(keys, nb, n, first, last, next)
  {
    first, last, next := seq(nb, _ => -1), seq(nb, _ => 0), seq(n, _ => 0);
    var i := 0;
    while i < n
      invariant 0 <= i <= n && ListsOk(keys, nb, i, first, last, next)
    {
      ghost var first0, last0, next0 := first, last, next;
      if syms[i].shndx != SHN_UNDEF {
        var bucket := hash[i] % nb;
        ListGrows(keys, bucket + 1, i, first[bucket], last[bucket], next);
        ghost var at := if first[bucket] == -1 then i else last[bucket];
        ghost var x := if first[bucket] == -1 then next[i] else i;
        if first[bucket] == -1 {
          first := first[bucket := i];
        } else {
          next := next[last[bucket] := i];
        }
        last := last[bucket := i];
        assert next == next0[at := x];
        assert keys[at] == bucket + 1 by {
          if first0[bucket] != -1 {
            IndicesAreThose(keys, bucket + 1, i);
            assert last0[bucket] in Indices(keys, bucket + 1, i);
          }
        }
        forall b | 0 <= b < nb
          ensures ListOk(keys, b + 1, i + 1, first[b], last[b], next)
        {
          if b != bucket {
            ListSkips(keys, b + 1, i, first0[b], last0[b], next0, at, x);
          }
        }
      } else {
        forall b | 0 <= b < nb
          ensures ListOk(keys, b + 1, i + 1, first[b], last[b], next)
        {
          assert Indices(keys, b + 1, i + 1) == Indices(keys, b + 1, i);
        }
      }
      i := i + 1;
    }
  }

  /** The last position of its key. */
  ghost predicate LastOfKey(keys: seq<nat>, i: nat)
    requires i < |keys|
  {
    forall j :: i < j < |keys| ==> keys[j] != keys[i]
  }

  /** One of the hashes placed so far sets bit x of bloom word w. */
  ghost predicate SetBySome(hash: seq<Word32>, order: seq<nat>, from: nat, shift: nat, words: nat, w: nat, x: nat)
    requires words > 0
  {
    exists j :: from <= j < |order| && order[j] < |hash| && hash[order[j]] / 64 % words == w && x in BloomBits(hash[order[j]], shift)
  }

  /** The bloom words hold the bits they held before, and besides only those of the hashes placed so far. */
  ghost predicate OnlyTheirBits(bits: seq<set<nat>>, bloom: seq<set<nat>>, shift: nat, hash: seq<Word32>, order: seq<nat>,
                                from: nat)
    requires |bloom| > 0
  {
    && |bits| == |bloom| && (forall w {:trigger bits[w]} :: 0 <= w < |bloom| ==> bits[w] <= bloom[w])
    && forall w, x {:trigger x in bloom[w]} :: 0 <= w < |bloom| && x in bloom[w] ==>
         x in bits[w] || SetBySome(hash, order, from, shift, |bloom|, w, x)
  }

  /** The chain words and bloom bits of the symbols placed so far have been written. */
  ghost predicate WordsOk(keys: seq<nat>, hash: seq<Word32>, order: seq<nat>, g: Gnu) {
    && |hash| == |keys| && g.symoffset <= |order| && |g.chain| == |order| - g.symoffset
    && g.WellSized()
    && (forall j :: 0 <= j < |order| ==> order[j] < |keys|)
    && (forall j :: g.symoffset <= j < |order| ==>
          ChainWordOk(g.chain[j - g.symoffset], hash[order[j]], LastOfKey(keys, order[j])))
    && (forall j :: g.symoffset <= j < |order| ==> BloomHas(g.bloom, g.bloomShift, hash[order[j]]))
  }

  /** So far the words fit, and bits were only added to the bloom words for symbols placed. */
  ghost predicate Written(keys: seq<nat>, hash: seq<Word32>, order: seq<nat>, g: Gnu, bits: seq<set<nat>>) {
    WordsOk(keys, hash, order, g) && OnlyTheirBits(bits, g.bloom, g.bloomShift, hash, order, g.symoffset)
  }

  /** Sets the bits of one hash; those of every other stay set. */
  method SetBloom(bloom: seq<set<nat>>, shift: nat, h: Word32) returns (bloom': seq<set<nat>>)
    requires |bloom| > 0
    ensures |bloom'| == |bloom| && BloomHas(bloom', shift, h)
    ensures forall x: Word32 :: BloomHas(bloom, shift, x) ==> BloomHas(bloom', shift, x)
    ensures bloom' == bloom[h / 64 % |bloom| := bloom[h / 64 % |bloom|] + BloomBits(h, shift)]
  {
    var k := h / ELFCLASS_BITS % |bloom|;
    bloom' := bloom[k := bloom[k] + {h % ELFCLASS_BITS, h / Pow2(shift) % ELFCLASS_BITS}];
    assert forall i :: 0 <= i < |bloom| ==> bloom[i] <= bloom'[i];
  }

  /** The hash with its low bit cleared, or set for the last symbol of a bucket. */
  function ChainWordFor(h: Word32, last: bool): (w: Word32)
    ensures ChainWordOk(w, h, last)
  {
    if last then h - h % 2 + 1 else h - h % 2
  }

  lemma BitsNext(bits: seq<set<nat>>, bloom: seq<set<nat>>, bloom': seq<set<nat>>, shift: nat, hash: seq<Word32>,
                 order: seq<nat>, from: nat, cur: nat)
    requires |bloom| > 0 && cur < |hash| && from <= |order| && OnlyTheirBits(bits, bloom, shift, hash, order, from)
    requires var w := hash[cur] / 64 % |bloom|; bloom' == bloom[w := bloom[w] + BloomBits(hash[cur], shift)]
    ensures OnlyTheirBits(bits, bloom', shift, hash, order + [cur], from)
  {
    hide BloomBits;
    var after := order + [cur];
    forall w, x | 0 <= w < |bloom| && x in bloom'[w]
      ensures x in bits[w] || SetBySome(hash, after, from, shift, |bloom|, w, x)
    {
      if x in bloom[w] {
        if x !in bits[w] {
          var j :| from <= j < |order| && order[j] < |hash| && hash[order[j]] / 64 % |bloom| == w && x in BloomBits(hash[order[j]], shift);
          assert after[j] == order[j];
        }
      } else {
        assert after[|order|] == cur;
      }
    }
    forall w {:trigger bits[w]} | 0 <= w < |bloom|
      ensures bits[w] <= bloom'[w]
    {
    }
  }

  /** Writes the chain word and the bloom bits of one symbol. */
  method WriteHash(g: Gnu, h: Word32, last: bool, ghost keys: seq<nat>, ghost hash: seq<Word32>,
                   ghost order: seq<nat>, ghost cur: nat, ghost bits: seq<set<nat>>)
    returns (g': Gnu)
    requires Written(keys, hash, order, g, bits) && cur < |keys| && h == hash[cur] && (last <==> LastOfKey(keys, cur))
    ensures Written(keys, hash, order + [cur], g', bits)
    ensures g' == g.(chain := g'.chain, bloom := g'.bloom)
  {
    hide OnlyTheirBits, BloomHas;
    var bloom := SetBloom(g.bloom, g.bloomShift, h);
    g' := g.(chain := g.chain + [ChainWordFor(h, last)], bloom := bloom);
    BitsNext(bits, g.bloom, bloom, g.bloomShift, hash, order, g.symoffset, cur);
  }

  /** The members of a key before its j-th member are the first j. */
  lemma {:induction false} IndicesUpTo(keys: seq<nat>, k: nat, n: nat, j: nat)
    requires n <= |keys| && j < |Indices(keys, k, n)|
    ensures var l := Indices(keys, k, n); l[j] < n && keys[l[j]] == k && Indices(keys, k, l[j]) == l[..j]
  {
    if j < |Indices(keys, k, n - 1)| {
      IndicesUpTo(keys, k, n - 1, j);
    }
  }

  /** The last member of a key is the last position of that key. */
  lemma LastMember(keys: seq<nat>, k: nat, j: nat)
    requires j < |Indices(keys, k, |keys|)|
    requires Indices(keys, k, |keys|)[j] < |keys| && keys[Indices(keys, k, |keys|)[j]] == k
    ensures var l := Indices(keys, k, |keys|); LastOfKey(keys, l[j]) <==> j == |l| - 1
  {
    var l := Indices(keys, k, |keys|);
    IndicesAreThose(keys, k, |keys|);
    if j < |l| - 1 {
      assert l[j + 1] in l;
    }
    if !LastOfKey(keys, l[j]) {
      var i :| l[j] < i < |keys| && keys[i] == k;
      assert i in l;
    }
  }

  /** The output of the last loop, as far as it has got: `order` lists the symbols placed. */
  ghost predicate Placed(syms: seq<Sym>, keys: seq<nat>, hash: seq<Word32>, order: seq<nat>,
                         newSyms: seq<Sym>, newIndex: seq<nat>, g: Gnu, bits: seq<set<nat>>)
  {
    && |newIndex| == |keys| && InvertsSoFar(newIndex, order) && GatheredSoFar(syms, newSyms, order)
    && Written(keys, hash, order, g, bits)
  }

  /** Places one symbol: its record, its new index, its chain word and its bloom bits. */
  method PlaceSymbol(syms: seq<Sym>, hash: seq<Word32>, newSyms0: seq<Sym>, newIndex0: seq<nat>, g0: Gnu,
                     cur: nat, last: bool, ghost keys: seq<nat>, ghost k: nat, ghost bits: seq<set<nat>>)
    returns (newSyms: seq<Sym>, newIndex: seq<nat>, g: Gnu)
    requires |keys| == |hash| <= |syms| && cur < |keys| && keys[cur] == k && (last <==> LastOfKey(keys, cur))
    requires Placed(syms, keys, hash, SoFar(keys, k, cur), newSyms0, newIndex0, g0, bits)
    ensures Placed(syms, keys, hash, SoFar(keys, k, cur + 1), newSyms, newIndex, g, bits)
    ensures g == g0.(chain := g.chain, bloom := g.bloom)
  {
    CollectNext(keys, k, cur, newIndex0);
    newSyms, newIndex := CollectRecord(syms, newSyms0, newIndex0, cur, keys, k);
    g := WriteHash(g0, hash[cur], last, keys, hash, SoFar(keys, k, cur), cur, bits);
  }

  lemma SoFarAtMember(keys: seq<nat>, k: nat, j: nat)
    requires j < |Indices(keys, k, |keys|)|
    ensures var l := Indices(keys, k, |keys|);
            && l[j] < |keys| && keys[l[j]] == k && (LastOfKey(keys, l[j]) <==> j == |l| - 1)
            && SoFar(keys, k, l[j]) == Grouped(keys, k) + l[..j]
            && SoFar(keys, k, l[j] + 1) == Grouped(keys, k) + l[..j + 1]
  {
    IndicesUpTo(keys, k, |keys|, j);
    LastMember(keys, k, j);
  }

  /** Walks the list of one bucket. */
  method FillBucket(syms: seq<Sym>, hash: seq<Word32>, first: nat, last: nat, next: seq<nat>,
                    newSyms0: seq<Sym>, newIndex0: seq<nat>, g0: Gnu, ghost keys: seq<nat>, ghost k: nat,
                    ghost bits: seq<set<nat>>)
    returns (newSyms: seq<Sym>, newIndex: seq<nat>, g: Gnu)
    requires |keys| == |hash| == |next| <= |syms| && ListOk(keys, k, |keys|, first, last, next)
    requires Placed(syms, keys, hash, Grouped(keys, k), newSyms0, newIndex0, g0, bits)
    ensures Placed(syms, keys, hash, Grouped(keys, k + 1), newSyms, newIndex, g, bits)
    ensures g == g0.(chain := g.chain, bloom := g.bloom)
  {
    hide Placed, Indices, LastOfKey, SoFar;
    newSyms, newIndex, g := newSyms0, newIndex0, g0;
    ghost var l, j: nat := Indices(keys, k, |keys|), 0;
    var cur := first;
    SoFarAtMember(keys, k, 0);
    assert Grouped(keys, k) + l[..0] == Grouped(keys, k);
    while true
      invariant j < |l| && cur == l[j]
      invariant Placed(syms, keys, hash, Grouped(keys, k) + l[..j], newSyms, newIndex, g, bits)
      invariant g == g0.(chain := g.chain, bloom := g.bloom)
      decreases |l| - j
    {
      SoFarAtMember(keys, k, j);
      assert cur == last <==> j == |l| - 1 by {
        IndicesAreThose(keys, k, |keys|);
      }
      newSyms, newIndex, g := PlaceSymbol(syms, hash, newSyms, newIndex, g, cur, cur == last, keys, k, bits);
      if cur == last {
        break;
      }
      cur := next[cur];
      j := j + 1;
    }
    assert l[..j + 1] == l;
  }

  /** The bucket heads written so far. */
  ghost predicate HeadsOk(buckets: seq<nat>, keys: seq<nat>, nb: nat, n: nat) {
    && |buckets| == nb
    && forall b :: 0 <= b < nb ==>
         buckets[b] == if b < n && Indices(keys, b + 1, |keys|) != [] then |Grouped(keys, b + 1)| else 0
  }

  lemma HeadsStep(buckets: seq<nat>, keys: seq<nat>, nb: nat, i: nat)
    requires i < nb && HeadsOk(buckets, keys, nb, i)
    ensures Indices(keys, i + 1, |keys|) == [] ==> HeadsOk(buckets, keys, nb, i + 1)
    ensures Indices(keys, i + 1, |keys|) != [] ==> HeadsOk(buckets[i := |Grouped(keys, i + 1)|], keys, nb, i + 1)
  {
  }

  /** One round of the last loop: the head of bucket i, if it has symbols, and the walk along its list. */
  method FillHead(syms: seq<Sym>, hash: seq<Word32>, i: nat, first: int, last: nat, next: seq<nat>,
                  newSyms0: seq<Sym>, newIndex0: seq<nat>, g0: Gnu, ghost keys: seq<nat>, ghost bits: seq<set<nat>>)
    returns (newSyms: seq<Sym>, newIndex: seq<nat>, g: Gnu)
    requires i < |g0.buckets| && |keys| == |hash| == |next| <= |syms|
    requires ListOk(keys, i + 1, |keys|, first, last, next)
    requires Placed(syms, keys, hash, Grouped(keys, i + 1), newSyms0, newIndex0, g0, bits)
    requires HeadsOk(g0.buckets, keys, |g0.buckets|, i)
    ensures Placed(syms, keys, hash, Grouped(keys, i + 2), newSyms, newIndex, g, bits)
    ensures g == g0.(chain := g.chain, bloom := g.bloom, buckets := g.buckets) && |g.buckets| == |g0.buckets|
    ensures HeadsOk(g.buckets, keys, |g.buckets|, i + 1)
  {
    hide Placed, HeadsOk, ListOk, Indices, Grouped;
    newSyms, newIndex, g := newSyms0, newIndex0, g0;
    HeadsStep(g.buckets, keys, |g.buckets|, i);
    ListEnds(keys, i + 1, |keys|, first, last, next);
    if first != -1 {
      PlacedKeeps(syms, keys, hash, Grouped(keys, i + 1), newSyms, newIndex, g, g.buckets[i := |newSyms|], bits);
      g := g.(buckets := g.buckets[i := |newSyms|]);
      newSyms, newIndex, g := FillBucket(syms, hash, first, last, next, newSyms, newIndex, g, keys, i + 1, bits);
    } else {
      EmptyGroup(keys, i + 1);
    }
  }

  lemma EmptyGroup(keys: seq<nat>, k: nat)
    requires Indices(keys, k, |keys|) == []
    ensures Grouped(keys, k + 1) == Grouped(keys, k)
  {
  }

  lemma ListEnds(keys: seq<nat>, k: nat, n: nat, first: int, last: nat, next: seq<nat>)
    requires |next| == |keys| && n <= |keys| && ListOk(keys, k, n, first, last, next)
    ensures first >= -1 && (first == -1 <==> Indices(keys, k, n) == [])
  {
  }

  /** The heads do not matter to what has been placed. */
  lemma PlacedKeeps(syms: seq<Sym>, keys: seq<nat>, hash: seq<Word32>, order: seq<nat>,
                    newSyms: seq<Sym>, newIndex: seq<nat>, g: Gnu, buckets: seq<nat>, bits: seq<set<nat>>)
    requires Placed(syms, keys, hash, order, newSyms, newIndex, g, bits) && |buckets| == |g.buckets|
    ensures |newSyms| == |order| && Placed(syms, keys, hash, order, newSyms, newIndex, g.(buckets := buckets), bits)
  {
  }

  /** The last loop: places the defined symbols bucket by bucket. */
  method FillBuckets(syms: seq<Sym>, hash: seq<Word32>, first: seq<int>, last: seq<nat>, next: seq<nat>,
                     newSyms0: seq<Sym>, newIndex0: seq<nat>, g0: Gnu, ghost keys: seq<nat>, ghost bits: seq<set<nat>>)
    returns (newSyms: seq<Sym>, newIndex: seq<nat>, g: Gnu)
    requires |keys| == |hash| <= |syms| && ListsOk(keys, |g0.buckets|, |keys|, first, last, next)
    requires Placed(syms, keys, hash, Grouped(keys, 1), newSyms0, newIndex0, g0, bits)
    requires HeadsOk(g0.buckets, keys, |g0.buckets|, 0)
    ensures g == g0.(chain := g.chain, bloom := g.bloom, buckets := g.buckets) && |g.buckets| == |g0.buckets|
    ensures Placed(syms, keys, hash, Grouped(keys, |g.buckets| + 1), newSyms, newIndex, g, bits)
    ensures HeadsOk(g.buckets, keys, |g.buckets|, |g.buckets|)
  {
    hide Placed, HeadsOk, ListOk;
    newSyms, newIndex, g := newSyms0, newIndex0, g0;
    var i := 0;
    while i < |g0.buckets|
      invariant 0 <= i <= |g0.buckets| == |g.buckets|
      invariant g == g0.(chain := g.chain, bloom := g.bloom, buckets := g.buckets)
      invariant Placed(syms, keys, hash, Grouped(keys, i + 1), newSyms, newIndex, g, bits)
      invariant HeadsOk(g.buckets, keys, |g.buckets|, i)
    {
      newSyms, newIndex, g := FillHead(syms, hash, i, first[i], last[i], next, newSyms, newIndex, g, keys, bits);
      i := i + 1;
    }
  }

  /** In a stable order, a run of equal keys ends exactly at the last position of the key. */
  lemma RunsEndAtLast(keys: seq<nat>, order: seq<nat>, j: nat)
    requires IsStableOrder(keys, order) && j < |order|
    ensures EndsRun(Gather(keys, order), j) <==> LastOfKey(keys, order[j])
  {
    if j + 1 < |order| && keys[order[j + 1]] == keys[order[j]] {
      assert Before(keys, order[j], order[j + 1]);
    } else {
      forall i | order[j] < i < |keys|
        ensures keys[i] != keys[order[j]]
      {
        assert i in order;
        var m :| 0 <= m < |order| && order[m] == i;
        if m < j {
          assert Before(keys, order[m], order[j]);
        } else if m > j + 1 {
          assert Before(keys, order[j], order[j + 1]) && Before(keys, order[j + 1], order[m]);
        }
      }
    }
  }

  /** The groups up to g come first. */
  lemma {:induction false} GroupedPrefix(keys: seq<nat>, g: nat, groups: nat)
    requires g <= groups
    ensures Grouped(keys, g) <= Grouped(keys, groups)
    decreases groups
  {
    if g < groups {
      GroupedPrefix(keys, g, groups - 1);
    }
  }

  lemma {:induction false} FirstWithIs(keys: seq<nat>, k: nat, j: nat, n: nat)
    requires 0 < j <= n <= |keys| && forall i :: j <= i < n ==> keys[i] != k
    ensures n == |keys| ==> FirstWith(keys, k, j) == 0
    ensures n < |keys| && keys[n] == k ==> FirstWith(keys, k, j) == n
    decreases n - j
  {
    if j < n {
      FirstWithIs(keys, k, j + 1, n);
    }
  }

  /** What the order holds before group g, at its start, and anywhere if the group is empty. */
  lemma BeforeGroup(keys: seq<nat>, g: nat, groups: nat, i: nat)
    requires g < groups && i < |Grouped(keys, g)|
    ensures i < |Grouped(keys, groups)| && Grouped(keys, groups)[i] < |keys| && keys[Grouped(keys, groups)[i]] < g
  {
    GroupedPrefix(keys, g, groups);
    GroupedHolds(keys, g);
    assert Grouped(keys, g)[i] in Grouped(keys, g);
  }

  lemma AtGroup(keys: seq<nat>, g: nat, groups: nat)
    requires g < groups && Indices(keys, g, |keys|) != []
    ensures var start := |Grouped(keys, g)|;
            start < |Grouped(keys, groups)| && Grouped(keys, groups)[start] < |keys| && keys[Grouped(keys, groups)[start]] == g
  {
    GroupedPrefix(keys, g + 1, groups);
    assert Grouped(keys, g + 1) == Grouped(keys, g) + Indices(keys, g, |keys|);
    IndicesAreThose(keys, g, |keys|);
    assert Indices(keys, g, |keys|)[0] in Indices(keys, g, |keys|);
  }

  lemma NoGroup(keys: seq<nat>, g: nat, i: nat)
    requires i < |keys| && Indices(keys, g, |keys|) == []
    ensures keys[i] != g
  {
    IndicesAreThose(keys, g, |keys|);
    assert i !in Indices(keys, g, |keys|);
  }

  /** Group g, if it has members, starts right after the groups before it; 0 stands for no members. */
  lemma GroupStart(keys: seq<nat>, g: nat, groups: nat, from: nat)
    requires g < groups && IsStableOrder(keys, Grouped(keys, groups))
    requires 0 < from <= |Grouped(keys, g)| && |Grouped(keys, g)| <= |keys|
    ensures FirstWith(Gather(keys, Grouped(keys, groups)), g, from) ==
            if Indices(keys, g, |keys|) == [] then 0 else |Grouped(keys, g)|
  {
    var order := Grouped(keys, groups);
    var sorted, start := Gather(keys, order), |Grouped(keys, g)|;
    GroupedPrefix(keys, g, groups);
    if Indices(keys, g, |keys|) == [] {
      forall i | from <= i < |sorted|
        ensures sorted[i] != g
      {
        NoGroup(keys, g, order[i]);
      }
      FirstWithIs(sorted, g, from, |sorted|);
    } else {
      forall i | from <= i < start
        ensures sorted[i] != g
      {
        BeforeGroup(keys, g, groups, i);
      }
      AtGroup(keys, g, groups);
      FirstWithIs(sorted, g, from, start);
    }
  }

  /** The undefined symbols come first, and only they. */
  lemma UndefinedFirst(keys: seq<nat>, groups: nat, j: nat)
    requires 0 < groups && IsStableOrder(keys, Grouped(keys, groups)) && j < |keys|
    ensures |Grouped(keys, 1)| <= |keys|
    ensures keys[Grouped(keys, groups)[j]] == 0 <==> j < |Grouped(keys, 1)|
  {
    var order, undefs := Grouped(keys, groups), Grouped(keys, 1);
    GroupedPrefix(keys, 1, groups);
    GroupedHolds(keys, 1);
    if j < |undefs| {
      assert order[j] == undefs[j] && undefs[j] in undefs;
    } else {
      forall m | 0 <= m < |undefs|
        ensures undefs[m] != order[j]
      {
        assert Before(keys, order[m], order[j]);
      }
      assert order[j] !in undefs;
    }
  }

  lemma SortedAfter(keys: seq<nat>, order: seq<nat>)
    requires IsStableOrder(keys, order)
    ensures Sorted(Gather(keys, order))
  {
    forall i, j | 0 <= i < j < |order|
      ensures keys[order[i]] <= keys[order[j]]
    {
      assert Before(keys, order[i], order[j]);
    }
  }

  lemma KeysAfter(t: seq<Entry>, nb: nat)
    requires nb > 0
    ensures var keys := KeysOf(t, nb);
            && IsStableOrder(keys, Grouped(keys, nb + 1))
            && Arranged(t, keys, nb + 1) == Gather(t, Grouped(keys, nb + 1))
            && KeysOf(Arranged(t, keys, nb + 1), nb) == Gather(keys, Grouped(keys, nb + 1))
  {
    GroupedIsStableOrder(KeysOf(t, nb), nb + 1);
  }

  /** One of the defined symbols sets bit x of bloom word w. */
  ghost predicate SetBySymbol(t: seq<Entry>, from: nat, shift: nat, words: nat, w: nat, x: nat)
    requires words > 0
  {
    exists j :: from <= j < |t| && GnuHashOf(t[j].name) / 64 % words == w && x in BloomBits(GnuHashOf(t[j].name), shift)
  }

  /** The bloom words hold the bits they held before and those of the defined symbols, and no others. */
  ghost predicate BloomIs(bits: seq<set<nat>>, bloom: seq<set<nat>>, shift: nat, t: seq<Entry>, from: nat) {
    && |bits| == |bloom| > 0
    && forall w, x {:trigger x in bloom[w]} :: 0 <= w < |bloom| ==>
         (x in bloom[w] <==> x in bits[w] || SetBySymbol(t, from, shift, |bloom|, w, x))
  }

  /** The chain words and bloom bits, seen from the reordered table. */
  lemma ChainsAfter(t: seq<Entry>, keys: seq<nat>, hash: seq<Word32>, g: Gnu, order: seq<nat>, after: seq<Entry>)
    requires |hash| == |t| == |keys| == |after| && IsStableOrder(keys, order) && WordsOk(keys, hash, order, g)
    requires forall j :: 0 <= j < |after| ==> after[j] == t[order[j]]
    requires forall j :: g.symoffset <= j < |after| ==> Defined(after[j])
    requires forall i :: 0 <= i < |t| && Defined(t[i]) ==> hash[i] == GnuHashOf(t[i].name)
    ensures ChainsFit(g.chain, after, g.symoffset, Gather(keys, order))
    ensures BloomFits(g.bloom, g.bloomShift, after, g.symoffset)
  {
    forall c | 0 <= c < |g.chain|
      ensures ChainWordOk(g.chain[c], GnuHashOf(after[g.symoffset + c].name), EndsRun(Gather(keys, order), g.symoffset + c))
    {
      RunsEndAtLast(keys, order, g.symoffset + c);
      assert ChainWordOk(g.chain[g.symoffset + c - g.symoffset], hash[order[g.symoffset + c]], LastOfKey(keys, order[g.symoffset + c]));
    }
    forall j | g.symoffset <= j < |after|
      ensures BloomHas(g.bloom, g.bloomShift, GnuHashOf(after[j].name))
    {
      assert BloomHas(g.bloom, g.bloomShift, hash[order[j]]);
    }
  }

  lemma BloomAfter(t: seq<Entry>, keys: seq<nat>, hash: seq<Word32>, g: Gnu, order: seq<nat>, after: seq<Entry>,
                   bits: seq<set<nat>>)
    requires |hash| == |t| == |after| == |order| && |g.bloom| > 0
    requires forall j :: 0 <= j < |after| ==> order[j] < |t| && after[j] == t[order[j]]
    requires forall j :: g.symoffset <= j < |after| ==> Defined(after[j])
    requires forall i :: 0 <= i < |t| && Defined(t[i]) ==> hash[i] == GnuHashOf(t[i].name)
    requires Written(keys, hash, order, g, bits) && BloomFits(g.bloom, g.bloomShift, after, g.symoffset)
    ensures BloomIs(bits, g.bloom, g.bloomShift, after, g.symoffset)
  {
    hide BloomBits, GnuHashOf, ChainWordOk, LastOfKey;
    forall w, x | 0 <= w < |g.bloom|
      ensures x in g.bloom[w] <==> x in bits[w] || SetBySymbol(after, g.symoffset, g.bloomShift, |g.bloom|, w, x)
    {
      if x in g.bloom[w] && x !in bits[w] {
        var j :| g.symoffset <= j < |order| && hash[order[j]] / 64 % |g.bloom| == w && x in BloomBits(hash[order[j]], g.bloomShift);
        assert Defined(after[j]) && GnuHashOf(after[j].name) == hash[order[j]];
      }
      if SetBySymbol(after, g.symoffset, g.bloomShift, |g.bloom|, w, x) {
        var j :| g.symoffset <= j < |after| && GnuHashOf(after[j].name) / 64 % |g.bloom| == w
                 && x in BloomBits(GnuHashOf(after[j].name), g.bloomShift);
        assert BloomHas(g.bloom, g.bloomShift, GnuHashOf(after[j].name));
      }
      assert bits[w] <= g.bloom[w];
    }
  }

  /** The bucket heads, seen from the reordered table. */
  lemma HeadsAfter(keys: seq<nat>, nb: nat, buckets: seq<nat>, from: nat)
    requires IsStableOrder(keys, Grouped(keys, nb + 1)) && HeadsOk(buckets, keys, nb, nb)
    requires 0 < from == |Grouped(keys, 1)| <= |keys|
    ensures HeadsFit(buckets, Gather(keys, Grouped(keys, nb + 1)), from)
  {
    var sorted := Gather(keys, Grouped(keys, nb + 1));
    forall b | 0 <= b < nb
      ensures buckets[b] == FirstWith(sorted, b + 1, from)
    {
      HeadAfter(keys, nb, buckets, b, from);
    }
  }

  lemma StableLength(keys: seq<nat>, order: seq<nat>)
    requires IsStableOrder(keys, order)
    ensures |order| == |keys|
  {
  }

  lemma HeadAfter(keys: seq<nat>, nb: nat, buckets: seq<nat>, b: nat, from: nat)
    requires b < nb == |buckets| && IsStableOrder(keys, Grouped(keys, nb + 1))
    requires buckets[b] == if Indices(keys, b + 1, |keys|) != [] then |Grouped(keys, b + 1)| else 0
    requires 0 < from == |Grouped(keys, 1)| <= |keys|
    ensures buckets[b] == FirstWith(Gather(keys, Grouped(keys, nb + 1)), b + 1, from)
  {
    hide Grouped, Indices, FirstWith, Gather, IsStableOrder;
    StableLength(keys, Grouped(keys, nb + 1));
    GroupedPrefix(keys, 1, b + 1);
    GroupedPrefix(keys, b + 1, nb + 1);
    GroupStart(keys, b + 1, nb + 1, from);
  }

  /** Undefined symbols first, seen from the reordered table. */
  lemma OrderedAfter(t: seq<Entry>, keys: seq<nat>, nb: nat, from: nat, after: seq<Entry>)
    requires nb > 0 && keys == KeysOf(t, nb) && IsStableOrder(keys, Grouped(keys, nb + 1))
    requires 0 < from == |Grouped(keys, 1)| <= |t| && after == Gather(t, Grouped(keys, nb + 1))
    requires KeysOf(after, nb) == Gather(keys, Grouped(keys, nb + 1))
    ensures OrderedBy(after, from, nb)
    ensures forall j :: from <= j < |after| ==> Defined(after[j])
  {
    SortedAfter(keys, Grouped(keys, nb + 1));
    forall j | 0 <= j < |after|
      ensures Defined(after[j]) <==> j >= from
    {
      UndefinedFirst(keys, nb + 1, j);
    }
  }

  /** Everything the loops wrote, seen from the reordered table. */
  lemma DescribesAfter(t: seq<Entry>, hash: seq<Word32>, g: Gnu, bits: seq<set<nat>>)
    requires g.WellSized() && |hash| == |t|
    requires forall i :: 0 <= i < |t| && Defined(t[i]) ==> hash[i] == GnuHashOf(t[i].name)
    requires var nb, keys := |g.buckets|, KeysOf(t, |g.buckets|);
             && Written(keys, hash, Grouped(keys, nb + 1), g, bits) && HeadsOk(g.buckets, keys, nb, nb)
             && 0 < g.symoffset == |Grouped(keys, 1)|
    ensures Describes(g, Arranged(t, KeysOf(t, |g.buckets|), |g.buckets| + 1))
    ensures BloomIs(bits, g.bloom, g.bloomShift, Arranged(t, KeysOf(t, |g.buckets|), |g.buckets| + 1), g.symoffset)
  {
    var nb, keys := |g.buckets|, KeysOf(t, |g.buckets|);
    hide WordsOk, OnlyTheirBits, HeadsOk, OrderedBy, ChainsFit, BloomFits, BloomIs, HeadsFit, GnuHashOf;
    KeysAfter(t, nb);
    var order := Grouped(keys, nb + 1);
    var after := Gather(t, order);
    OrderedAfter(t, keys, nb, g.symoffset, after);
    ChainsAfter(t, keys, hash, g, order, after);
    BloomAfter(t, keys, hash, g, order, after, bits);
    HeadsAfter(keys, nb, g.buckets, g.symoffset);
  }

  lemma {:induction false} CountUndefined(t: seq<Entry>, nb: nat, n: nat)
    requires nb > 0 && n <= |t|
    ensures CountBelow(KeysOf(t, nb), 1, n) == n - CountDefined(t, n)
  {
    if n != 0 {
      CountUndefined(t, nb, n - 1);
    }
  }

  lemma {:induction false} DefinedAtMost(t: seq<Entry>, n: nat)
    requires n <= |t|
    ensures CountDefined(t, n) <= n
  {
    if n != 0 {
      DefinedAtMost(t, n - 1);
    }
  }

  /** The words used describe the symbols; the rest of the section is as it was. */
  ghost predicate FilledFrom(g0: Gnu, g: Gnu, total: nat, defined: nat, after: seq<Entry>) {
    && defined <= total && defined <= |g.chain| == |g0.chain| && |g.buckets| == |g0.buckets|
    && g.symoffset == g0.symoffset && g.chain[defined..] == g0.chain[defined..]
    && Describes(Used(g, total, defined), after)
    && BloomIs(g0.bloom, g.bloom, g.bloomShift, after, total - defined)
  }

  /** The new order of the symbols, with the section that describes it. */
  method ReorderRecords(syms: seq<Sym>, str: seq<Byte>, n: nat, g0: Gnu, ghost t: seq<Entry>)
    returns (newSyms: seq<Sym>, newIndex: seq<nat>, g: Gnu, sizeOk: bool)
    requires n <= |syms| && t == ViewOf(syms, str, n) && Roomy(g0, t)
    ensures sizeOk <==> |g0.chain| == CountDefined(t, n)
    ensures var keys := KeysOf(t, |g0.buckets|); var order := Grouped(keys, |g0.buckets| + 1);
            && FilledFrom(g0, g, n, CountDefined(t, n), Arranged(t, keys, |g0.buckets| + 1))
            && IsStableOrder(keys, order) && Inverts(newIndex, order) && GatheredSoFar(syms, newSyms, order)
  {
    ghost var nb := |g0.buckets|;
    ghost var keys := KeysOf(t, nb);
    var hash;
    newSyms, newIndex, hash := CopyUndefined(syms, str, n, keys);
    GroupedLength(keys, 1);
    CountUndefined(t, nb, n);
    KeysAre(syms, str, n, t, nb, hash);
    var undefined := |newSyms|;
    sizeOk := |g0.chain| == n - undefined;
    var first, last, next := FindBuckets(syms, hash, n, |g0.buckets|, keys);
    newSyms, newIndex, g :=
      FillBuckets(syms, hash, first, last, next, newSyms, newIndex, g0.(symoffset := undefined, chain := []), keys, g0.bloom);
    GroupedIsStableOrder(keys, nb + 1);
    UndefinedExist(t, keys);
    DescribesAfter(t, hash, g, g0.bloom);
    DefinedAtMost(t, n);
    ghost var used := g;
    g := g.(symoffset := g0.symoffset, chain := g.chain + g0.chain[n - undefined..]);
    assert Used(g, n, n - undefined) == used;
  }

  lemma KeysAre(syms: seq<Sym>, str: seq<Byte>, n: nat, t: seq<Entry>, nb: nat, hash: seq<Word32>)
    requires n <= |syms| && nb > 0 && t == ViewOf(syms, str, n) && |hash| == n && HashesOk(syms, str, hash, n)
    ensures forall i :: 0 <= i < n ==>
              KeysOf(t, nb)[i] == if syms[i].shndx == SHN_UNDEF then 0 else 1 + hash[i] % nb
    ensures forall i :: 0 <= i < n && Defined(t[i]) ==> hash[i] == GnuHashOf(t[i].name)
  {
  }

  lemma UndefinedExist(t: seq<Entry>, keys: seq<nat>)
    requires t != [] && |keys| == |t| && keys[0] == 0
    ensures |Grouped(keys, 1)| > 0
  {
    GroupedHolds(keys, 1);
    assert 0 in Grouped(keys, 1);
  }

  /** Moves the version numbers along with the symbols. */
  method MoveVersions(versym: seq<nat>, newIndex: seq<nat>, ghost keys: seq<nat>, ghost order: seq<nat>)
    returns (newver: seq<nat>)
    requires |versym| == |keys| && IsStableOrder(keys, order) && Inverts(newIndex, order)
    ensures newver == Gather(versym, order)
  {
    OrderIsBijection(keys, order, newIndex, versym);
    newver := seq(|versym|, _ => 0);
    var i := 0;
    while i < |versym|
      invariant 0 <= i <= |versym| == |newver|
      invariant forall j :: 0 <= j < i ==> newver[newIndex[j]] == versym[j]
    {
      newver := newver[newIndex[i] := versym[i]];
      i := i + 1;
    }
    forall j | 0 <= j < |order|
      ensures newver[j] == versym[order[j]]
    {
      assert newIndex[order[j]] == j;
    }
  }

  /** Reorders the dynamic symbols and fills the section; versions, relocations and the ordinary hash
      section follow the symbols. A section of the wrong size is reported, and filled as far as it is used. */
  method UpdateGnuHash(d: SymbolTable, g0: Gnu, versym: seq<nat>) returns (g: Gnu, newver: seq<nat>)
    requires d.RecordsOk() && d.Linked() && |d.hash| > 0 && d.hash[0] > 0 && |versym| == d.nsyms
    requires Roomy(g0, d.View())
    modifies d`syms, d`sections, d`hash, d`nbErrors
    ensures d.RecordsOk() && d.Linked()
    ensures d.nbErrors == old(d.nbErrors) + if |g0.chain| == CountDefined(old(d.View()), d.nsyms) then 0 else 1
    ensures FilledFrom(g0, g, d.nsyms, CountDefined(old(d.View()), d.nsyms), d.View())
    ensures Prepared(g0, old(d.View())) ==> Describes(g, d.View())
    ensures var keys, groups := KeysOf(old(d.View()), |g0.buckets|), |g0.buckets| + 1;
            d.View() == Arranged(old(d.View()), keys, groups) && newver == Arranged(versym, keys, groups)
    ensures SameDenotation(old(d.View()), d.View(), old(d.sections), d.sections, d.id)
    ensures Indexes(d.hash, d.View())
  {
    hide Describes, SameDenotation, Indexes, Inverts, GatheredSoFar, Grouped, ViewOf, FilledFrom, Prepared, CountDefined;
    hide KeysOf, StringsOk, RelsWithin, Moved, Overwrite, BloomIs;
    ghost var t, keys := d.View(), KeysOf(d.View(), |g0.buckets|);
    ghost var groups := |g0.buckets| + 1;
    var newIndex, newSyms, sizeOk;
    newSyms, newIndex, g, sizeOk := ReorderRecords(d.syms, d.str, d.nsyms, g0, t);
    if !sizeOk {
      d.nbErrors := d.nbErrors + 1;
    }
    ReorderResult(d.syms, newSyms, newIndex, d.str, d.nsyms, d.strLen, keys, groups);
    d.syms := Overwrite(d.syms, 0, newSyms);
    d.RenumberRelocs(newIndex, t);
    newver := MoveVersions(versym, newIndex, keys, Grouped(keys, groups));
    d.RebuildHash(0);
    UsesAll(g0, g, t, d.View());
  }

  /** A section made for these symbols is used to the end. */
  lemma UsesAll(g0: Gnu, g: Gnu, t: seq<Entry>, after: seq<Entry>)
    requires FilledFrom(g0, g, |t|, CountDefined(t, |t|), after)
    ensures Prepared(g0, t) ==> Describes(g, after)
  {
    hide Describes, BloomIs;
    if Prepared(g0, t) {
      assert Used(g, |t|, |g.chain|) == g;
    }
  }

  /** After the update the loader's lookup is right for every name. */
  lemma LoaderFindsEverySymbol(g: Gnu, t: seq<Entry>, name: seq<Byte>)
    requires Describes(g, t)
    ensures Lookup(g, t, name).At? <==> exists j :: 0 <= j < |t| && Defined(t[j]) && t[j].name == name
    ensures Lookup(g, t, name).At? ==>
              var i := Lookup(g, t, name).index; i < |t| && Defined(t[i]) && t[i].name == name
  {
    LookupAnswers(g, t, name);
  }
}
