/** The GNU hash section: what it must contain for the dynamic loader's lookup to be right, and why
    that lookup is right. */
module GnuHash {
  import opened Bytes
  import opened SymbolIndex
  import opened SymbolMerge

  /** h = h * 33 + c from 5381, in 32 bits. */
  function HashFrom33(h: Word32, name: seq<Byte>): (r: Word32)
    decreases |name|
  {
    if name == [] then h else HashFrom33((h * 33 + name[0]) % 0x1_0000_0000, name[1..])
  }

  function GnuHashOf(name: seq<Byte>): (r: Word32) { HashFrom33(5381, name) }

  /** The section: header, bloom filter words (each as the set of its one bits), bucket heads, chain
      words. */
  datatype Gnu = Gnu(symoffset: nat, bloomShift: nat, bloom: seq<set<nat>>, buckets: seq<nat>, chain: seq<Word32>)
  {
    ghost predicate WellSized() {
      |buckets| > 0 && |bloom| > 0
    }
  }

  /** 0 for an undefined symbol, otherwise one more than its bucket. */
  function Key(e: Entry, nbuckets: nat): (k: nat)
    requires nbuckets > 0
    ensures k <= nbuckets && (k == 0 <==> !Defined(e))
  {
    if Defined(e) then 1 + GnuHashOf(e.name) % nbuckets else 0
  }

  /** The two bits a hash sets in its bloom word. */
  function BloomBits(h: Word32, shift: nat): (bits: set<nat>) {
    {h % 64, h / Pow2(shift) % 64}
  }

  predicate BloomHas(bloom: seq<set<nat>>, shift: nat, h: Word32)
    requires |bloom| > 0
  {
    BloomBits(h, shift) <= bloom[h / 64 % |bloom|]
  }

  function KeysOf(t: seq<Entry>, nbuckets: nat): (keys: seq<nat>)
    requires nbuckets > 0
    ensures |keys| == |t| && forall i :: 0 <= i < |t| ==> keys[i] <= nbuckets
  {
    seq(|t|, i requires 0 <= i < |t| => Key(t[i], nbuckets))
  }

  ghost predicate Sorted(keys: seq<nat>) {
    forall i, j :: 0 <= i < j < |keys| ==> keys[i] <= keys[j]
  }

  /** The last position of a run of equal keys. */
  predicate EndsRun(keys: seq<nat>, j: nat)
    requires j < |keys|
  {
    j + 1 == |keys| || keys[j + 1] != keys[j]
  }

  /** The first position from j on with key k, or 0. */
  function FirstWith(keys: seq<nat>, k: nat, j: nat): (r: nat)
    requires j <= |keys|
    ensures r == 0 || j <= r < |keys|
    decreases |keys| - j
  {
    if j == |keys| then 0 else if keys[j] == k then j else FirstWith(keys, k, j + 1)
  }

  /** A chain word carries the hash without its low bit, and says there whether the bucket ends here. */
  predicate ChainWordOk(w: Word32, h: Word32, last: bool) {
    w / 2 == h / 2 && (w % 2 == 1 <==> last)
  }

  /** Undefined symbols come first, then the described ones, ordered by key. */
  ghost predicate OrderedBy(t: seq<Entry>, symoffset: nat, nbuckets: nat) {
    && nbuckets > 0 && 0 < symoffset <= |t|
    && (forall j :: 0 <= j < |t| ==> (Defined(t[j]) <==> j >= symoffset))
    && Sorted(KeysOf(t, nbuckets))
  }

  ghost predicate ChainsFit(chain: seq<Word32>, t: seq<Entry>, symoffset: nat, keys: seq<nat>)
    requires |keys| == |t| == symoffset + |chain|
  {
    forall c :: 0 <= c < |chain| ==>
      ChainWordOk(chain[c], GnuHashOf(t[symoffset + c].name), EndsRun(keys, symoffset + c))
  }

  ghost predicate BloomFits(bloom: seq<set<nat>>, shift: nat, t: seq<Entry>, symoffset: nat)
    requires |bloom| > 0
  {
    forall j :: symoffset <= j < |t| ==> BloomHas(bloom, shift, GnuHashOf(t[j].name))
  }

  ghost predicate HeadsFit(buckets: seq<nat>, keys: seq<nat>, symoffset: nat)
    requires symoffset <= |keys|
  {
    forall b :: 0 <= b < |buckets| ==> buckets[b] == FirstWith(keys, b + 1, symoffset)
  }

  /** The section describes the symbols of t. */
  ghost predicate Describes(g: Gnu, t: seq<Entry>) {
    && g.WellSized() && |t| == g.symoffset + |g.chain|
    && OrderedBy(t, g.symoffset, |g.buckets|)
    && ChainsFit(g.chain, t, g.symoffset, KeysOf(t, |g.buckets|))
    && BloomFits(g.bloom, g.bloomShift, t, g.symoffset)
    && HeadsFit(g.buckets, KeysOf(t, |g.buckets|), g.symoffset)
  }

  datatype Found = Absent | At(index: nat)

  /** The loader's lookup: bloom filter, bucket head, then the chain until a word with its low bit set. */
  function Lookup(g: Gnu, t: seq<Entry>, name: seq<Byte>): (r: Found)
    requires g.WellSized() && |t| == g.symoffset + |g.chain|
  {
    var h := GnuHashOf(name);
    if !BloomHas(g.bloom, g.bloomShift, h) then Absent
    else
      var n := g.buckets[h % |g.buckets|];
      if n < g.symoffset then Absent else Walk(g, t, name, h, n)
  }

  function Walk(g: Gnu, t: seq<Entry>, name: seq<Byte>, h: Word32, n: nat): (r: Found)
    requires g.symoffset <= n && |t| == g.symoffset + |g.chain|
    decreases |t| - n
  {
    if n >= |t| then Absent
    else
      var w := g.chain[n - g.symoffset];
      if w / 2 == h / 2 && t[n].name == name then At(n)
      else if w % 2 == 1 then Absent
      else Walk(g, t, name, h, n + 1)
  }

  /** A right answer among the symbols from `from` on: a defined symbol of that name, or absent when
      there is none. */
  ghost predicate Answers(t: seq<Entry>, name: seq<Byte>, from: nat, r: Found) {
    match r
    case At(i) => from <= i < |t| && Defined(t[i]) && t[i].name == name
    case Absent => forall j :: from <= j < |t| ==> !(Defined(t[j]) && t[j].name == name)
  }

  lemma PastTheRun(keys: seq<nat>, n: nat)
    requires Sorted(keys) && n < |keys| && EndsRun(keys, n)
    ensures forall j :: n < j < |keys| ==> keys[j] != keys[n]
  {
    forall j | n < j < |keys|
      ensures keys[j] > keys[n]
    {
      assert keys[n] < keys[n + 1];
      assert j > n + 1 ==> keys[n + 1] <= keys[j];
    }
  }

  /** Walking a bucket from one of its symbols gives the right answer for the symbols from there on. */
  lemma {:induction false} WalkAnswers(g: Gnu, t: seq<Entry>, keys: seq<nat>, name: seq<Byte>, n: nat)
    requires |keys| == |t| == g.symoffset + |g.chain| && Sorted(keys)
    requires ChainsFit(g.chain, t, g.symoffset, keys)
    requires g.symoffset <= n < |t|
    requires forall j :: n <= j < |t| ==> Defined(t[j])
    requires forall j :: n <= j < |t| && t[j].name == name ==> keys[j] == keys[n]
    ensures Answers(t, name, n, Walk(g, t, name, GnuHashOf(name), n))
    decreases |t| - n
  {
    assert ChainWordOk(g.chain[n - g.symoffset], GnuHashOf(t[n].name), EndsRun(keys, n));
    if t[n].name != name {
      if EndsRun(keys, n) {
        PastTheRun(keys, n);
      } else {
        WalkAnswers(g, t, keys, name, n + 1);
      }
    }
  }

  lemma {:induction false} FirstIsFirst(keys: seq<nat>, k: nat, j: nat)
    requires 0 < j <= |keys|
    ensures var r := FirstWith(keys, k, j);
            && (r != 0 ==> keys[r] == k)
            && (forall i :: j <= i < |keys| && (r == 0 || i < r) ==> keys[i] != k)
    decreases |keys| - j
  {
    if j < |keys| && keys[j] != k {
      FirstIsFirst(keys, k, j + 1);
    }
  }

  /** The walk from the head of bucket k - 1, if all symbols of the name are in that bucket. */
  lemma BucketAnswers(g: Gnu, t: seq<Entry>, keys: seq<nat>, name: seq<Byte>, k: nat)
    requires |keys| == |t| == g.symoffset + |g.chain| && Sorted(keys) && 0 < g.symoffset
    requires ChainsFit(g.chain, t, g.symoffset, keys)
    requires forall j :: g.symoffset <= j < |t| ==> Defined(t[j])
    requires forall j :: g.symoffset <= j < |t| && t[j].name == name ==> keys[j] == k
    ensures var n := FirstWith(keys, k, g.symoffset);
            Answers(t, name, g.symoffset, if n == 0 then Absent else Walk(g, t, name, GnuHashOf(name), n))
  {
    FirstIsFirst(keys, k, g.symoffset);
    var n := FirstWith(keys, k, g.symoffset);
    if n != 0 {
      WalkAnswers(g, t, keys, name, n);
    }
  }

  /** For every name, the lookup finds a defined symbol of that name exactly when there is one, and never
      an undefined one. */
  lemma LookupAnswers(g: Gnu, t: seq<Entry>, name: seq<Byte>)
    requires Describes(g, t)
    ensures Answers(t, name, 0, Lookup(g, t, name))
  {
    var nb := |g.buckets|;
    var b, keys := GnuHashOf(name) % nb, KeysOf(t, nb);
    forall j | g.symoffset <= j < |t| && t[j].name == name
      ensures keys[j] == b + 1
      ensures BloomHas(g.bloom, g.bloomShift, GnuHashOf(name))
    {
      assert keys[j] == Key(t[j], nb);
    }
    BucketAnswers(g, t, keys, name, b + 1);
  }
}
