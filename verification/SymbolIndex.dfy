/** What the linker's symbol table means: a sequence of named entries, and the chained hash index over
    it, described without the arrays that hold them. */
module SymbolIndex {
  import opened Bytes

  const STB_LOCAL: nat := 0
  const STB_GLOBAL: nat := 1
  const STB_WEAK: nat := 2
  const SHN_UNDEF: nat := 0

  /** A symbol as the rest of the linker sees it: its record with the name read back. */
  datatype Entry = Entry(name: seq<Byte>, info: Byte, other: Byte, shndx: nat, value: nat, size: nat)

  function Bind(info: Byte): (b: nat) { info / 16 }
  function Type(info: Byte): (t: nat) { info % 16 }

  predicate IsLocal(e: Entry) {
    Bind(e.info) == STB_LOCAL
  }

  predicate Names(e: Entry, name: seq<Byte>) {
    !IsLocal(e) && e.name == name
  }

  type Hash28 = h: int | 0 <= h < 0x1000_0000

  /** Folding the top nibble g of a 32-bit word back into bits 4 to 7 and clearing it. */
  function FoldTop(h: nat, g: nat): (r: Hash28)
    requires g < 16 && h / 0x1000_0000 == g
  {
    FoldKeepsTopNibble(h, g * 16);
    Xor(h, g * 16) % 0x1000_0000
  }

  lemma FoldKeepsTopNibble(h: nat, x: nat)
    requires x < 256
    ensures Xor(h, x) / 0x1000_0000 == h / 0x1000_0000
  {
    assert Pow2(8) == 256 by {
      assert Pow2(4) == 16;
    }
    XorKeepsHighBits(h, x, 8);
    assert Xor(h, x) / 256 == h / 256;
    assert forall a: nat :: a / 0x1000_0000 == (a / 256) / 0x10_0000;
  }

  function HashStep(h: Hash28, c: Byte): (r: Hash28) {
    var h1 := (h * 16 + c) % 0x1_0000_0000;
    FoldTop(h1, h1 / 0x1000_0000)
  }

  function HashFrom(h: Hash28, name: seq<Byte>): (r: Hash28)
    decreases |name|
  {
    if name == [] then h else HashFrom(HashStep(h, name[0]), name[1..])
  }

  function Bucket(name: seq<Byte>, nbuckets: nat): (b: nat)
    requires nbuckets > 0
    ensures b < nbuckets
  {
    HashFrom(0, name) % nbuckets
  }

  /** The answer a lookup must give: the largest index below n of a non-local symbol called `name`,
      or 0 if there is none. */
  function FindBelow(t: seq<Entry>, name: seq<Byte>, n: nat): (i: nat)
    requires n <= |t|
    ensures i == 0 || i < n
  {
    if n == 0 then 0
    else if Names(t[n - 1], name) then n - 1
    else FindBelow(t, name, n - 1)
  }

  function Find(t: seq<Entry>, name: seq<Byte>): (i: nat)
    ensures i == 0 || i < |t|
  {
    FindBelow(t, name, |t|)
  }

  /** The largest index below n of a non-local symbol that hashes to bucket b, or 0. */
  function LastIn(t: seq<Entry>, nbuckets: nat, b: nat, n: nat): (i: nat)
    requires nbuckets > 0 && n <= |t|
    ensures i == 0 || i < n
  {
    if n == 0 then 0
    else if !IsLocal(t[n - 1]) && Bucket(t[n - 1].name, nbuckets) == b then n - 1
    else LastIn(t, nbuckets, b, n - 1)
  }

  /** The chain word of symbol i: the previous symbol of its bucket, 0 for a local symbol. */
  function ChainWord(t: seq<Entry>, nbuckets: nat, i: nat): (w: nat)
    requires nbuckets > 0 && i < |t|
    ensures w == 0 || w < i
  {
    if IsLocal(t[i]) then 0 else LastIn(t, nbuckets, Bucket(t[i].name, nbuckets), i)
  }

  function CountNonLocal(t: seq<Entry>): (n: nat)
  {
    if t == [] then 0 else CountNonLocal(t[..|t| - 1]) + if IsLocal(t[|t| - 1]) then 0 else 1
  }

  /** The words of the hash section: bucket count, chain count, bucket heads, chain links. */
  ghost predicate Indexes(hash: seq<nat>, t: seq<Entry>) {
    && |hash| >= 2
    && hash[0] > 0
    && hash[1] == |t|
    && |hash| == 2 + hash[0] + |t|
    && (forall k :: 2 <= k < 2 + hash[0] ==> hash[k] == LastIn(t, hash[0], k - 2, |t|))
    && (forall k :: 2 + hash[0] <= k < |hash| ==> hash[k] == ChainWord(t, hash[0], k - 2 - hash[0]))
  }

  /** Find really is the largest matching index; 0 means no symbol but the null one matches. */
  lemma {:induction false} FindBelowIsLargest(t: seq<Entry>, name: seq<Byte>, n: nat)
    requires n <= |t|
    ensures FindBelow(t, name, n) != 0 ==> Names(t[FindBelow(t, name, n)], name)
    ensures forall j :: FindBelow(t, name, n) < j < n ==> !Names(t[j], name)
  {
    if n != 0 && !Names(t[n - 1], name) {
      FindBelowIsLargest(t, name, n - 1);
    }
  }

  /** An index with the two properties above is the answer. */
  lemma {:induction false} FindBelowUnique(t: seq<Entry>, name: seq<Byte>, n: nat, i: nat)
    requires i < n <= |t| && Names(t[i], name)
    requires forall j :: i < j < n ==> !Names(t[j], name)
    ensures FindBelow(t, name, n) == i
  {
    if i < n - 1 {
      FindBelowUnique(t, name, n - 1, i);
    }
  }

  lemma {:induction false} FindBelowAppend(t: seq<Entry>, e: Entry, name: seq<Byte>, n: nat)
    requires n <= |t|
    ensures FindBelow(t + [e], name, n) == FindBelow(t, name, n)
  {
    if n != 0 {
      FindBelowAppend(t, e, name, n - 1);
    }
  }

  /** Changing the record of a symbol, but not its name or locality, changes no answer. */
  lemma {:induction false} FindBelowUpdate(t: seq<Entry>, k: nat, e: Entry, name: seq<Byte>, n: nat)
    requires n <= |t| && k < |t|
    requires e.name == t[k].name && IsLocal(e) == IsLocal(t[k])
    ensures FindBelow(t[k := e], name, n) == FindBelow(t, name, n)
  {
    if n != 0 {
      FindBelowUpdate(t, k, e, name, n - 1);
    }
  }

  lemma {:induction false} LastInAppend(t: seq<Entry>, e: Entry, nbuckets: nat, b: nat, n: nat)
    requires nbuckets > 0 && n <= |t|
    ensures LastIn(t + [e], nbuckets, b, n) == LastIn(t, nbuckets, b, n)
  {
    if n != 0 {
      LastInAppend(t, e, nbuckets, b, n - 1);
    }
  }

  lemma {:induction false} LastInUpdate(t: seq<Entry>, k: nat, e: Entry, nbuckets: nat, b: nat, n: nat)
    requires nbuckets > 0 && n <= |t| && k < |t|
    requires e.name == t[k].name && IsLocal(e) == IsLocal(t[k])
    ensures LastIn(t[k := e], nbuckets, b, n) == LastIn(t, nbuckets, b, n)
  {
    if n != 0 {
      LastInUpdate(t, k, e, nbuckets, b, n - 1);
    }
  }

  lemma CountAppend(t: seq<Entry>, e: Entry)
    ensures CountNonLocal(t + [e]) == CountNonLocal(t) + if IsLocal(e) then 0 else 1
  {
    assert (t + [e])[..|t|] == t;
  }

  lemma {:induction false} CountUpdate(t: seq<Entry>, k: nat, e: Entry)
    requires k < |t| && IsLocal(e) == IsLocal(t[k])
    ensures CountNonLocal(t[k := e]) == CountNonLocal(t)
  {
    var n := |t| - 1;
    if k < n {
      CountUpdate(t[..n], k, e);
      assert t[k := e][..n] == t[..n][k := e];
    } else {
      assert t[k := e][..n] == t[..n];
    }
  }

  /** Following one bucket chain visits every candidate: the head below n is the answer, or the
      answer lies further down the chain. */
  lemma {:induction false} ChainStep(t: seq<Entry>, nbuckets: nat, name: seq<Byte>, n: nat)
    requires nbuckets > 0 && n <= |t|
    ensures var j := LastIn(t, nbuckets, Bucket(name, nbuckets), n);
            && (j == 0 ==> FindBelow(t, name, n) == 0)
            && (j != 0 ==> !IsLocal(t[j]) && Bucket(t[j].name, nbuckets) == Bucket(name, nbuckets))
            && (j != 0 && t[j].name == name ==> FindBelow(t, name, n) == j)
            && (j != 0 && t[j].name != name ==> FindBelow(t, name, n) == FindBelow(t, name, j))
  {
    if n != 0 {
      var e := t[n - 1];
      if IsLocal(e) || Bucket(e.name, nbuckets) != Bucket(name, nbuckets) {
        ChainStep(t, nbuckets, name, n - 1);
      }
    }
  }

  /** Appending a symbol extends the index by one chain word and, for a non-local symbol, moves the
      head of its bucket. */
  lemma IndexesAppend(hash: seq<nat>, t: seq<Entry>, e: Entry, hash': seq<nat>)
    requires Indexes(hash, t)
    requires |hash'| == |hash| + 1 && hash'[0] == hash[0] && hash'[1] == |t| + 1
    requires forall k :: 2 <= k < |hash| && (IsLocal(e) || k != 2 + Bucket(e.name, hash[0])) ==> hash'[k] == hash[k]
    requires IsLocal(e) ==> hash'[|hash|] == 0
    requires !IsLocal(e) ==> hash'[|hash|] == hash[2 + Bucket(e.name, hash[0])]
    requires !IsLocal(e) ==> hash'[2 + Bucket(e.name, hash[0])] == |t|
    ensures Indexes(hash', t + [e])
  {
    hide ChainWord;
    var t', nb := t + [e], hash[0];
    forall k | 2 <= k < 2 + nb
      ensures hash'[k] == LastIn(t', nb, k - 2, |t'|)
    {
      LastInAppend(t, e, nb, k - 2, |t|);
    }
    forall k | 2 + nb <= k < |hash'|
      ensures hash'[k] == ChainWord(t', nb, k - 2 - nb)
    {
      ChainWordAppend(t, e, nb, k - 2 - nb);
      assert k < |hash| ==> hash'[k] == hash[k];
    }
  }

  lemma ChainWordAppend(t: seq<Entry>, e: Entry, nbuckets: nat, i: nat)
    requires nbuckets > 0 && i <= |t|
    ensures i < |t| ==> ChainWord(t + [e], nbuckets, i) == ChainWord(t, nbuckets, i)
    ensures i == |t| ==> ChainWord(t + [e], nbuckets, i) ==
                         if IsLocal(e) then 0 else LastIn(t, nbuckets, Bucket(e.name, nbuckets), |t|)
  {
    LastInAppend(t, e, nbuckets, Bucket((t + [e])[i].name, nbuckets), i);
  }

  /** The index does not depend on anything but names and locality. */
  lemma IndexesUpdate(hash: seq<nat>, t: seq<Entry>, k: nat, e: Entry)
    requires Indexes(hash, t) && k < |t|
    requires e.name == t[k].name && IsLocal(e) == IsLocal(t[k])
    ensures Indexes(hash, t[k := e])
  {
    hide LastIn;
    var t', nb := t[k := e], hash[0];
    forall j | 2 <= j < 2 + nb
      ensures hash[j] == LastIn(t', nb, j - 2, |t'|)
    {
      LastInUpdate(t, k, e, nb, j - 2, |t|);
    }
    forall j | 2 + nb <= j < |hash|
      ensures hash[j] == ChainWord(t', nb, j - 2 - nb)
    {
      var i := j - 2 - nb;
      LastInUpdate(t, k, e, nb, Bucket(t'[i].name, nb), i);
    }
  }

  /** Every link of every chain points at a smaller index, so a walk along a chain ends. */
  lemma ChainsDescend(hash: seq<nat>, t: seq<Entry>, i: nat)
    requires Indexes(hash, t) && 0 < i < |t|
    ensures var next := hash[2 + hash[0] + i];
            next < i && (next != 0 ==> Bucket(t[next].name, hash[0]) == Bucket(t[i].name, hash[0]))
  {
    assert hash[2 + hash[0] + i] == ChainWord(t, hash[0], i);
    if !IsLocal(t[i]) {
      ChainStep(t, hash[0], t[i].name, i);
    }
  }
}
