/** The two hash functions and the two hash sections as their formats define them, for readers that know nothing of
    the program that wrote them. */
module HashFormats {
  import opened Bits
  import opened Bytes
  import opened SymbolIndex
  import opened SymbolMerge
  import opened GnuHash
  import StringPool

  function Power(b: nat, n: nat): (p: nat) {
    if n == 0 then 1 else b * Power(b, n - 1)
  }

  /** The bytes of a name as the digits of a number in base b, the first one first. */
  function Digits(b: nat, name: seq<Byte>): (n: nat) {
    if name == [] then 0 else b * Digits(b, name[..|name| - 1]) + name[|name| - 1]
  }

  lemma {:induction false} DigitsFirst(b: nat, name: seq<Byte>)
    requires name != []
    ensures Digits(b, name) == name[0] * Power(b, |name| - 1) + Digits(b, name[1..])
  {
    var n := |name| - 1;
    if n > 0 {
      DigitsFirst(b, name[..n]);
      assert name[1..][..n - 1] == name[..n][1..] && name[1..][n - 1] == name[n];
      Distribute(b, name[0], Power(b, n - 1), Digits(b, name[..n][1..]));
    } else {
      assert name[..0] == [] && name[1..] == [];
    }
  }

  lemma Distribute(b: nat, c: nat, p: nat, d: nat)
    ensures b * (c * p + d) == c * (b * p) + b * d
  {
  }

  // The GNU hash

  /** The GNU hash is 5381 * 33^n plus the name read in base 33, modulo 2^32. */
  lemma {:induction false} GnuHashIs(h: Word32, name: seq<Byte>)
    ensures HashFrom33(h, name) == (h * Power(33, |name|) + Digits(33, name)) % 0x1_0000_0000
    decreases |name|
  {
    if name != [] {
      var h', p := (h * 33 + name[0]) % 0x1_0000_0000, Power(33, |name| - 1);
      GnuHashIs(h', name[1..]);
      DigitsFirst(33, name);
      OneStep(33, h, name[0], (h * 33 + name[0]) / 0x1_0000_0000, h', p, Digits(33, name[1..]));
    }
  }

  /** The hash of the string pool is the same with 32 for 33. */
  lemma {:induction false} StringHashIs(h: Word32, s: seq<Byte>)
    ensures StringPool.HashFrom32(h, s) == (h * Power(32, |s|) + Digits(32, s)) % 0x1_0000_0000
    decreases |s|
  {
    if s != [] {
      var h', p := (h * 32 + s[0]) % 0x1_0000_0000, Power(32, |s| - 1);
      StringHashIs(h', s[1..]);
      DigitsFirst(32, s);
      OneStep(32, h, s[0], (h * 32 + s[0]) / 0x1_0000_0000, h', p, Digits(32, s[1..]));
    }
  }

  /** The list of the pool that holds the strings with this hash: one of 251. */
  lemma BucketIs(s: seq<Byte>)
    ensures StringPool.BucketOf(s) == (5381 * Power(32, |s|) + Digits(32, s)) % 0x1_0000_0000 % 251
  {
    StringHashIs(5381, s);
  }

  lemma OneStep(b: nat, h: nat, c: nat, q: nat, h': nat, p: nat, d: nat)
    requires h * b + c == q * 0x1_0000_0000 + h'
    ensures (h' * p + d) % 0x1_0000_0000 == (h * (b * p) + (c * p + d)) % 0x1_0000_0000
  {
    assert h * (b * p) + c * p == (h * b + c) * p == (q * p) * 0x1_0000_0000 + h' * p;
    var x := h' * p + d;
    DivUnique(x + (q * p) * 0x1_0000_0000, 0x1_0000_0000, x / 0x1_0000_0000 + q * p, x % 0x1_0000_0000);
  }

  /** What the format says of defined symbol i: its hash, its two bits in the Bloom filter of 64-bit words with
      shift 6, where its bucket starts, and its chain word, which ends the bucket if the low bit is set. */
  ghost predicate FormatHolds(g: Gnu, t: seq<Entry>, i: nat)
    requires g.WellSized() && |t| == g.symoffset + |g.chain| && g.symoffset <= i < |t|
  {
    var h := (5381 * Power(33, |t[i].name|) + Digits(33, t[i].name)) % 0x1_0000_0000;
    var word, bucket, c := g.bloom[h / 64 % |g.bloom|], h % |g.buckets|, i - g.symoffset;
    && h % 64 in word && h / 64 % 64 in word
    && g.symoffset <= g.buckets[bucket] <= i
    && (forall d :: g.buckets[bucket] - g.symoffset <= d < c ==> g.chain[d] % 2 == 0)
    && g.chain[c] / 2 == h / 2
    && (g.chain[c] % 2 == 1 <==> i + 1 == |t| || GnuHashOf(t[i + 1].name) % |g.buckets| != bucket)
  }

  /** Symbols of one bucket lie together, and the head of the bucket is the first of them. */
  lemma BucketStarts(g: Gnu, t: seq<Entry>, keys: seq<nat>, i: nat)
    requires Describes(g, t) && keys == KeysOf(t, |g.buckets|) && g.symoffset <= i < |t|
    ensures var first := g.buckets[GnuHashOf(t[i].name) % |g.buckets|];
            && g.symoffset <= first <= i && forall j :: first <= j <= i ==> keys[j] == keys[i]
  {
    hide GnuHashOf, ChainsFit, BloomFits;
    var nb := |g.buckets|;
    var b := GnuHashOf(t[i].name) % nb;
    FirstIsFirst(keys, b + 1, g.symoffset);
    assert keys[i] == Key(t[i], nb) == b + 1;
    assert g.buckets[b] == FirstWith(keys, b + 1, g.symoffset);
    forall j | g.buckets[b] <= j <= i
      ensures keys[j] == keys[i]
    {
      assert keys[g.buckets[b]] <= keys[j] <= keys[i];
    }
  }

  /** The chain word of symbol i. */
  lemma ChainWordIs(g: Gnu, t: seq<Entry>, keys: seq<nat>, i: nat)
    requires Describes(g, t) && keys == KeysOf(t, |g.buckets|) && g.symoffset <= i < |t|
    ensures var c := i - g.symoffset;
            && g.chain[c] / 2 == GnuHashOf(t[i].name) / 2
            && (g.chain[c] % 2 == 1 <==> i + 1 == |t| || keys[i + 1] != keys[i])
  {
    hide GnuHashOf, BloomFits, HeadsFit, OrderedBy;
    assert ChainWordOk(g.chain[i - g.symoffset], GnuHashOf(t[g.symoffset + (i - g.symoffset)].name), EndsRun(keys, i));
  }

  /** A section that describes a table is what the format says, with the hash in closed form. */
  lemma DescribedFormat(g: Gnu, t: seq<Entry>, i: nat)
    requires Describes(g, t) && g.bloomShift == 6 && g.symoffset <= i < |t|
    ensures FormatHolds(g, t, i)
  {
    hide HashFrom33, ChainsFit, HeadsFit, ChainWordOk;
    var nb := |g.buckets|;
    var keys, h := KeysOf(t, nb), GnuHashOf(t[i].name);
    GnuHashIs(5381, t[i].name);
    assert Pow2(6) == 64 by {
      assert Pow2(3) == 8;
    }
    assert BloomHas(g.bloom, g.bloomShift, h);
    BucketStarts(g, t, keys, i);
    forall d: nat | g.buckets[h % nb] - g.symoffset <= d < i - g.symoffset
      ensures g.chain[d] % 2 == 0
    {
      ChainWordIs(g, t, keys, g.symoffset + d);
    }
    ChainWordIs(g, t, keys, i);
    if i + 1 < |t| {
      assert keys[i + 1] == Key(t[i + 1], nb) && keys[i] == Key(t[i], nb);
    }
  }

  // The ELF hash

  /** While it stays below 2^28 the ELF hash is the name read in base 16. */
  lemma {:induction false} ElfHashIs(h: Hash28, name: seq<Byte>)
    requires h * Power(16, |name|) + Digits(16, name) < 0x1000_0000
    ensures HashFrom(h, name) == h * Power(16, |name|) + Digits(16, name)
    decreases |name|
  {
    if name != [] {
      var p, c := Power(16, |name| - 1), name[0];
      DigitsFirst(16, name);
      assert h * Power(16, |name|) + Digits(16, name) == (h * 16 + c) * p + Digits(16, name[1..]) by {
        assert h * (16 * p) + c * p == (h * 16 + c) * p;
      }
      PowerPositive(16, |name| - 1);
      MulAtLeast(h * 16 + c, p);
      NoFold(h, c);
      ElfHashIs(h * 16 + c, name[1..]);
    }
  }

  /** The bucket of a short name: the name read in base 16, modulo the number of buckets. */
  lemma ElfBucketIs(name: seq<Byte>, nbuckets: nat)
    requires nbuckets > 0 && Digits(16, name) < 0x1000_0000
    ensures Bucket(name, nbuckets) == Digits(16, name) % nbuckets
  {
    ElfHashIs(0, name);
  }

  lemma {:induction false} PowerPositive(b: nat, n: nat)
    requires b > 0
    ensures Power(b, n) > 0
  {
    if n > 0 {
      PowerPositive(b, n - 1);
    }
  }

  lemma NoFold(h: Hash28, c: Byte)
    requires h * 16 + c < 0x1000_0000
    ensures HashStep(h, c) == h * 16 + c
  {
    var w := h * 16 + c;
    hide Xor;
    XorZero(w);
    assert w % 0x1_0000_0000 == w && w / 0x1000_0000 == 0 && w % 0x1000_0000 == w;
  }

  /** One step on bits: shift by four and add, then the four bits above 28 are added, without carry, to bits 4 to 7
      and dropped. */
  lemma HashStepBit(h: Hash28, c: Byte, k: nat)
    ensures var w := (h * 16 + c) % 0x1_0000_0000;
            Bit(HashStep(h, c), k) <==> k < 28 && (Bit(w, k) != (4 <= k < 8 && Bit(w, k + 24)))
  {
    var w := (h * 16 + c) % 0x1_0000_0000;
    var g := w / 0x1000_0000;
    TwoTo28();
    FoldKeepsTopNibble(w, g * 16);
    var x := Xor(w, g * 16);
    if k < 28 {
      LowBit(x, 28, k);
      XorBit(w, g * 16, k);
      assert Pow2(4) == 16;
      ShiftedBit(g, 4, k);
      if k >= 4 {
        DroppedBit(w, 28, k - 4, g);
        if k >= 8 {
          SmallBit(g, 4, k - 4);
        }
      }
    } else {
      SmallBit(HashStep(h, c), 28, k);
    }
  }

  lemma TwoTo28()
    ensures Pow2(28) == 0x1000_0000
  {
    assert Pow2(4) == 16 && Pow2(8) == 256 && Pow2(12) == 0x1000 && Pow2(16) == 0x1_0000 && Pow2(20) == 0x10_0000
           && Pow2(24) == 0x100_0000;
  }

  lemma SmallBit(a: nat, n: nat, k: nat)
    requires a < Pow2(n) && n <= k
    ensures !Bit(a, k)
  {
    PowerGrows(n, k);
    DivUnique(a, Pow2(k), 0, a);
  }

  lemma {:induction false} PowerGrows(n: nat, k: nat)
    requires n <= k
    ensures Pow2(n) <= Pow2(k)
  {
    if n < k {
      PowerGrows(n, k - 1);
    }
  }
}
