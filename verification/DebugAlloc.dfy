/** The debug allocator: headers on a doubly linked chain, and a ledger of the bytes in use, both in
    32-bit counters. */
module DebugAlloc {
  import opened Bytes

  const MAGIC1: Word32 := 0xFEEDDEB1
  const MAGIC2: Word32 := 0xFEEDDEB2
  const MAGIC3: Word32 := 0xFEEDDEB3
  const FREED: Word32 := 0xFFFF_FFFF // (unsigned)-1, the size of a header that was freed

  function Sum(sizes: seq<nat>): (s: nat) {
    if sizes == [] then 0 else sizes[0] + Sum(sizes[1..])
  }

  lemma {:induction false} SumAppend(a: seq<nat>, b: seq<nat>)
    ensures Sum(a + b) == Sum(a) + Sum(b)
  {
    if a == [] {
      assert a + b == b;
    } else {
      assert (a + b)[1..] == a[1..] + b;
      SumAppend(a[1..], b);
    }
  }

  lemma SumCons(n: nat, sizes: seq<nat>)
    ensures Sum([n] + sizes) == Sum(sizes) + n
  {
  }

  /** Taking one size out, or replacing it, changes the sum by the difference. */
  lemma SumWithout(sizes: seq<nat>, k: nat)
    requires k < |sizes|
    ensures Sum(sizes[..k] + sizes[k + 1..]) == Sum(sizes) - sizes[k]
  {
    assert sizes == sizes[..k] + ([sizes[k]] + sizes[k + 1..]);
    SumAppend(sizes[..k], [sizes[k]] + sizes[k + 1..]);
    SumAppend([sizes[k]], sizes[k + 1..]);
    SumAppend(sizes[..k], sizes[k + 1..]);
  }

  lemma SumReplaced(sizes: seq<nat>, k: nat, n: nat)
    requires k < |sizes|
    ensures Sum(sizes[k := n]) == Sum(sizes) - sizes[k] + n
  {
    SumWithout(sizes, k);
    SumWithout(sizes[k := n], k);
    assert sizes[k := n][..k] + sizes[k := n][k + 1..] == sizes[..k] + sizes[k + 1..];
  }

  /** Adding and taking away in 32 bits. */
  lemma LowAdd(a: int, b: int)
    ensures Low32(Low32(a) + b) == Low32(a + b)
    ensures Low32(Low32(a) - Low32(b)) == Low32(a - b)
  {
    Low32Shift(a + b, -(a / TWO_32));
    Low32Shift(a - b, b / TWO_32 - a / TWO_32);
  }

  lemma Low32Shift(a: int, k: int)
    ensures Low32(a + k * TWO_32) == Low32(a)
  {
    DivUnique(a + k * TWO_32, TWO_32, a / TWO_32 + k, a % TWO_32);
  }

  class Header {
    var magic1: Word32
    var size: Word32
    var prev: Header?
    var next: Header?
    var magic2: Word32
    var magic3: Word32

    constructor (size: nat)
      ensures magic1 == MAGIC1 && magic2 == MAGIC2 && magic3 == MAGIC3 && this.size == Low32(size)
    {
      magic1, magic2, magic3, this.size := MAGIC1, MAGIC2, MAGIC3, Low32(size);
    }
  }

  ghost predicate Distinct<T>(s: seq<T>) {
    forall i, j :: 0 <= i < j < |s| ==> s[i] != s[j]
  }

  /** The headers form one doubly linked chain, in this order. */
  ghost predicate Linked(blocks: seq<Header>, first: Header?)
    reads blocks
  {
    && Distinct(blocks)
    && (first == if blocks == [] then null else blocks[0])
    && (forall i {:trigger blocks[i].prev} :: 0 <= i < |blocks| ==>
          blocks[i].prev == if i == 0 then null else blocks[i - 1])
    && (forall i {:trigger blocks[i].next} :: 0 <= i < |blocks| ==>
          blocks[i].next == if i + 1 == |blocks| then null else blocks[i + 1])
  }

  /** Every header carries its magic numbers and the low 32 bits of the size asked for. */
  ghost predicate Stamped(blocks: seq<Header>, sizes: seq<nat>)
    reads blocks
  {
    && |sizes| == |blocks|
    && forall i :: 0 <= i < |blocks| ==>
         && blocks[i].magic1 == MAGIC1 && blocks[i].magic2 == MAGIC2 && blocks[i].magic3 == MAGIC3
         && blocks[i].size == Low32(sizes[i])
  }

  /** Puts a new header before the first one. */
  method LinkFirst(header: Header, first: Header?, ghost blocks: seq<Header>, ghost sizes: seq<nat>, ghost size: nat)
    requires Linked(blocks, first) && Stamped(blocks, sizes) && header !in blocks
    requires header.magic1 == MAGIC1 && header.magic2 == MAGIC2 && header.magic3 == MAGIC3 && header.size == Low32(size)
    modifies header`next, header`prev, blocks`prev
    ensures Linked([header] + blocks, header) && Stamped([header] + blocks, [size] + sizes)
  {
    hide Low32;
    header.next := first;
    header.prev := null;
    if header.next != null {
      header.next.prev := header;
    }
  }

  /** Takes a header out of the chain, and returns the first one left. */
  method Detach(header: Header, first: Header?, ghost blocks: seq<Header>, ghost k: nat) returns (first': Header?)
    requires Linked(blocks, first) && k < |blocks| && blocks[k] == header
    modifies blocks`next, blocks`prev
    ensures Linked(blocks[..k] + blocks[k + 1..], first')
  {
    first' := first;
    if header.next != null {
      header.next.prev := header.prev;
    }
    if header.prev != null {
      header.prev.next := header.next;
    }
    if header == first {
      first' := header.next;
    }
  }

  /** Marks a header as freed and takes it out of the chain. */
  method Unlink(header: Header, first: Header?, ghost blocks: seq<Header>, ghost sizes: seq<nat>, ghost k: nat)
    returns (first': Header?)
    requires Linked(blocks, first) && Stamped(blocks, sizes) && k < |blocks| && blocks[k] == header
    modifies header`size, blocks`next, blocks`prev
    ensures Linked(blocks[..k] + blocks[k + 1..], first') && header !in blocks[..k] + blocks[k + 1..]
    ensures Stamped(blocks[..k] + blocks[k + 1..], sizes[..k] + sizes[k + 1..]) && header.size == FREED
  {
    hide Low32;
    header.size := FREED;
    first' := Detach(header, first, blocks, k);
  }

  /** Puts a header that carries the links of blocks[k], and its own stamp, in the place of blocks[k]. */
  method Relink(header: Header, wasFirst: bool, first: Header?, ghost blocks: seq<Header>, ghost k: nat)
    returns (first': Header?)
    requires Linked(blocks, first) && k < |blocks| && (header == blocks[k] || header !in blocks)
    requires header.prev == blocks[k].prev && header.next == blocks[k].next && wasFirst == (first == blocks[k])
    modifies blocks`next, blocks`prev
    ensures Linked(blocks[k := header], first')
  {
    first' := first;
    if header.next != null {
      header.next.prev := header;
    }
    if header.prev != null {
      header.prev.next := header;
    }
    if wasFirst {
      first' := header;
    }
  }

  /** Moves and resizes the header of blocks[k]; the chain keeps its order. */
  method ReplaceHeader(ptr: Header, first: Header?, size: nat, moves: bool, ghost blocks: seq<Header>,
                       ghost sizes: seq<nat>, ghost k: nat)
    returns (header: Header, first': Header?)
    requires Linked(blocks, first) && Stamped(blocks, sizes) && k < |blocks| && blocks[k] == ptr
    modifies ptr`size, ptr`magic3, blocks`next, blocks`prev
    ensures Linked(blocks[k := header], first') && Stamped(blocks[k := header], sizes[k := size])
    ensures if moves then fresh(header) else header == ptr
  {
    hide Low32;
    var wasFirst := ptr == first;
    header := MoveHeader(ptr, size, moves);
    first' := Relink(header, wasFirst, first, blocks, k);
  }

  /** What the guard accepts: the magic numbers are there, and the size is not the mark of a freed header. */
  predicate Intact(header: Header)
    reads header
  {
    && header.magic1 == 0xFEEDDEB1 && header.magic2 == 0xFEEDDEB2 && header.magic3 == 0xFEEDDEB3
    && header.size != 0xFFFF_FFFF
  }

  class DebugAllocator {
    var chain: Header?
    var curSize: Word32
    var maxSize: Word32
    ghost var blocks: seq<Header> // the live blocks, most recent first
    ghost var sizes: seq<nat> // the size asked for, block by block
    ghost var peak: nat // the largest sum of live sizes so far

    ghost predicate Valid()
      reads this, blocks
    {
      && Linked(blocks, chain) && Stamped(blocks, sizes)
      && curSize == Low32(Sum(sizes)) && Sum(sizes) <= peak
      && (peak < TWO_32 ==> maxSize == peak)
    }

    constructor ()
      ensures Valid() && blocks == [] && peak == 0
    {
      chain, curSize, maxSize := null, 0, 0;
      blocks, sizes, peak := [], [], 0;
    }

    /** The ledger equals the sum of the live sizes exactly as long as that sum fits in it, and if it
        always has, the high-water mark is the true one. */
    lemma LedgerIsExact()
      requires Valid()
      ensures curSize == Sum(sizes) <==> Sum(sizes) < TWO_32
      ensures maxSize == peak <==> peak < TWO_32
      ensures peak < TWO_32 ==> curSize <= maxSize
    {
    }

    /** Books `sum` as the new total of live sizes. */
    method Charge(size: nat, ghost before: nat)
      requires curSize == Low32(before) && (peak < TWO_32 ==> maxSize == peak)
      modifies this`curSize, this`maxSize, this`peak
      ensures curSize == Low32(before + size)
      ensures peak == if before + size > old(peak) then before + size else old(peak)
      ensures peak < TWO_32 ==> maxSize == peak
    {
      LowAdd(before, size);
      curSize := Low32(curSize + size);
      if curSize > maxSize {
        maxSize := curSize;
      }
      if before + size > peak {
        peak := before + size;
      }
    }

    /** A new block at the head of the chain; none for size 0. */
    method Malloc(size: nat) returns (ptr: Header?)
      requires Valid()
      modifies this, blocks
      ensures Valid()
      ensures size == 0 ==> ptr == null && blocks == old(blocks) && sizes == old(sizes)
      ensures size != 0 ==> ptr != null && fresh(ptr) && blocks == [ptr] + old(blocks) && sizes == [size] + old(sizes)
    {
      if size == 0 {
        return null;
      }
      ptr := new Header(size);
      Enter(ptr, size);
    }

    /** Puts a new header on the chain and its size in the ledger. */
    method Enter(header: Header, size: nat)
      requires Valid() && header !in blocks && size > 0
      requires header.magic1 == MAGIC1 && header.magic2 == MAGIC2 && header.magic3 == MAGIC3
      requires header.size == Low32(size)
      modifies this, blocks, header
      ensures Valid() && blocks == [header] + old(blocks) && sizes == [size] + old(sizes)
    {
      hide Low32, Sum, Linked, Stamped;
      SumCons(size, sizes);
      LinkFirst(header, chain, blocks, sizes, size);
      chain := header;
      Charge(size, Sum(sizes));
      blocks, sizes := [header] + blocks, [size] + sizes;
    }

    /** The guard accepts a live block exactly if the size asked for does not read, in 32 bits, as the mark of
        a freed one. */
    lemma LiveBlockPasses(header: Header, k: nat)
      requires Valid() && k < |blocks| && blocks[k] == header
      ensures |sizes| == |blocks| && (Intact(header) <==> sizes[k] % 0x1_0000_0000 != 0xFFFF_FFFF)
    {
    }

    /** The check every block must pass: its magic numbers, and a size that does not say it was freed. */
    method MallocCheck(header: Header) returns (ok: bool)
      ensures ok <==> Intact(header)
    {
      ok := !(header.magic1 != MAGIC1 || header.magic2 != MAGIC2 || header.magic3 != MAGIC3 || header.size == FREED);
    }

    /** Gives a live block back. Fails, with nothing changed, exactly for a block whose size cannot be told
        from the mark of a freed one. */
    method Free(ptr: Header?, ghost k: nat) returns (ok: bool)
      requires Valid() && (ptr != null ==> k < |blocks| && blocks[k] == ptr)
      modifies this, blocks
      ensures Valid()
      ensures ptr == null ==> ok && blocks == old(blocks) && sizes == old(sizes)
      ensures ptr != null ==> (ok <==> old(sizes)[k] % 0x1_0000_0000 != 0xFFFF_FFFF)
      ensures ptr != null && ok ==>
                blocks == old(blocks)[..k] + old(blocks)[k + 1..] && sizes == old(sizes)[..k] + old(sizes)[k + 1..]
      ensures ptr != null && ok ==> ptr !in blocks && !Intact(ptr)
      ensures !ok ==> blocks == old(blocks) && sizes == old(sizes)
      ensures peak == old(peak)
    {
      if ptr == null {
        return true;
      }
      LiveBlockPasses(ptr, k);
      ok := MallocCheck(ptr);
      if !ok {
        return;
      }
      Release(ptr, k);
    }

    method Release(header: Header, ghost k: nat)
      requires Valid() && k < |blocks| == |sizes| && blocks[k] == header && header.size == Low32(sizes[k])
      modifies this, blocks
      ensures Valid() && peak == old(peak) && header !in blocks && header.size == FREED
      ensures blocks == old(blocks)[..k] + old(blocks)[k + 1..] && sizes == old(sizes)[..k] + old(sizes)[k + 1..]
    {
      hide Low32, Sum, Linked, Stamped;
      LowAdd(Sum(sizes), sizes[k]);
      SumWithout(sizes, k);
      curSize := Low32(curSize - header.size);
      chain := Unlink(header, chain, blocks, sizes, k);
      blocks, sizes := blocks[..k] + blocks[k + 1..], sizes[..k] + sizes[k + 1..];
    }

    /** Changes the size of a live block, which may move it: then `moved` is the header's new place, a
        copy of the old one. The block keeps its position on the chain. */
    method Realloc(ptr: Header?, size: nat, moves: bool, ghost k: nat) returns (ok: bool, newPtr: Header?)
      requires Valid() && (ptr != null ==> k < |blocks| && blocks[k] == ptr)
      modifies this, blocks
      ensures Valid()
      ensures ptr == null ==> ok && blocks == (if size == 0 then [] else [newPtr]) + old(blocks)
                              && sizes == (if size == 0 then [] else [size]) + old(sizes)
      ensures ptr != null ==> (ok <==> old(sizes)[k] % 0x1_0000_0000 != 0xFFFF_FFFF)
      ensures ptr != null && ok && size == 0 ==>
                newPtr == null && blocks == old(blocks)[..k] + old(blocks)[k + 1..]
                && sizes == old(sizes)[..k] + old(sizes)[k + 1..]
      ensures ptr != null && ok && size != 0 ==>
                newPtr != null && blocks == old(blocks)[k := newPtr] && sizes == old(sizes)[k := size]
                && (if moves then fresh(newPtr) else newPtr == ptr)
      ensures !ok ==> blocks == old(blocks) && sizes == old(sizes)
    {
      ok := true;
      if ptr == null {
        newPtr := Malloc(size);
        return;
      }
      if size == 0 {
        ok := Free(ptr, k);
        return ok, null;
      }
      ok := MallocCheck(ptr);
      if !ok {
        return ok, ptr;
      }
      newPtr := Resize(ptr, size, moves, k);
    }

    method Resize(ptr: Header, size: nat, moves: bool, ghost k: nat) returns (header: Header)
      requires Valid() && k < |blocks| == |sizes| && blocks[k] == ptr && ptr.size == Low32(sizes[k])
      modifies this, blocks
      ensures Valid() && blocks == old(blocks)[k := header] && sizes == old(sizes)[k := size]
      ensures if moves then fresh(header) else header == ptr
    {
      hide Low32, Sum, Linked, Stamped;
      ghost var total := Sum(sizes);
      LowAdd(total, sizes[k]);
      SumReplaced(sizes, k, size);
      SumWithout(sizes, k);
      curSize := Low32(curSize - ptr.size);
      header, chain := ReplaceHeader(ptr, chain, size, moves, blocks, sizes, k);
      Charge(size, total - sizes[k]);
      blocks, sizes := blocks[k := header], sizes[k := size];
    }
  }

  /** The header after the underlying reallocation: in place, or copied to a new one. */
  method MoveHeader(ptr: Header, size: nat, moves: bool) returns (header: Header)
    requires ptr.magic1 == MAGIC1 && ptr.magic2 == MAGIC2
    modifies ptr`size, ptr`magic3
    ensures if moves then fresh(header) && unchanged(ptr) else header == ptr
    ensures header.magic1 == MAGIC1 && header.magic2 == MAGIC2 && header.magic3 == MAGIC3 && header.size == Low32(size)
    ensures header.prev == ptr.prev && header.next == ptr.next
  {
    header := ptr;
    if moves {
      header := new Header(0);
      header.magic1, header.magic2 := ptr.magic1, ptr.magic2;
      header.prev, header.next := ptr.prev, ptr.next;
    }
    header.size := Low32(size);
    header.magic3 := MAGIC3;
  }

  /** One block of 2^32 bytes: the ledger reads 0, and so does the high-water mark. */
  method HugeBlock() returns (a: DebugAllocator, ptr: Header?)
    ensures a.Valid() && ptr != null && a.blocks == [ptr] && a.sizes == [TWO_32]
    ensures a.curSize == 0 && a.curSize != Sum(a.sizes) && a.maxSize != a.peak
  {
    a := new DebugAllocator();
    ptr := a.Malloc(TWO_32);
    assert Sum([TWO_32]) == TWO_32;
    a.LedgerIsExact();
  }
}
