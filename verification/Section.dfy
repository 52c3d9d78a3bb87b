/** A section under construction: a byte buffer that doubles when it is full, and a write cursor. */
module Sections {
  import opened Bytes

  /** The first of size, 2 * size, 4 * size and so on that is large enough. */
  function Doubled(size: nat, newSize: nat): (r: nat)
    requires size > 0
    ensures r >= newSize && r >= size && (r == size || r < 2 * newSize)
    decreases newSize - size
  {
    if size < newSize then Doubled(2 * size, newSize) else size
  }

  function Max(a: nat, b: nat): (m: nat) {
    if a < b then b else a
  }

  class Section {
    /** Zero-initialised data, which has a size but no contents. */
    const noBits: bool
    var data: array<Byte>
    var dataOffset: nat
    var addrAlign: nat

    /** The section has contents. */
    ghost predicate Valid()
      reads this
    {
      !noBits && dataOffset <= data.Length
    }

    ghost function Contents(): (s: seq<Byte>)
      requires Valid()
      reads this, data
    {
      data[..dataOffset]
    }

    constructor (noBits: bool, addrAlign: nat)
      ensures this.noBits == noBits && dataOffset == 0 && this.addrAlign == addrAlign && fresh(data) && data.Length == 0
      ensures !noBits ==> Valid() && Contents() == []
    {
      this.noBits, this.addrAlign := noBits, addrAlign;
      data := new Byte[0];
      dataOffset := 0;
    }

    /** Doubles the buffer until it holds newSize bytes; what it held stays, the rest is zero. */
    method Realloc(newSize: nat)
      requires Valid()
      modifies this`data
      ensures Valid() && fresh(data) && data.Length >= newSize
      ensures data.Length == Doubled(if old(data.Length) == 0 then 1 else old(data.Length), newSize) >= old(data.Length)
      ensures data[..old(data.Length)] == old(data[..])
      ensures forall k :: old(data.Length) <= k < data.Length ==> data[k] == 0
    {
      var size := data.Length;
      if size == 0 {
        size := 1;
      }
      while size < newSize
        invariant size >= data.Length && size > 0
        invariant Doubled(size, newSize) == Doubled(if data.Length == 0 then 1 else data.Length, newSize)
        decreases newSize - size
      {
        size := size * 2;
      }
      var was := data[..];
      data := new Byte[size](k requires 0 <= k => if k < |was| then was[k] else 0);
    }

    /** Reserves size bytes at the next multiple of a power-of-two alignment, and returns where. */
    method Add(size: nat, align: nat) returns (offset: nat)
      requires align > 0 && (noBits || Valid())
      modifies this`data, this`dataOffset, this`addrAlign
      ensures offset % align == 0 && old(dataOffset) <= offset < old(dataOffset) + align
      ensures dataOffset == offset + size && addrAlign == Max(old(addrAlign), align)
      ensures data == old(data) <==> noBits || dataOffset <= old(data.Length)
      ensures !noBits ==> Valid() && (data == old(data) || fresh(data)) && Contents()[..old(dataOffset)] == old(Contents())
    {
      offset := (dataOffset + align - 1) / align * align;
      AlignedUp(dataOffset, align);
      var end := offset + size;
      if !noBits && end > data.Length {
        ghost var was := data[..];
        Realloc(end);
        assert data[..dataOffset] == was[..dataOffset];
      }
      dataOffset := end;
      if align > addrAlign {
        addrAlign := align;
      }
    }

    /** Appends bytes at the cursor. */
    method Append(bytes: seq<Byte>)
      requires Valid()
      modifies this`data, this`dataOffset, this`addrAlign, data
      ensures Valid() && (data == old(data) || fresh(data))
      ensures Contents() == old(Contents()) + bytes && dataOffset == old(dataOffset) + |bytes|
      ensures addrAlign == Max(old(addrAlign), 1)
    {
      ghost var was := Contents();
      var offset := Add(|bytes|, 1);
      forall k | 0 <= k < |bytes| {
        data[offset + k] := bytes[k];
      }
      assert data[..offset] == was;
      assert data[offset..dataOffset] == bytes;
      assert Contents() == data[..offset] + data[offset..dataOffset];
    }
  }

  lemma AlignedUp(x: nat, a: nat)
    requires a > 0
    ensures var r := (x + a - 1) / a * a; r % a == 0 && x <= r < x + a
  {
    var q, m := (x + a - 1) / a, (x + a - 1) % a;
    assert x + a - 1 == a * q + m;
    assert q * a == a * q;
    DivUnique(q * a, a, q, 0);
  }
}
