/**
 * A native-size buffer of addresses that remembers, per address, the buffer object it
 * was taken from: the address-to-object table `dataMap` keeps each referenced buffer
 * reachable and lets an address read from a slot be resolved back to its object.
 */
module Pointer {
  import opened Errors
  import opened JavaInts
  import opened NativeSize

  /**
   * A `java.nio.Buffer` that can be referenced. Its identity is object identity;
   * `nativeAddress` is the start of a direct buffer's native memory and means nothing for
   * a heap buffer.
   */
  class NioBuffer {
    const direct: bool
    const nativeAddress: int64

    constructor (direct: bool, nativeAddress: int64)
      ensures this.direct == direct && this.nativeAddress == nativeAddress
    {
      this.direct := direct;
      this.nativeAddress := nativeAddress;
    }
  }

  /** `addr & mask`, the mask being `0x00000000FFFFFFFFL` on a 32-bit platform and all ones otherwise. */
  function MaskAddress(is32Bit: bool, addr: int64): (r: int64)
    ensures is32Bit ==> 0 <= r as int < TWO_32 && (r as int - addr as int) % TWO_32 == 0
    ensures !is32Bit ==> r == addr
  {
    if is32Bit then (addr as int % TWO_32) as int64 else addr
  }

  /**
   * `getDirectBufferAddressImpl(b)`: JNI's `GetDirectBufferAddress`, which gives a direct
   * buffer's native address and NULL (0) for any other buffer.
   */
  function DirectAddress(b: NioBuffer): (r: int64)
    ensures b.direct ==> r == b.nativeAddress
    ensures !b.direct ==> r == 0
  {
    if b.direct then b.nativeAddress else 0
  }

  /**
   * The slot that `referenceBuffer` writes reads back as the key it records in `dataMap`
   * exactly on a 64-bit platform, or on a 32-bit one for an address below 2^31: the key is
   * the zero-extended address, the slot read sign-extends it.
   */
  lemma ReadBackMatchesKey(is32Bit: bool, addr: int64)
    ensures Stored(is32Bit, MaskAddress(is32Bit, addr)) == MaskAddress(is32Bit, addr)
            <==> !is32Bit || MaskAddress(is32Bit, addr) as int <= MAX_INT
  {
    StoredRoundTrip(is32Bit, MaskAddress(is32Bit, addr));
  }

  /** On a 32-bit platform the address 0x80000000 is recorded under one key and read back as another. */
  lemma HighAddressReadsBackNegative()
    ensures MaskAddress(true, 0x8000_0000) == 0x8000_0000
    ensures Stored(true, MaskAddress(true, 0x8000_0000)) == -0x8000_0000
  {
  }

  /** Masking what a slot reads recovers the recorded key for every address. */
  lemma MaskedReadBackMatchesKey(is32Bit: bool, addr: int64)
    ensures MaskAddress(is32Bit, Stored(is32Bit, MaskAddress(is32Bit, addr))) == MaskAddress(is32Bit, addr)
  {
    if is32Bit {
      var m := MaskAddress(is32Bit, addr) as int;
      var s := Stored(is32Bit, MaskAddress(is32Bit, addr)) as int;
      var k := MaskAddress(is32Bit, s as int64) as int;
      assert (s - m) % TWO_32 == 0;
      assert (k - s) % TWO_32 == 0;
      assert (k - m) % TWO_32 == 0 by {
        assert k - m == (k - s) + (s - m);
      }
      assert -TWO_32 < k - m < TWO_32;
    }
  }

  /** `dataMap.get(key)`: the buffer recorded under `key`, or null when none is. */
  function Lookup(dataMap: map<int64, NioBuffer>, key: int64): (r: NioBuffer?)
    ensures r != null <==> key in dataMap
    ensures r != null ==> r == dataMap[key]
  {
    if key in dataMap then dataMap[key] else null
  }

  class PointerBuffer {
    /** The native-size buffer this pointer buffer extends. */
    const buf: NativeSizeBuffer
    /** `dataMap`: address to referenced buffer. */
    var dataMap: map<int64, NioBuffer>

    /**
     * Every entry is a direct buffer recorded under its own nonzero masked address, and
     * only a direct pointer buffer has entries.
     */
    ghost predicate Valid()
      reads this, buf, buf.slots
    {
      buf.Valid() &&
      forall a :: a in dataMap ==>
        a != 0 && (buf.is32Bit ==> 0 <= a as int < TWO_32) && a == KeyOf(dataMap[a])
        && dataMap[a].direct && buf.direct
    }

    /** `allocate(size)`. */
    constructor Allocate(is32Bit: bool, size: nat)
      requires IsInt(ElementSize(is32Bit) * size)
      ensures Valid() && fresh(buf) && fresh(buf.slots)
      ensures buf.is32Bit == is32Bit && !buf.direct
      ensures buf.cap == size && buf.lim == size && buf.pos == 0
      ensures forall i :: 0 <= i < buf.cap ==> buf.slots[i] == 0
      ensures dataMap == map[]
    {
      buf := new NativeSizeBuffer.Allocate(is32Bit, size);
      dataMap := map[];
    }

    /** `allocateDirect(size)`. */
    constructor AllocateDirect(is32Bit: bool, size: nat)
      requires IsInt(ElementSize(is32Bit) * size)
      ensures Valid() && fresh(buf) && fresh(buf.slots)
      ensures buf.is32Bit == is32Bit && buf.direct
      ensures buf.cap == size && buf.lim == size && buf.pos == 0
      ensures forall i :: 0 <= i < buf.cap ==> buf.slots[i] == 0
      ensures dataMap == map[]
    {
      buf := new NativeSizeBuffer.AllocateDirect(is32Bit, size);
      dataMap := map[];
    }

    /** `wrap(src)`: a pointer buffer over an existing ByteBuffer, with an empty table. */
    constructor Wrap(is32Bit: bool, direct: bool, region: array<int64>,
                     byteCapacity: nat, byteLimit: nat, bytePosition: nat)
      requires bytePosition <= byteLimit <= byteCapacity
      requires region.Length == byteCapacity / ElementSize(is32Bit)
      requires forall i :: 0 <= i < region.Length ==> Fits(is32Bit, region[i])
      ensures Valid() && fresh(buf) && buf.slots == region
      ensures buf.is32Bit == is32Bit && buf.direct == direct
      ensures buf.cap == byteCapacity / ElementSize(is32Bit)
      ensures buf.lim == byteLimit / ElementSize(is32Bit)
      ensures buf.pos == bytePosition / ElementSize(is32Bit)
      ensures dataMap == map[]
    {
      buf := new NativeSizeBuffer.Wrap(is32Bit, direct, region, byteCapacity, byteLimit, bytePosition);
      dataMap := map[];
    }

    /** The key under which `b` is recorded: its native address masked to the pointer width. */
    function KeyOf(b: NioBuffer): (r: int64)
      ensures buf.is32Bit ==> 0 <= r as int < TWO_32
      ensures r != 0 ==> b.direct
    {
      MaskAddress(buf.is32Bit, DirectAddress(b))
    }

    /** The checks `referenceBuffer` makes before it writes: non-null, same mode, resolvable. */
    predicate Referenceable(b: NioBuffer?) {
      b != null && b.direct == buf.direct && KeyOf(b) != 0
    }

    /**
     * `put(src)`: rejects, changing nothing, when fewer elements remain here than in `src`;
     * otherwise copies `src`'s remaining values and advances both cursors. Per copied
     * address it looks the address up in this buffer's own table and puts the found entry
     * back, or removes the absent key, so the table ends exactly as it started.
     */
    method PutBuffer(src: NativeSizeBuffer) returns (r: Outcome)
      requires Valid() && src.Valid()
      requires src != buf && src.slots != buf.slots && src.is32Bit == buf.is32Bit
      modifies buf, buf.slots, src, this
      ensures Valid() && src.Valid()
      ensures dataMap == old(dataMap)
      ensures r.Pass? <==> old(src.Remaining()) <= old(buf.Remaining())
      ensures r.Fail? ==> r.error == IndexOutOfBounds && buf.pos == old(buf.pos) && src.pos == old(src.pos)
                          && buf.slots[..] == old(buf.slots[..])
      ensures r.Pass? ==> buf.pos == old(buf.pos) + Count(old(src.Remaining()))
                          && src.pos == old(src.pos) + Count(old(src.Remaining()))
      ensures r.Pass? ==> buf.slots[..] == Overwrite(old(buf.slots[..]), old(buf.pos),
                                                    if old(src.Remaining()) > 0 then src.slots[old(src.pos)..src.lim] else [])
    {
      if buf.Remaining() < src.Remaining() {
        return Fail(IndexOutOfBounds);
      }
      ghost var p0, q0 := buf.pos, src.pos;
      ghost var t := if q0 < src.lim then Narrowed(buf.is32Bit, src.slots[q0..src.lim]) else [];
      while src.HasRemaining()
        invariant Valid() && src.Valid()
        invariant dataMap == old(dataMap)
        invariant p0 <= buf.pos && buf.pos - p0 == src.pos - q0
        invariant buf.pos > p0 ==> src.pos <= src.lim
        invariant src.Remaining() <= buf.Remaining()
        invariant forall i :: 0 <= i < buf.slots.Length ==>
                    buf.slots[i] == if p0 <= i < buf.pos then t[i - p0] else old(buf.slots[i])
        decreases src.lim - src.pos
      {
        var addr := src.Get();
        var w := buf.Put(addr.value);
        RestoreEntry(addr.value);
      }
      OverwriteFromPointwise(buf.slots[..], old(buf.slots[..]), p0, t);
      if q0 < src.lim {
        NarrowedFitting(buf.is32Bit, src.slots[q0..src.lim]);
      }
      return Pass;
    }

    /**
     * The table step of `put(src)`'s loop: the entry found under `key` is put back, and an
     * absent key is removed, so the table is as it was.
     */
    method RestoreEntry(key: int64)
      modifies this
      ensures dataMap == old(dataMap)
    {
      var found := Lookup(dataMap, key);
      if found != null {
        dataMap := dataMap[key := found];
      } else {
        dataMap := dataMap - {key};
      }
    }

    /**
     * `referenceBufferImpl`: rejects a null buffer or one whose mode differs from this
     * buffer's (IllegalArgument), then an address that masks to 0 (Runtime), before any
     * write. Then writes the masked address at `index` (or, when `relative`, at the cursor,
     * which advances) and, if that write succeeded, records the buffer under the address.
     */
    method ReferenceBufferImpl(index: int, b: NioBuffer?, relative: bool) returns (r: Outcome)
      requires Valid()
      modifies buf, buf.slots, this
      ensures Valid()
      ensures b == null ==> r == Fail(IllegalArgument)
      ensures b != null && b.direct != buf.direct ==> r == Fail(IllegalArgument)
      ensures b != null && b.direct == buf.direct && KeyOf(b) == 0 ==> r == Fail(Runtime)
      ensures var at := if relative then old(buf.pos) else index;
              r.Pass? <==> Referenceable(b) && 0 <= at < buf.lim
      ensures buf.pos == if relative && Referenceable(b) then old(buf.pos) + 1 else old(buf.pos)
      ensures r.Fail? ==> buf.slots[..] == old(buf.slots[..]) && dataMap == old(dataMap)
      ensures r.Fail? && Referenceable(b) ==> r.error == IndexOutOfBounds
      ensures r.Pass? ==> var at := if relative then old(buf.pos) else index;
                          buf.slots[..] == old(buf.slots[..])[at := Stored(buf.is32Bit, KeyOf(b))]
                          && dataMap == old(dataMap)[KeyOf(b) := b]
    {
      if b == null {
        return Fail(IllegalArgument);
      }
      if b.direct != buf.direct {
        return Fail(IllegalArgument);
      }
      var addr := MaskAddress(buf.is32Bit, DirectAddress(b));
      if addr == 0 {
        return Fail(Runtime);
      }
      if relative {
        r := buf.Put(addr);
      } else {
        r := buf.PutAt(index, addr);
      }
      if r.Fail? {
        return r;
      }
      dataMap := dataMap[addr := b];
    }

    /** `referenceBuffer(index, buffer)`: ReferenceBufferImpl at `index`; the cursor stays. */
    method ReferenceBufferAt(index: int, b: NioBuffer?) returns (r: Outcome)
      requires Valid()
      modifies buf, buf.slots, this
      ensures Valid()
      ensures b == null ==> r == Fail(IllegalArgument)
      ensures b != null && b.direct != buf.direct ==> r == Fail(IllegalArgument)
      ensures b != null && b.direct == buf.direct && KeyOf(b) == 0 ==> r == Fail(Runtime)
      ensures r.Pass? <==> Referenceable(b) && 0 <= index < buf.lim
      ensures buf.pos == old(buf.pos)
      ensures r.Fail? ==> buf.slots[..] == old(buf.slots[..]) && dataMap == old(dataMap)
      ensures r.Fail? && Referenceable(b) ==> r.error == IndexOutOfBounds
      ensures r.Pass? ==> buf.slots[..] == old(buf.slots[..])[index := Stored(buf.is32Bit, KeyOf(b))]
                          && dataMap == old(dataMap)[KeyOf(b) := b]
    {
      r := ReferenceBufferImpl(index, b, false);
    }

    /**
     * `referenceBuffer(buffer)`: ReferenceBufferImpl at the cursor (not at the end of the
     * buffer); once the argument checks pass the cursor advances by one, even if the write
     * is then rejected.
     */
    method ReferenceBuffer(b: NioBuffer?) returns (r: Outcome)
      requires Valid()
      modifies buf, buf.slots, this
      ensures Valid()
      ensures b == null ==> r == Fail(IllegalArgument)
      ensures b != null && b.direct != buf.direct ==> r == Fail(IllegalArgument)
      ensures b != null && b.direct == buf.direct && KeyOf(b) == 0 ==> r == Fail(Runtime)
      ensures r.Pass? <==> Referenceable(b) && old(buf.pos) < buf.lim
      ensures buf.pos == if Referenceable(b) then old(buf.pos) + 1 else old(buf.pos)
      ensures r.Fail? ==> buf.slots[..] == old(buf.slots[..]) && dataMap == old(dataMap)
      ensures r.Fail? && Referenceable(b) ==> r.error == IndexOutOfBounds
      ensures r.Pass? ==> buf.slots[..] == old(buf.slots[..])[old(buf.pos) := Stored(buf.is32Bit, KeyOf(b))]
                          && dataMap == old(dataMap)[KeyOf(b) := b]
    {
      r := ReferenceBufferImpl(0, b, true);
    }

    /**
     * `getReferencedBuffer(index)`: reads slot `index` (rejected as `get(index)` rejects it)
     * and returns the buffer recorded under that value, or null when none is. Nothing changes.
     */
    method GetReferencedBufferAt(index: int) returns (r: Result<NioBuffer?>)
      requires Valid()
      ensures r.Ok? <==> 0 <= index < buf.lim
      ensures r.Err? ==> r.error == IndexOutOfBounds
      ensures r.Ok? ==> (r.value != null <==> buf.slots[index] in dataMap)
      ensures r.Ok? && r.value != null ==> r.value == dataMap[buf.slots[index]]
    {
      var addr := buf.GetAt(index);
      if addr.Err? {
        return Err(addr.error);
      }
      return Ok(Lookup(dataMap, addr.value));
    }

    /**
     * `getReferencedBuffer()`: as GetReferencedBufferAt at the cursor, which advances by one
     * even when the read is rejected. The table does not change.
     */
    method GetReferencedBuffer() returns (r: Result<NioBuffer?>)
      requires Valid()
      modifies buf
      ensures Valid()
      ensures buf.pos == old(buf.pos) + 1
      ensures r.Ok? <==> old(buf.pos) < buf.lim
      ensures r.Err? ==> r.error == IndexOutOfBounds
      ensures r.Ok? ==> r.value == Lookup(dataMap, buf.slots[old(buf.pos)])
    {
      var addr := buf.Get();
      if addr.Err? {
        return Err(addr.error);
      }
      return Ok(Lookup(dataMap, addr.value));
    }

    /**
     * GetReferencedBufferAt with the value read masked to the pointer width before the
     * lookup, so that the key recorded by a reference operation is found again on a 32-bit
     * platform for addresses of 2^31 and above.
     */
    method GetReferencedBufferAtMasked(index: int) returns (r: Result<NioBuffer?>)
      requires Valid()
      ensures r.Ok? <==> 0 <= index < buf.lim
      ensures r.Err? ==> r.error == IndexOutOfBounds
      ensures r.Ok? ==> r.value == Lookup(dataMap, MaskAddress(buf.is32Bit, buf.slots[index]))
    {
      var addr := buf.GetAt(index);
      if addr.Err? {
        return Err(addr.error);
      }
      return Ok(Lookup(dataMap, MaskAddress(buf.is32Bit, addr.value)));
    }

    /** A heap pointer buffer can reference no buffer: the address of a heap buffer is 0. */
    lemma HeapReferencesNothing(b: NioBuffer?)
      requires !buf.direct
      ensures !Referenceable(b)
    {
    }

    // The overrides below only narrow the return type in Java; each delegates to the
    // native-size buffer and leaves the table alone.

    /** `put(index, value)`. */
    method PutAt(index: int, value: int64) returns (r: Outcome)
      requires Valid()
      modifies buf.slots
      ensures Valid()
      ensures r.Pass? <==> 0 <= index < buf.lim
      ensures r.Fail? ==> r.error == IndexOutOfBounds && buf.slots[..] == old(buf.slots[..])
      ensures r.Pass? ==> buf.slots[..] == old(buf.slots[..])[index := Stored(buf.is32Bit, value)]
      ensures buf.pos == old(buf.pos) && dataMap == old(dataMap)
    {
      r := buf.PutAt(index, value);
    }

    /** `put(value)`. */
    method Put(value: int64) returns (r: Outcome)
      requires Valid()
      modifies buf, buf.slots
      ensures Valid()
      ensures buf.pos == old(buf.pos) + 1
      ensures r.Pass? <==> old(buf.pos) < buf.lim
      ensures r.Fail? ==> r.error == IndexOutOfBounds && buf.slots[..] == old(buf.slots[..])
      ensures r.Pass? ==> buf.slots[..] == old(buf.slots[..])[old(buf.pos) := Stored(buf.is32Bit, value)]
      ensures dataMap == old(dataMap)
    {
      r := buf.Put(value);
    }

    /** `put(src, offset, length)`. */
    method PutArray(src: array<int64>, offset: int, length: int) returns (r: Outcome)
      requires Valid()
      requires src != buf.slots
      requires IsInt(offset) && IsInt(length) && IsInt(offset + length)
      modifies buf, buf.slots
      ensures Valid() && dataMap == old(dataMap)
      ensures r.Pass? <==> offset + length <= src.Length && length <= old(buf.Remaining()) && (length <= 0 || 0 <= offset)
      ensures r.Fail? ==> r.error == IndexOutOfBounds && buf.slots[..] == old(buf.slots[..])
      ensures r.Fail? ==> buf.pos == if offset + length <= src.Length && length <= old(buf.Remaining())
                                     then old(buf.pos) + 1 else old(buf.pos)
      ensures r.Pass? ==> buf.pos == old(buf.pos) + Count(length)
      ensures r.Pass? ==> buf.slots[..] == Overwrite(old(buf.slots[..]), old(buf.pos),
                                                    if length > 0 then Narrowed(buf.is32Bit, src[offset..offset + length]) else [])
    {
      r := buf.PutArray(src, offset, length);
    }

    /** `get(dest, offset, length)`. */
    method GetArray(dest: array<int64>, offset: int, length: int) returns (r: Outcome)
      requires Valid()
      requires dest != buf.slots
      requires IsInt(offset) && IsInt(length) && IsInt(offset + length)
      modifies buf, dest
      ensures Valid() && dataMap == old(dataMap)
      ensures r.Pass? <==> offset + length <= dest.Length && length <= old(buf.Remaining()) && (length <= 0 || 0 <= offset)
      ensures r.Fail? ==> r.error == IndexOutOfBounds && dest[..] == old(dest[..])
      ensures r.Fail? ==> buf.pos == if offset + length <= dest.Length && length <= old(buf.Remaining())
                                     then old(buf.pos) + 1 else old(buf.pos)
      ensures r.Pass? ==> buf.pos == old(buf.pos) + Count(length)
      ensures r.Pass? ==> dest[..] == Overwrite(old(dest[..]), offset,
                                               if length > 0 then buf.slots[old(buf.pos)..old(buf.pos) + length] else [])
    {
      r := buf.GetArray(dest, offset, length);
    }

    /** `position(newPos)`. */
    method SetPosition(newPos: int) returns (r: Outcome)
      requires Valid()
      modifies buf
      ensures Valid() && dataMap == old(dataMap)
      ensures newPos < 0 || newPos >= buf.cap ==> r == Fail(IndexOutOfBounds)
      ensures 0 <= newPos < buf.cap && newPos > buf.lim ==> r == Fail(IllegalArgument)
      ensures r.Pass? <==> 0 <= newPos <= buf.lim && newPos < buf.cap
      ensures buf.pos == if r.Pass? then newPos else old(buf.pos)
    {
      r := buf.SetPosition(newPos);
    }

    /** `rewind()`. */
    method Rewind()
      requires Valid()
      modifies buf
      ensures Valid() && dataMap == old(dataMap)
      ensures buf.pos == 0
    {
      buf.Rewind();
    }

    /** `allocate(array)`: `allocate(array.length).put(array, 0, array.length).rewind()`. */
    static method AllocateFrom(is32Bit: bool, values: array<int64>) returns (p: PointerBuffer)
      requires IsInt(ElementSize(is32Bit) * values.Length)
      ensures p.Valid() && fresh(p) && fresh(p.buf) && fresh(p.buf.slots)
      ensures p.buf.is32Bit == is32Bit && !p.buf.direct
      ensures p.buf.cap == values.Length && p.buf.lim == p.buf.cap && p.buf.pos == 0
      ensures p.buf.slots[..] == Narrowed(is32Bit, values[..])
      ensures p.dataMap == map[]
    {
      p := new PointerBuffer.Allocate(is32Bit, values.Length);
      var r := p.PutArray(values, 0, values.Length);
      p.Rewind();
    }

    /** `allocateDirect(array)`: as AllocateFrom, over a direct buffer. */
    static method AllocateDirectFrom(is32Bit: bool, values: array<int64>) returns (p: PointerBuffer)
      requires IsInt(ElementSize(is32Bit) * values.Length)
      ensures p.Valid() && fresh(p) && fresh(p.buf) && fresh(p.buf.slots)
      ensures p.buf.is32Bit == is32Bit && p.buf.direct
      ensures p.buf.cap == values.Length && p.buf.lim == p.buf.cap && p.buf.pos == 0
      ensures p.buf.slots[..] == Narrowed(is32Bit, values[..])
      ensures p.dataMap == map[]
    {
      p := new PointerBuffer.AllocateDirect(is32Bit, values.Length);
      var r := p.PutArray(values, 0, values.Length);
      p.Rewind();
    }
  }
}
