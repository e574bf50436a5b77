/**
 * A fixed-capacity buffer of platform-width integers with an element cursor.
 *
 * The class NativeSizeBuffer carries both the cursor bookkeeping of the abstract base
 * class (capacity, limit, position, rewind) and the slot storage of its direct subclass:
 * the base class is abstract and this is the only subclass that derives from it directly.
 */
module NativeSize {
  import opened Errors
  import opened JavaInts

  /** Bytes per slot: the size of an `int` on a 32-bit platform, of a `long` otherwise. */
  function ElementSize(is32Bit: bool): (r: int)
    ensures r == 4 || r == 8
    ensures r == 4 <==> is32Bit
  {
    if is32Bit then 4 else 8
  }

  /** The values a slot can hold: what `getInt` (32-bit) or `getLong` (64-bit) can return. */
  predicate Fits(is32Bit: bool, v: int64) {
    !is32Bit || IsInt(v as int)
  }

  /**
   * The value a slot holds after `putImpl` writes `v` into it: on a 32-bit platform the
   * write narrows with `(int) v` and the read sign-extends with `getInt`.
   */
  function Stored(is32Bit: bool, v: int64): (r: int64)
    ensures Fits(is32Bit, r)
    ensures is32Bit ==> (r as int - v as int) % TWO_32 == 0
    ensures !is32Bit ==> r == v
  {
    if is32Bit then ToInt(v) else v
  }

  /** A write reads back unchanged exactly when the value fits the slot width. */
  lemma StoredRoundTrip(is32Bit: bool, v: int64)
    ensures Stored(is32Bit, v) == v <==> Fits(is32Bit, v)
  {
    if is32Bit {
      ToIntIdentity(v);
    }
  }

  /** The values `putImpl` stores for the elements of `t`, in order. */
  function Narrowed(is32Bit: bool, t: seq<int64>): (r: seq<int64>)
    ensures |r| == |t|
  {
    seq(|t|, i requires 0 <= i < |t| => Stored(is32Bit, t[i]))
  }

  /** Copying values read from slots of the same width stores them unchanged. */
  lemma NarrowedFitting(is32Bit: bool, t: seq<int64>)
    requires forall i :: 0 <= i < |t| ==> Fits(is32Bit, t[i])
    ensures Narrowed(is32Bit, t) == t
  {
    forall i | 0 <= i < |t|
      ensures Narrowed(is32Bit, t)[i] == t[i]
    {
      StoredRoundTrip(is32Bit, t[i]);
    }
  }

  /**
   * `s` after writing the elements of `t` one by one at `at`, `at + 1`, ... (the bulk
   * loops' effect on the slots or on the caller's array).
   */
  function Overwrite(s: seq<int64>, at: int, t: seq<int64>): (r: seq<int64>)
    requires t == [] || (0 <= at && at + |t| <= |s|)
    ensures |r| == |s|
    ensures forall i :: 0 <= i < |s| ==> r[i] == if at <= i < at + |t| then t[i - at] else s[i]
    decreases |t|
  {
    if t == [] then s else Overwrite(s[at := t[0]], at + 1, t[1..])
  }

  /** A sequence that agrees with `s0` outside the window `[at, at + |t|)` and with `t` inside it is Overwrite(s0, at, t). */
  lemma OverwriteFromPointwise(s: seq<int64>, s0: seq<int64>, at: int, t: seq<int64>)
    requires t == [] || (0 <= at && at + |t| <= |s0|)
    requires |s| == |s0|
    requires forall i :: 0 <= i < |s| ==> s[i] == if at <= i < at + |t| then t[i - at] else s0[i]
    ensures s == Overwrite(s0, at, t)
  {
  }

  /** The larger of `n` and 0: how many elements a bulk loop with count `n` moves. */
  function Count(n: int): (r: nat)
    ensures n > 0 ==> r == n
    ensures n <= 0 ==> r == 0
  {
    if n > 0 then n else 0
  }

  class NativeSizeBuffer {
    /** `Platform.is32Bit()`, fixed for the process. */
    const is32Bit: bool
    /** Whether the backing ByteBuffer is direct (native memory). */
    const direct: bool
    /** The backing region seen element by element: the value `getImpl` reads at each index. */
    const slots: array<int64>
    /** `capacity()`: the region's byte length divided by the element size. */
    const cap: int
    /** `limit()` in elements, fixed at construction. */
    const lim: int
    /** The element cursor, `position()`. */
    var pos: nat

    ghost predicate Valid()
      reads this, slots
    {
      slots.Length == cap && 0 <= lim <= cap &&
      forall i :: 0 <= i < slots.Length ==> Fits(is32Bit, slots[i])
    }

    /** `allocate(size)`: a heap buffer of `size` zeroed elements. */
    constructor Allocate(is32Bit: bool, size: nat)
      requires IsInt(ElementSize(is32Bit) * size)
      ensures Valid() && fresh(slots)
      ensures this.is32Bit == is32Bit && !direct
      ensures cap == size && lim == size && pos == 0
      ensures forall i :: 0 <= i < cap ==> slots[i] == 0
    {
      var byteCapacity := ElementSize(is32Bit) * size;
      this.is32Bit := is32Bit;
      direct := false;
      slots := new int64[size](_ => 0);
      cap := byteCapacity / ElementSize(is32Bit);
      lim := size;
      pos := 0;
    }

    /** `allocateDirect(size)`: a direct buffer of `size` zeroed elements. */
    constructor AllocateDirect(is32Bit: bool, size: nat)
      requires IsInt(ElementSize(is32Bit) * size)
      ensures Valid() && fresh(slots)
      ensures this.is32Bit == is32Bit && direct
      ensures cap == size && lim == size && pos == 0
      ensures forall i :: 0 <= i < cap ==> slots[i] == 0
    {
      var byteCapacity := ElementSize(is32Bit) * size;
      this.is32Bit := is32Bit;
      direct := true;
      slots := new int64[size](_ => 0);
      cap := byteCapacity / ElementSize(is32Bit);
      lim := size;
      pos := 0;
    }

    /**
     * `wrap(buffer)`: a view of an existing ByteBuffer, without copying. `region` is that
     * buffer's storage read element by element; the trailing bytes that do not make up a
     * whole element are not part of the view.
     */
    constructor Wrap(is32Bit: bool, direct: bool, region: array<int64>,
                     byteCapacity: nat, byteLimit: nat, bytePosition: nat)
      requires bytePosition <= byteLimit <= byteCapacity
      requires region.Length == byteCapacity / ElementSize(is32Bit)
      requires forall i :: 0 <= i < region.Length ==> Fits(is32Bit, region[i])
      ensures Valid() && slots == region
      ensures this.is32Bit == is32Bit && this.direct == direct
      ensures cap == byteCapacity / ElementSize(is32Bit)
      ensures lim == byteLimit / ElementSize(is32Bit)
      ensures pos == bytePosition / ElementSize(is32Bit)
    {
      this.is32Bit := is32Bit;
      this.direct := direct;
      slots := region;
      cap := byteCapacity / ElementSize(is32Bit);
      lim := byteLimit / ElementSize(is32Bit);
      pos := bytePosition / ElementSize(is32Bit);
    }

    /**
     * `remaining()`: the elements between the cursor and the limit. It is negative once a
     * failed relative access has pushed the cursor past the limit.
     */
    function Remaining(): (r: int)
      reads this
      ensures pos + r == lim
      ensures r <= lim
      ensures r < 0 <==> lim < pos
    {
      lim - pos
    }

    /** `hasRemaining()`. */
    function HasRemaining(): (r: bool)
      reads this
      ensures r <==> Remaining() > 0
    {
      pos < lim
    }

    /**
     * `position(newPos)`: an index outside the capacity is rejected (so is the capacity itself),
     * and ByteBuffer's own `position` rejects one beyond the limit. Only the cursor changes.
     */
    method SetPosition(newPos: int) returns (r: Outcome)
      requires Valid()
      modifies this
      ensures Valid()
      ensures newPos < 0 || newPos >= cap ==> r == Fail(IndexOutOfBounds)
      ensures 0 <= newPos < cap && newPos > lim ==> r == Fail(IllegalArgument)
      ensures r.Pass? <==> 0 <= newPos <= lim && newPos < cap
      ensures pos == if r.Pass? then newPos else old(pos)
    {
      if 0 > newPos || newPos >= cap {
        return Fail(IndexOutOfBounds);
      }
      if newPos > lim {
        return Fail(IllegalArgument);
      }
      pos := newPos;
      return Pass;
    }

    /** `rewind()`: the cursor goes back to 0; limit, capacity and slots stay. */
    method Rewind()
      requires Valid()
      modifies this
      ensures Valid()
      ensures pos == 0
    {
      pos := 0;
    }

    /**
     * `putImpl`: no check of its own, but ByteBuffer's absolute `putInt`/`putLong`
     * accepts only indices below its limit, which the caller ensures.
     */
    method PutImpl(index: int, value: int64)
      requires Valid()
      requires 0 <= index < lim
      modifies slots
      ensures Valid()
      ensures slots[..] == old(slots[..])[index := Stored(is32Bit, value)]
    {
      slots[index] := Stored(is32Bit, value);
    }

    /**
     * `put(index, value)`: rejects an index outside the capacity; the ByteBuffer write
     * rejects one at or beyond its limit. On success only slot `index` changes.
     */
    method PutAt(index: int, value: int64) returns (r: Outcome)
      requires Valid()
      modifies slots
      ensures Valid()
      ensures index < 0 || index >= cap ==> r == Fail(IndexOutOfBounds)
      ensures r.Pass? <==> 0 <= index < lim
      ensures r.Fail? ==> r.error == IndexOutOfBounds && slots[..] == old(slots[..])
      ensures r.Pass? ==> slots[..] == old(slots[..])[index := Stored(is32Bit, value)]
      ensures pos == old(pos)
    {
      if 0 > index || index >= cap {
        return Fail(IndexOutOfBounds);
      }
      if index >= lim {
        return Fail(IndexOutOfBounds);
      }
      PutImpl(index, value);
      return Pass;
    }

    /**
     * `put(value)`: `put(position++, value)`. The cursor advances before the bounds check,
     * so it advances by one even when the write is rejected.
     */
    method Put(value: int64) returns (r: Outcome)
      requires Valid()
      modifies this, slots
      ensures Valid()
      ensures pos == old(pos) + 1
      ensures r.Pass? <==> old(pos) < lim
      ensures r.Fail? ==> r.error == IndexOutOfBounds && slots[..] == old(slots[..])
      ensures r.Pass? ==> slots[..] == old(slots[..])[old(pos) := Stored(is32Bit, value)]
    {
      var index := pos;
      pos := pos + 1;
      r := PutAt(index, value);
    }

    /** `getImpl`: reads slot `index`, which the caller keeps below the limit. */
    method GetImpl(index: int) returns (v: int64)
      requires Valid()
      requires 0 <= index < lim
      ensures v == slots[index]
      ensures Fits(is32Bit, v)
    {
      v := slots[index];
    }

    /**
     * `get(index)`: rejects an index outside the capacity, or at or beyond the limit;
     * otherwise returns the slot's value. Nothing changes.
     */
    method GetAt(index: int) returns (r: Result<int64>)
      requires Valid()
      ensures r.Ok? <==> 0 <= index < lim
      ensures r.Err? ==> r.error == IndexOutOfBounds
      ensures r.Ok? ==> r.value == slots[index] && Fits(is32Bit, r.value)
    {
      if 0 > index || index >= cap {
        return Err(IndexOutOfBounds);
      }
      if index >= lim {
        return Err(IndexOutOfBounds);
      }
      var v := GetImpl(index);
      return Ok(v);
    }

    /** `get()`: `get(position++)`; the cursor advances by one even when the read is rejected. */
    method Get() returns (r: Result<int64>)
      requires Valid()
      modifies this
      ensures Valid()
      ensures pos == old(pos) + 1
      ensures r.Ok? <==> old(pos) < lim
      ensures r.Err? ==> r.error == IndexOutOfBounds
      ensures r.Ok? ==> r.value == slots[old(pos)]
    {
      var index := pos;
      pos := pos + 1;
      r := GetAt(index);
    }

    /**
     * `put(src, offset, length)`: rejects, changing nothing, when `src` is shorter than
     * `offset + length` or fewer than `length` elements remain. Otherwise writes
     * `src[offset..offset + length]` at the cursor and advances it by `length`. A negative
     * `offset` (with a positive `length`) makes `src[offset]` throw after the first
     * `position++`; a non-positive `length` does nothing.
     */
    method PutArray(src: array<int64>, offset: int, length: int) returns (r: Outcome)
      requires Valid()
      requires src != slots
      requires IsInt(offset) && IsInt(length) && IsInt(offset + length)
      modifies this, slots
      ensures Valid()
      ensures r.Pass? <==> offset + length <= src.Length && length <= old(Remaining()) && (length <= 0 || 0 <= offset)
      ensures r.Fail? ==> r.error == IndexOutOfBounds && slots[..] == old(slots[..])
      ensures r.Fail? ==> pos == if offset + length <= src.Length && length <= old(Remaining()) then old(pos) + 1 else old(pos)
      ensures r.Pass? ==> pos == old(pos) + Count(length)
      ensures r.Pass? ==> slots[..] == Overwrite(old(slots[..]), old(pos),
                                                if length > 0 then Narrowed(is32Bit, src[offset..offset + length]) else [])
    {
      if src.Length < offset + length {
        return Fail(IndexOutOfBounds);
      }
      if Remaining() < length {
        return Fail(IndexOutOfBounds);
      }
      ghost var p0 := pos;
      ghost var t := if length > 0 && offset >= 0 then Narrowed(is32Bit, src[offset..offset + length]) else [];
      var off, len := offset, length;
      while len > 0
        invariant Valid()
        invariant p0 <= pos && pos - p0 == off - offset
        invariant len == length - (pos - p0)
        invariant length > 0 ==> len >= 0
        invariant length <= 0 ==> pos == p0
        invariant pos > p0 ==> 0 <= offset
        invariant off + len <= src.Length && pos + len <= lim
        invariant forall i :: 0 <= i < slots.Length ==>
                    slots[i] == if p0 <= i < pos then t[i - p0] else old(slots[i])
      {
        var at := pos;
        pos := pos + 1;
        if off < 0 {
          // src[offset++] throws ArrayIndexOutOfBoundsException after position++
          return Fail(IndexOutOfBounds);
        }
        PutImpl(at, src[off]);
        off := off + 1;
        len := len - 1;
      }
      OverwriteFromPointwise(slots[..], old(slots[..]), p0, t);
      return Pass;
    }

    /**
     * `get(dest, offset, length)`: rejects, changing nothing, when `dest` is shorter than
     * `offset + length` or fewer than `length` elements remain. Otherwise copies the
     * `length` slots at the cursor into `dest[offset..offset + length]` and advances the
     * cursor by `length`; the slots are not written. A negative `offset` (with a positive
     * `length`) makes the store into `dest` throw after the first `position++`.
     */
    method GetArray(dest: array<int64>, offset: int, length: int) returns (r: Outcome)
      requires Valid()
      requires dest != slots
      requires IsInt(offset) && IsInt(length) && IsInt(offset + length)
      modifies this, dest
      ensures Valid()
      ensures r.Pass? <==> offset + length <= dest.Length && length <= old(Remaining()) && (length <= 0 || 0 <= offset)
      ensures r.Fail? ==> r.error == IndexOutOfBounds && dest[..] == old(dest[..])
      ensures r.Fail? ==> pos == if offset + length <= dest.Length && length <= old(Remaining()) then old(pos) + 1 else old(pos)
      ensures r.Pass? ==> pos == old(pos) + Count(length)
      ensures r.Pass? ==> dest[..] == Overwrite(old(dest[..]), offset,
                                               if length > 0 then slots[old(pos)..old(pos) + length] else [])
    {
      if dest.Length < offset + length {
        return Fail(IndexOutOfBounds);
      }
      if Remaining() < length {
        return Fail(IndexOutOfBounds);
      }
      ghost var p0 := pos;
      var off, len := offset, length;
      while len > 0
        invariant Valid()
        invariant p0 <= pos && pos - p0 == off - offset
        invariant len == length - (pos - p0)
        invariant length > 0 ==> len >= 0
        invariant length <= 0 ==> pos == p0
        invariant pos > p0 ==> 0 <= offset
        invariant off + len <= dest.Length && pos + len <= lim
        invariant forall i :: 0 <= i < dest.Length ==>
                    dest[i] == if offset <= i < off then slots[p0 + (i - offset)] else old(dest[i])
      {
        var at := pos;
        pos := pos + 1;
        var v := GetImpl(at);
        if off < 0 {
          // the store into dest[offset++] throws ArrayIndexOutOfBoundsException
          return Fail(IndexOutOfBounds);
        }
        dest[off] := v;
        off := off + 1;
        len := len - 1;
      }
      return Pass;
    }

    /**
     * `put(src)`: rejects, changing nothing, when fewer elements remain here than in `src`.
     * Otherwise copies `src`'s remaining values in order and advances both cursors by
     * their number.
     */
    method PutBuffer(src: NativeSizeBuffer) returns (r: Outcome)
      requires Valid() && src.Valid()
      requires src != this && src.slots != slots && src.is32Bit == is32Bit
      modifies this, slots, src
      ensures Valid() && src.Valid()
      ensures r.Pass? <==> old(src.Remaining()) <= old(Remaining())
      ensures r.Fail? ==> r.error == IndexOutOfBounds && pos == old(pos) && src.pos == old(src.pos)
                          && slots[..] == old(slots[..])
      ensures r.Pass? ==> pos == old(pos) + Count(old(src.Remaining()))
                          && src.pos == old(src.pos) + Count(old(src.Remaining()))
      ensures r.Pass? ==> slots[..] == Overwrite(old(slots[..]), old(pos),
                                                if old(src.Remaining()) > 0 then src.slots[old(src.pos)..src.lim] else [])
    {
      if Remaining() < src.Remaining() {
        return Fail(IndexOutOfBounds);
      }
      ghost var p0, q0 := pos, src.pos;
      ghost var t := if q0 < src.lim then Narrowed(is32Bit, src.slots[q0..src.lim]) else [];
      while src.HasRemaining()
        invariant Valid() && src.Valid()
        invariant p0 <= pos && pos - p0 == src.pos - q0
        invariant pos > p0 ==> src.pos <= src.lim
        invariant src.Remaining() <= Remaining()
        invariant forall i :: 0 <= i < slots.Length ==>
                    slots[i] == if p0 <= i < pos then t[i - p0] else old(slots[i])
        decreases src.lim - src.pos
      {
        var v := src.Get();
        var w := Put(v.value);
      }
      OverwriteFromPointwise(slots[..], old(slots[..]), p0, t);
      if q0 < src.lim {
        NarrowedFitting(is32Bit, src.slots[q0..src.lim]);
      }
      return Pass;
    }

    /**
     * `allocate(array)`: `allocate(array.length).put(array, 0, array.length).rewind()`; slot `i`
     * holds `values[i]` as the slot width stores it.
     */
    static method AllocateFrom(is32Bit: bool, values: array<int64>) returns (b: NativeSizeBuffer)
      requires IsInt(ElementSize(is32Bit) * values.Length)
      ensures b.Valid() && fresh(b) && fresh(b.slots)
      ensures b.is32Bit == is32Bit && !b.direct
      ensures b.cap == values.Length && b.lim == b.cap && b.pos == 0
      ensures b.slots[..] == Narrowed(is32Bit, values[..])
    {
      b := new NativeSizeBuffer.Allocate(is32Bit, values.Length);
      var r := b.PutArray(values, 0, values.Length);
      b.Rewind();
    }

    /** `allocateDirect(array)`: as AllocateFrom, over a direct buffer. */
    static method AllocateDirectFrom(is32Bit: bool, values: array<int64>) returns (b: NativeSizeBuffer)
      requires IsInt(ElementSize(is32Bit) * values.Length)
      ensures b.Valid() && fresh(b) && fresh(b.slots)
      ensures b.is32Bit == is32Bit && b.direct
      ensures b.cap == values.Length && b.lim == b.cap && b.pos == 0
      ensures b.slots[..] == Narrowed(is32Bit, values[..])
    {
      b := new NativeSizeBuffer.AllocateDirect(is32Bit, values.Length);
      var r := b.PutArray(values, 0, values.Length);
      b.Rewind();
    }
  }
}
