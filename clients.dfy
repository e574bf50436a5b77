/**
 * Callers of the buffers, showing what the operations' contracts let a caller conclude
 * across several calls: the write/read round trips and the table's behaviour.
 */
module Clients {
  import opened Errors
  import opened JavaInts
  import opened NativeSize
  import opened Pointer

  /**
   * `put(index, v); get(index)`: an index below the limit reads back `v` narrowed to the
   * slot width, hence `v` itself on a 64-bit platform or when `v` fits in an `int`.
   */
  method PutThenGet(b: NativeSizeBuffer, index: int, v: int64) returns (r: Result<int64>)
    requires b.Valid()
    modifies b.slots
    ensures b.Valid()
    ensures 0 <= index < b.lim ==> r == Ok(Stored(b.is32Bit, v))
    ensures 0 <= index < b.lim && Fits(b.is32Bit, v) ==> r == Ok(v)
    ensures !(0 <= index < b.lim) ==> r == Err(IndexOutOfBounds) && b.slots[..] == old(b.slots[..])
  {
    var w := b.PutAt(index, v);
    assert w.Pass? ==> b.slots[index] == b.slots[..][index];
    r := b.GetAt(index);
    StoredRoundTrip(b.is32Bit, v);
  }

  /**
   * `referenceBuffer(index, x); getReferencedBuffer(index)`: when the reference succeeds,
   * the lookup finds `x` on a 64-bit platform and for addresses below 2^31 on a 32-bit
   * one; for the other addresses of a 32-bit platform it finds nothing.
   */
  method ReferenceThenResolve(p: PointerBuffer, index: int, x: NioBuffer) returns (r: Result<NioBuffer?>)
    requires p.Valid()
    modifies p, p.buf, p.buf.slots
    ensures p.Valid()
    ensures p.Referenceable(x) && 0 <= index < p.buf.lim ==>
              r == if !p.buf.is32Bit || p.KeyOf(x) as int <= MAX_INT then Ok(x) else Ok(null)
    ensures !(0 <= index < p.buf.lim) ==> r == Err(IndexOutOfBounds)
  {
    var w := p.ReferenceBufferAt(index, x);
    assert w.Pass? ==> p.buf.slots[index] == p.buf.slots[..][index];
    r := p.GetReferencedBufferAt(index);
    ReadBackMatchesKey(p.buf.is32Bit, DirectAddress(x));
  }

  /** The same round trip through the masked lookup finds `x` for every address. */
  method ReferenceThenResolveMasked(p: PointerBuffer, index: int, x: NioBuffer) returns (r: Result<NioBuffer?>)
    requires p.Valid()
    modifies p, p.buf, p.buf.slots
    ensures p.Valid()
    ensures p.Referenceable(x) && 0 <= index < p.buf.lim ==> r == Ok(x as NioBuffer?)
    ensures !(0 <= index < p.buf.lim) ==> r == Err(IndexOutOfBounds)
  {
    var w := p.ReferenceBufferAt(index, x);
    assert w.Pass? ==> p.buf.slots[index] == p.buf.slots[..][index];
    r := p.GetReferencedBufferAtMasked(index);
    MaskedReadBackMatchesKey(p.buf.is32Bit, DirectAddress(x));
  }

  /**
   * On a 64-bit platform: reference `a`, `b`, `c` at indices 0, 1, 2 of a direct pointer
   * buffer of capacity 4, resolve index 1, re-reference index 1 with `d`, resolve it again.
   * The first lookup gives `b`, the second `d`, and `b` stays in the table under its own
   * address.
   */
  method OverwriteScenario(a: NioBuffer, b: NioBuffer, c: NioBuffer, d: NioBuffer)
    returns (before: NioBuffer?, after: NioBuffer?, stale: NioBuffer?)
    requires a.direct && b.direct && c.direct && d.direct
    requires a.nativeAddress != 0 && b.nativeAddress != 0 && c.nativeAddress != 0 && d.nativeAddress != 0
    requires b.nativeAddress != c.nativeAddress && b.nativeAddress != d.nativeAddress
    ensures before == b && after == d && stale == b
  {
    var p := new PointerBuffer.AllocateDirect(false, 4);
    var r := p.ReferenceBufferAt(0, a);
    r := p.ReferenceBufferAt(1, b);
    r := p.ReferenceBufferAt(2, c);
    assert p.buf.slots[1] == p.buf.slots[..][1];
    var g := p.GetReferencedBufferAt(1);
    before := g.value;
    r := p.ReferenceBufferAt(1, d);
    assert p.buf.slots[1] == p.buf.slots[..][1];
    g := p.GetReferencedBufferAt(1);
    after := g.value;
    stale := Lookup(p.dataMap, b.nativeAddress);
  }
}
