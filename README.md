# Native-size buffers and pointer buffers, modelled in Dafny

This project models the native-size buffer family of `com.jogamp.common.nio` (GlueGen):

- **NativeSizeBuffer**: a fixed-capacity array of platform-width integers (4 bytes per
  element on a 32-bit platform, 8 otherwise) with an element cursor. It offers absolute
  and relative `get`/`put`, bulk copies to and from `long[]` arrays, and a
  buffer-to-buffer copy. The cursor bookkeeping of its abstract base class
  `AbstractBuffer` (capacity, limit, position, `position(int)`, `rewind`, `remaining`,
  `hasRemaining`, `isDirect`) lives in the same Dafny class, because that base class is
  abstract and NativeSizeBuffer is its one direct subclass.
- **PointerBuffer**: a NativeSizeBuffer of addresses plus `dataMap`, a table from address
  to the `java.nio.Buffer` the address was taken from. `referenceBuffer` writes a
  buffer's masked native address into a slot and records the buffer under it.
  `getReferencedBuffer` reads a slot and looks the value up in the table. Java
  inheritance becomes composition: a `PointerBuffer` holds its `NativeSizeBuffer` in
  `buf`, and the Java overrides that only narrow the return type become delegating methods.

Files:
- `errors.dfy`: the exception kinds, plus `Outcome` (returns `this`, or throws) and `Result` (returns a value, or throws).
- `java_ints.dfy`: Java's `long` as the newtype `int64`, and the `(int)` cast.
- `native_size_buffer.dfy`: element width, narrowing, the bulk-write specification `Overwrite`, and the class `NativeSizeBuffer`.
- `pointer_buffer.dfy`: address masking, the class `NioBuffer` standing for a `java.nio.Buffer`, and the class `PointerBuffer`.
- `clients.dfy`: callers that chain operations. They cover the put/get round trip, the reference/lookup round trip and a four-slot overwrite scenario.

## Modelling decisions

- **Platform width.** `Platform.is32Bit()` is the constant field `is32Bit` of each buffer, so both widths are covered by the same proofs.
- **The cursor.** `NativeSizeBuffer.java` advances a field `position` (lines 128, 143, 153, 188) that `AbstractBuffer` does not declare. `AbstractBuffer` instead derives `position()`, `remaining()` and `hasRemaining()` from the wrapped ByteBuffer. The model uses one element cursor `pos` for all of them:
  - `remaining() = lim - pos`;
  - `hasRemaining() = pos < lim`;
  - the limit `lim` is fixed at construction.
- **Cursor overshoot.** `put(long)` and `get()` evaluate `position++` before the bounds check, so a rejected relative access still advances the cursor. As a result `pos` can pass the limit and even the capacity, and `remaining()` can then be negative. `0 <= pos` always holds. The invariant `Valid()` does not claim `pos <= lim`: the source does not keep it.
- **ByteBuffer's own checks are kept.**
  - The absolute ByteBuffer accessors reject an index at or beyond the ByteBuffer's limit. So on top of the capacity check at NativeSizeBuffer.java:97 and :160, `put(index, v)` and `get(index)` also fail for `lim <= index < cap`.
  - `ByteBuffer.position(n)` rejects `n` beyond the limit with IllegalArgumentException. `position(newPos)` therefore fails that way for `lim < newPos < cap`.
  - A buffer made by `allocate`/`allocateDirect` has `lim == cap`, so there only the capacity checks matter.
- **Slot values.** A slot holds what `getInt` (32-bit) or `getLong` (64-bit) reads there. On a 32-bit platform a write keeps the low 32 bits (`(int) value`) and a read sign-extends them (`Stored`).
- **Wrapping.** `wrap` takes the wrapped ByteBuffer's storage as an element array, which is borrowed, not copied. It also takes the byte capacity, limit and position. Capacity, limit and position in elements are these byte counts divided by the element size, truncating.
- **Bulk copies with odd arguments.**
  - A negative `offset` together with a positive `length` makes `src[offset++]` (or the store into `dest[offset++]`) throw ArrayIndexOutOfBoundsException. By then the first `position++` has already run, so the cursor moves by one and nothing is written.
  - A non-positive `length` that passes both checks copies nothing and leaves the cursor where it was. It can still fail a check: `src.length < offset + length` holds for `offset = 10, length = 0` against a 5-element array, and `remaining() < 0` holds after a cursor overshoot.
- **Referenced buffers.** A `java.nio.Buffer` is a `NioBuffer`, which has object identity, a `direct` flag and `nativeAddress`, the start of a direct buffer's native memory. `null` is Dafny's `null`.
- **Native addresses.** The native `getDirectBufferAddressImpl` (PointerBuffer.java:154) is `DirectAddress`. Its C source, PointerBuffer.c, is not part of this model. `DirectAddress` follows JNI's `GetDirectBufferAddress`, which returns NULL for a buffer that is not direct. A heap buffer therefore has address 0, and a heap pointer buffer cannot reference any buffer (`HeapReferencesNothing`): the mode check requires a heap buffer, and a heap buffer's address gives the RuntimeException.
- **Exceptions.** They are modelled as `Outcome`/`Result` values. `IndexOutOfBounds` covers IndexOutOfBoundsException and its subclass ArrayIndexOutOfBoundsException.

On these points the model follows the code rather than what the library is documented or expected to do:
- Values are read back sign-extended on a 32-bit platform, not as unsigned numbers.
- An unresolvable address throws a plain RuntimeException (`Runtime`).
- `put(NativeBuffer)` on a PointerBuffer leaves `dataMap` exactly as it was. It carries no association over from the source buffer.
- Re-referencing a slot with another buffer leaves the old buffer in the table under its own address.

## Model

| member | source | states |
|---|---|---|
| `JavaInts.ToInt` | src/java/com/jogamp/common/nio/NativeSizeBuffer.java:107 | `(int) v` widened back to `long` is an `int` congruent to `v` modulo 2^32 |
| `JavaInts.ToIntUnique` | src/java/com/jogamp/common/nio/NativeSizeBuffer.java:107 | any `int` congruent to `v` modulo 2^32 is the cast's result, so the cast keeps exactly the low 32 bits |
| `JavaInts.ToIntIdentity` | src/java/com/jogamp/common/nio/NativeSizeBuffer.java:107 | the cast leaves `v` unchanged if and only if `v` lies in the `int` range |
| `NativeSize.ElementSize` | src/java/com/jogamp/common/nio/NativeSizeBuffer.java:81-83 | the element size is 4 or 8, and it is 4 exactly on a 32-bit platform |
| `NativeSize.Stored` | src/java/com/jogamp/common/nio/NativeSizeBuffer.java:105-111 | what a slot holds after a write fits the slot width; on 32-bit it is congruent to the written value modulo 2^32, on 64-bit it is the written value |
| `NativeSize.StoredRoundTrip` | src/java/com/jogamp/common/nio/NativeSizeBuffer.java:159-173 | a written value reads back unchanged if and only if it fits the slot width (always on 64-bit, for `int` values on 32-bit) |
| `NativeSize.NarrowedFitting` | src/java/com/jogamp/common/nio/NativeSizeBuffer.java:113-122 | copying values read from slots of the same width stores them unchanged (the step from the narrowed copy to `src`'s own values in `put(NativeBuffer)`) |
| `NativeSize.Overwrite` | src/java/com/jogamp/common/nio/NativeSizeBuffer.java:142-145 | writing `t` element by element from index `at` keeps the length; inside the window slot `i` is `t[i - at]`, outside it is unchanged |
| `NativeSize.OverwriteFromPointwise` | src/java/com/jogamp/common/nio/NativeSizeBuffer.java:142-145 | a sequence that agrees with `t` inside the window and with the old contents outside it is the bulk-write result |
| `NativeSize.NativeSizeBuffer.Allocate` | src/java/com/jogamp/common/nio/NativeSizeBuffer.java:58-60 | a fresh heap buffer: capacity (byte length over element size) and limit `size`, position 0, every slot 0 |
| `NativeSize.NativeSizeBuffer.AllocateDirect` | src/java/com/jogamp/common/nio/NativeSizeBuffer.java:66-68 | the same over a direct buffer |
| `NativeSize.NativeSizeBuffer.Wrap` | src/java/com/jogamp/common/nio/AbstractBuffer.java:49-54 | the borrowed region becomes the slots; capacity, limit and position are the byte counts divided by the element size, truncating; the mode is the wrapped buffer's |
| `NativeSize.NativeSizeBuffer.Remaining` | src/java/com/jogamp/common/nio/AbstractBuffer.java:77-79 | with the single element cursor, `remaining()` is the limit minus the position; it never exceeds the limit, and it is negative exactly when a cursor overshoot has pushed the position past the limit |
| `NativeSize.NativeSizeBuffer.HasRemaining` | src/java/com/jogamp/common/nio/AbstractBuffer.java:77-83 | `hasRemaining()` holds if and only if `remaining()` is positive |
| `NativeSize.NativeSizeBuffer.SetPosition` | src/java/com/jogamp/common/nio/AbstractBuffer.java:68-75 | rejects `newPos < 0` and `newPos >= capacity` (IndexOutOfBounds) and, via ByteBuffer, `newPos > limit` (IllegalArgument), leaving the position; on success the position is `newPos` and nothing else changes |
| `NativeSize.NativeSizeBuffer.Rewind` | src/java/com/jogamp/common/nio/AbstractBuffer.java:85-88 | the position becomes 0; limit, capacity and slots are untouched |
| `NativeSize.NativeSizeBuffer.PutImpl` | src/java/com/jogamp/common/nio/NativeSizeBuffer.java:105-111 | exactly slot `index` changes, to the value narrowed to the slot width |
| `NativeSize.NativeSizeBuffer.PutAt` | src/java/com/jogamp/common/nio/NativeSizeBuffer.java:96-102 | an index outside `[0, capacity)` throws; the write succeeds if and only if `0 <= index < limit`; on failure nothing changes, on success only slot `index` does; the position never moves |
| `NativeSize.NativeSizeBuffer.Put` | src/java/com/jogamp/common/nio/NativeSizeBuffer.java:127-129 | writes at the old position, which advances by exactly one whether or not the write succeeds |
| `NativeSize.NativeSizeBuffer.GetImpl` | src/java/com/jogamp/common/nio/NativeSizeBuffer.java:167-173 | returns the slot's value, which fits the slot width (sign-extended on 32-bit) |
| `NativeSize.NativeSizeBuffer.GetAt` | src/java/com/jogamp/common/nio/NativeSizeBuffer.java:159-164 | succeeds if and only if `0 <= index < limit` and then returns slot `index`; otherwise IndexOutOfBounds; nothing changes |
| `NativeSize.NativeSizeBuffer.Get` | src/java/com/jogamp/common/nio/NativeSizeBuffer.java:152-154 | reads at the old position, which advances by exactly one even when the read fails |
| `NativeSize.NativeSizeBuffer.PutArray` | src/java/com/jogamp/common/nio/NativeSizeBuffer.java:135-147 | fails with no change if `src.length < offset + length` or `remaining() < length`; a negative `offset` with a positive `length` fails after moving the position by one; on success the slots from the position on hold `src[offset..offset + length]` narrowed, no other slot changes, and the position advances by max(length, 0) |
| `NativeSize.NativeSizeBuffer.GetArray` | src/java/com/jogamp/common/nio/NativeSizeBuffer.java:180-192 | same failure checks, and the same one-step move for a negative `offset`; on success `dest[offset + k]` is slot `pos + k`, no other cell of `dest` changes, the slots are not written, and the position advances by max(length, 0) |
| `NativeSize.NativeSizeBuffer.PutBuffer` | src/java/com/jogamp/common/nio/NativeSizeBuffer.java:113-122 | fails with no change if `remaining() < src.remaining()`; otherwise copies `src`'s remaining values in order and both cursors advance by their count |
| `NativeSize.NativeSizeBuffer.AllocateFrom` | src/java/com/jogamp/common/nio/NativeSizeBuffer.java:62-64 | capacity `values.length`, position 0, slot `i` holding `values[i]` narrowed to the width |
| `NativeSize.NativeSizeBuffer.AllocateDirectFrom` | src/java/com/jogamp/common/nio/NativeSizeBuffer.java:70-72 | the same over a direct buffer |
| `Pointer.MaskAddress` | src/java/com/jogamp/common/nio/PointerBuffer.java:108-109 | on 32-bit the masked address is the unsigned low 32 bits; on 64-bit it is the address itself |
| `Pointer.DirectAddress` | src/java/com/jogamp/common/nio/PointerBuffer.java:153-154 | the address of a direct buffer is its native address; a buffer that is not direct has address 0 |
| `Pointer.ReadBackMatchesKey` | src/java/com/jogamp/common/nio/PointerBuffer.java:108-119 | the slot written by a reference reads back as the table key if and only if the platform is 64-bit or the masked address is below 2^31 |
| `Pointer.HighAddressReadsBackNegative` | src/java/com/jogamp/common/nio/PointerBuffer.java:108-115 | on 32-bit, address 0x80000000 is recorded under key 0x80000000 but its slot reads back -0x80000000 |
| `Pointer.MaskedReadBackMatchesKey` | src/java/com/jogamp/common/nio/PointerBuffer.java:143-146 | masking the value read from the slot recovers the recorded key for every address |
| `Pointer.Lookup` | src/java/com/jogamp/common/nio/PointerBuffer.java:145 | `dataMap.get`: non-null exactly for a recorded key, and then the recorded buffer |
| `Pointer.PointerBuffer.KeyOf` | src/java/com/jogamp/common/nio/PointerBuffer.java:108-109 | the key `referenceBuffer` computes for a buffer lies in `[0, 2^32)` on 32-bit, and it is nonzero only for a direct buffer |
| `Pointer.PointerBuffer.HeapReferencesNothing` | src/java/com/jogamp/common/nio/PointerBuffer.java:104-112 | on a heap pointer buffer every buffer fails the checks before the write: a heap buffer's address is 0, and a direct one fails the mode check |
| `Pointer.PointerBuffer.Allocate` | src/java/com/jogamp/common/nio/PointerBuffer.java:60-62 | a fresh heap pointer buffer of `size` zeroed slots with an empty table |
| `Pointer.PointerBuffer.AllocateDirect` | src/java/com/jogamp/common/nio/PointerBuffer.java:68-70 | the same over a direct buffer |
| `Pointer.PointerBuffer.Wrap` | src/java/com/jogamp/common/nio/PointerBuffer.java:76-78 | a pointer buffer over the borrowed region, with an empty table |
| `Pointer.PointerBuffer.PutBuffer` | src/java/com/jogamp/common/nio/PointerBuffer.java:81-97 | the copy of `put(NativeBuffer)`, and the table ends exactly as it started: no entry of `src` is carried over |
| `Pointer.PointerBuffer.RestoreEntry` | src/java/com/jogamp/common/nio/PointerBuffer.java:89-94 | the table step of the copy loop, which puts back the entry found under the address or removes the absent key, leaves the table exactly as it was |
| `Pointer.PointerBuffer.ReferenceBufferImpl` | src/java/com/jogamp/common/nio/PointerBuffer.java:99-121 | null or mode mismatch gives IllegalArgument, a zero masked address gives Runtime, both with no change; otherwise slot `at` gets the masked address narrowed and the table gains or overwrites only that key; an index out of bounds fails the write first and leaves the table |
| `Pointer.PointerBuffer.ReferenceBufferAt` | src/java/com/jogamp/common/nio/PointerBuffer.java:128-131 | the absolute form: writes at `index` and never moves the cursor |
| `Pointer.PointerBuffer.ReferenceBuffer` | src/java/com/jogamp/common/nio/PointerBuffer.java:138-141 | the relative form: writes at the position (not at the end), which advances by one once the argument checks pass |
| `Pointer.PointerBuffer.GetReferencedBufferAt` | src/java/com/jogamp/common/nio/PointerBuffer.java:143-146 | fails as `get(index)` does; otherwise returns the entry recorded under the slot's value, null when there is none; nothing changes |
| `Pointer.PointerBuffer.GetReferencedBuffer` | src/java/com/jogamp/common/nio/PointerBuffer.java:148-151 | the same at the position, which advances by one; the table is unchanged |
| `Pointer.PointerBuffer.GetReferencedBufferAtMasked` | src/java/com/jogamp/common/nio/PointerBuffer.java:143-146 | the lookup with the slot's value masked to the pointer width first |
| `Pointer.PointerBuffer.PutAt` | src/java/com/jogamp/common/nio/PointerBuffer.java:159-161 | `put(index, value)` delegated; the table is unchanged |
| `Pointer.PointerBuffer.GetArray` | src/java/com/jogamp/common/nio/PointerBuffer.java:164-166 | `get(dest, offset, length)` delegated; the table is unchanged |
| `Pointer.PointerBuffer.Put` | src/java/com/jogamp/common/nio/PointerBuffer.java:169-171 | `put(value)` delegated; the table is unchanged |
| `Pointer.PointerBuffer.PutArray` | src/java/com/jogamp/common/nio/PointerBuffer.java:174-176 | `put(src, offset, length)` delegated; the table is unchanged |
| `Pointer.PointerBuffer.SetPosition` | src/java/com/jogamp/common/nio/PointerBuffer.java:179-181 | `position(newPos)` delegated; the table is unchanged |
| `Pointer.PointerBuffer.Rewind` | src/java/com/jogamp/common/nio/PointerBuffer.java:184-186 | `rewind()` delegated; the table is unchanged |
| `Pointer.PointerBuffer.AllocateFrom` | src/java/com/jogamp/common/nio/PointerBuffer.java:64-66 | capacity `values.length`, position 0, narrowed values, empty table |
| `Pointer.PointerBuffer.AllocateDirectFrom` | src/java/com/jogamp/common/nio/PointerBuffer.java:72-74 | the same over a direct buffer |
| `Clients.PutThenGet` | src/java/com/jogamp/common/nio/NativeSizeBuffer.java:159-173 | `put(i, v); get(i)` returns `v` narrowed to the width, hence `v` whenever it fits (always on 64-bit); an out-of-bounds index fails both and changes nothing |
| `Clients.ReferenceThenResolve` | src/java/com/jogamp/common/nio/PointerBuffer.java:108-146 | after a successful reference, the lookup returns the buffer on 64-bit or for addresses below 2^31, and null for every other 32-bit address |
| `Clients.ReferenceThenResolveMasked` | src/java/com/jogamp/common/nio/PointerBuffer.java:143-146 | with the masked lookup the round trip returns the buffer for every address |
| `Clients.OverwriteScenario` | src/java/com/jogamp/common/nio/PointerBuffer.java:114-119 | on 64-bit, references at 0, 1, 2 then a re-reference of 1: the first lookup gives `b`, the second `d`, and `b` stays in the table under its address |

## Findings

| source | as written | input that shows it | evidently intended | confidence | as-written member | corrected member |
|---|---|---|---|---|---|---|
| src/java/com/jogamp/common/nio/PointerBuffer.java:108-119 | on a 32-bit platform `referenceBuffer` records the address zero-extended (`& 0xFFFFFFFF`), but `getReferencedBuffer` looks up the slot's value as `get` returns it, sign-extended by `getInt` | 32-bit platform, a direct buffer whose native address is 0x80000000: the key is 0x80000000, the lookup key is -0x80000000, and the lookup returns null | `getReferencedBuffer(i)` returns the buffer that `referenceBuffer(i, b)` recorded, for every address | not executed | `Pointer.HighAddressReadsBackNegative` (and `Clients.ReferenceThenResolve`, which returns null for such addresses) | `Pointer.PointerBuffer.GetReferencedBufferAtMasked`, whose round trip `Pointer.MaskedReadBackMatchesKey` / `Clients.ReferenceThenResolveMasked` holds for all addresses |

## Left out

- `NativeLibrary.ensureNativeLibLoaded()` and the native-library loader are not part of this model. They are I/O and foreign calls.
- `getDirectBufferAddressImpl` (JNI) is not modelled as code. Its result is the `nativeAddress` field of `NioBuffer`.
- `Buffers.newDirectByteBuffer` and `ByteBuffer.wrap(new byte[..])` become fresh zeroed arrays; the direct allocation only sets `direct`.
- `Platform.is32Bit()` becomes the `is32Bit` parameter of the constructors.
- Byte order and raw byte layout are not modelled. Each slot is a whole value. A wrapped region is given as the values `getInt`/`getLong` would read from it.
- `hasArray`, `array`, `arrayOffset`, `getBuffer` and `toString` are left out. They expose or print the backing store.
- `dataMap`'s role in keeping referenced buffers from being garbage-collected is left out. The table maps addresses to object identities only.
- Negative allocation sizes are not modelled. The JVM throws for them (NegativeArraySizeException, IllegalArgumentException), and a Dafny constructor cannot fail. `size` is a `nat`.
- Java `int` overflow is excluded by preconditions:
  - `elementSize() * size` must fit an `int` (`requires IsInt(...)`);
  - `offset + length` in the bulk copies must fit an `int`;
  - the cursor is unbounded, and overflowing it would take about 2^31 rejected relative calls.
- Aliasing is not modelled:
  - `put(NativeBuffer)` requires the source to be a different object with a different backing array;
  - the bulk copies require the `long[]` array to be distinct from the slot array (in Java they have different types);
  - two buffers wrapping the same ByteBuffer would share one cursor in Java, but each has its own `pos` here.
- NullPointerException is not modelled. The `long[]` and buffer parameters are non-null Dafny types. So `put(null, offset, length)` and `get(null, offset, length)` (NativeSizeBuffer.java:136, :181) and `put((NativeBuffer) null)` (NativeSizeBuffer.java:115, PointerBuffer.java:82) cannot be expressed. A `null` argument to `referenceBuffer` is modelled.
- Read-only ByteBuffers are not modelled. `wrap` of a read-only ByteBuffer makes every `putInt`/`putLong` (NativeSizeBuffer.java:107, :109) throw ReadOnlyBufferException. The model's `Wrap` has no read-only flag, so its writes always succeed when the bounds allow.
- `NativeSize.NativeSizeBuffer.HasRemaining`: it is stated on whole elements (`pos < lim`). In Java, `bb.hasRemaining()` also holds when only a partial element is left before a limit that is not a multiple of the element size.
- `Pointer.PointerBuffer.PutBuffer`: the source argument is a `NativeSizeBuffer`. To copy from a PointerBuffer, pass its `buf`; its table is not consulted, as in the source.
