# alt-std containers, streams and hash in Dafny

This project models the container, stream and hash layer of alt-std, a `no_std`
Rust runtime library, and proves what each operation does.

- `Vector` (`vec.dfy`) models `Vec<T>`. A class holds the raw buffer as an `array<T>`,
  plus `count` and `capacity` and a ghost sequence of the contents. The invariant is
  `count <= capacity == elements.Length` and contents `== elements[..count]`.
  - `pushBack` grows the buffer by the rule "16 when empty, else double". It copies the
    old slots into a fresh array in a loop.
  - `pop`, `get`, `getMut`/`IndexMut` and `last` are the bounds-checked accessors.
  - `append` and `clone` are loops of `pushBack`.
- `ByteString` (`string.dfy`) models `String`, a `Vec<u8>` of bytes.
  - It has construction from `&str`, `add`, both `append` forms, the two byte-by-byte
    equality loops, `clone`, `fmt::Write` and `Hash`.
  - A `&str` is the subset type `Str` of byte sequences that are well-formed UTF-8.
- `Utf8` (`utf8.dfy`) gives that well-formedness predicate. It follows the grammar of
  section 4 of RFC 3629.
- `Stream` (`stream.dfy`) models `MemoryStreamWriter`, which appends to a `Vec<u8>`.
  It also models `MemoryStreamReader`, which holds a private copy of its source and a
  cursor. `read` copies `min(buff.len(), size - cursor)` bytes to the front of the
  caller's buffer.
- `Hash` (`hash.dfy`) holds `murmurHash64A` and the `Hash for &[u8]` seed wrapper.
  This is the 64-bit MurmurHash2 in the endian-neutral form used by Redis.
  - The source's `while` loop over 8-byte blocks and its `for` loop over the 0–7 tail
    bytes are imperative methods.
  - They are proved equal to `Murmur64A`, a recursive functional definition of the same
    hash over `bv64`.
  - `Murmur64A` states the tail the way the original C code does: a fall-through switch
    that xors byte `j` into bits `8j`.
  - `wrapping_mul` is `bv64` multiplication, which wraps modulo 2^64.

Rust panics become preconditions: an index out of bounds, or `toStr` on bytes that are
not UTF-8. Rust's borrow rules become disjointness preconditions: `&mut self` never
aliases a `&String` argument. Sizes are unbounded `nat`s.

Some members model the crate's own unit tests as methods over arbitrary inputs:
`PushRange`, `PushPopPush`, `WriteOnce` and `ReadOnce`. `CompareBoth` states the
reflexivity and symmetry of string equality that comparisons with `==`/`!=` rely on.

## Model

| member | source | states |
|---|---|---|
| Vector.Grow | src/vec.rs:38 | the new capacity is strictly larger than the old one, so a push after growth always has a free slot |
| Vector.CapacityAfterBounds | src/vec.rs:37-41 | after n pushes onto a new vector the capacity covers n; it is 16 for 1..16 elements, below 2n beyond that, and always 16 times a power of two |
| Vector.Vec.New | src/vec.rs:23-29 | a new vector is empty with capacity 0 |
| Vector.Vec.WithCapacity | src/vec.rs:12-21 | the vector is empty with capacity exactly `c`; `c == 0` gives the same state as `new` |
| Vector.Vec.AsArray | src/vec.rs:31 | the slice is the contents, of length exactly `count` |
| Vector.Vec.Len | src/vec.rs:34 | the length is the number of elements held |
| Vector.Vec.Get | src/vec.rs:66-69 | requires `idx < count` (out of range panics) and yields the element at `idx`; also `Index` at src/vec.rs:111-115 |
| Vector.Vec.Last | src/vec.rs:89-95 | `None` exactly when the vector is empty, otherwise the element at `count - 1` |
| Vector.Vec.PushBack | src/vec.rs:36-53 | contents become old contents plus `t`, so every earlier element is kept through relocation; capacity doubles (16 from 0) exactly when `count >= capacity`, and `count <= capacity` is kept |
| Vector.Vec.Pop | src/vec.rs:55-63 | on an empty vector returns `None` and changes nothing; otherwise returns the last element and drops it, and the capacity is unchanged |
| Vector.Vec.SetAt | src/vec.rs:72-75 | `getMut`/`IndexMut` (also src/vec.rs:117-120): requires `idx < count` and replaces exactly that element |
| Vector.Vec.Append | src/vec.rs:102-108 | contents become old contents followed by `arr` |
| Vector.Vec.Clone | src/vec.rs:129-137 | a fresh, separate vector with the same contents |
| Vector.PushRange | src/vec.rs:158-170 | pushing 0..n reads back each `i` at index `i`, iterates as 0..n in order, and leaves capacity `CapacityAfter(n)` |
| Vector.PushPopPush | src/vec.rs:189-215 | n pushes give length n, n pops give length 0, and n more pushes give length n again without further growth |
| Utf8.LeadWidth | src/string.rs:22 | the width of the leading UTF-8 character is at most 4 and never runs past the input |
| Utf8.LeadWidthAppend | src/string.rs:46 | appending bytes never changes the width of an already complete leading character |
| Utf8.ValidUtf8Concat | src/string.rs:44-50 | the concatenation of two valid UTF-8 byte sequences is valid, so appending text to text keeps `toStr` from panicking |
| ByteString.String.New | src/string.rs:12 | the new string is empty |
| ByteString.String.From | src/string.rs:13-19 | the string holds exactly the bytes of `s`, in order |
| ByteString.String.AsArray | src/string.rs:29 | the byte slice is the string's bytes |
| ByteString.String.ToStr | src/string.rs:21-23 | requires the bytes to be valid UTF-8 (otherwise panics) and yields exactly those bytes as text |
| ByteString.String.Add | src/string.rs:25-27 | appends exactly one byte at the end |
| ByteString.String.AppendStr | src/string.rs:36-42 | bytes become old bytes followed by the bytes of `s`; text stays text |
| ByteString.String.AppendString | src/string.rs:44-50 | requires the other string to be valid UTF-8 (`toStr` panics otherwise); bytes become old bytes followed by the other's bytes |
| ByteString.String.Eq | src/string.rs:52-62 | true if and only if both strings hold the same byte sequence |
| ByteString.String.EqStr | src/string.rs:66-77 | true if and only if the string's bytes are the bytes of `other` |
| ByteString.String.Clone | src/string.rs:79-83 | requires valid UTF-8 (it goes through `toStr`); yields a fresh string with the same bytes |
| ByteString.String.WriteStr | src/string.rs:87-91 | appends `s` and returns `Ok(())` |
| ByteString.String.WriteChar | src/string.rs:93-96 | appends the single byte `c as u8` and returns `Ok(())` |
| ByteString.String.Hash | src/string.rs:105-109 | equals the byte-slice hash of its bytes, MurmurHash64A with seed 0xcae4f57 |
| ByteString.CompareBoth | src/string.rs:52-62 | string equality is reflexive and symmetric and agrees with byte-sequence equality |
| ByteString.CloneRoundTrip | src/string.rs:79-83 | a clone of a string built from text equals the original and the text, and both hash alike |
| Stream.MemoryStreamWriter.New | src/stream.rs:32-34 | a new writer holds no data |
| Stream.MemoryStreamWriter.Data | src/stream.rs:36 | the vector returned holds exactly the bytes written |
| Stream.MemoryStreamWriter.Tell | src/stream.rs:45 | the position is the data length, so `tell == size` always |
| Stream.MemoryStreamWriter.Size | src/stream.rs:46 | the size is the data length |
| Stream.MemoryStreamWriter.Write | src/stream.rs:51-54 | appends all of `buff`, so `tell`/`size` grow by its length, and returns `Ok(buff.len())`; never `Err` |
| Stream.ReadLength | src/stream.rs:85-90 | a read takes no more than fits in the buffer and no more than remains, and stops short of the buffer only at the end of the data |
| Stream.MemoryStreamReader.From | src/stream.rs:65-69 | the reader holds a copy of `src` and its cursor is 0 |
| Stream.MemoryStreamReader.Tell | src/stream.rs:73 | the position is the cursor, never past the end |
| Stream.MemoryStreamReader.Size | src/stream.rs:74 | the size is the length of the data |
| Stream.MemoryStreamReader.IsEOF | src/stream.rs:83 | true if and only if the cursor is at the end of the data |
| Stream.MemoryStreamReader.Read | src/stream.rs:84-96 | copies `n = ReadLength` bytes `data[cursor..cursor+n]` into `buff[..n]`, leaves `buff[n..]` untouched, advances the cursor by `n`, never changes the data and returns `Ok(n)` |
| Stream.WriteOnce | src/stream.rs:104-115 | one write reports its length, `tell == size == len`, and the data reads back as what was written |
| Stream.ReadOnce | src/stream.rs:118-127 | a new reader is at 0 with the source's size, and one read into a buffer of that size yields the source and reaches EOF |
| Stream.ReadAll | src/stream.rs:84-96 | reading in chunks of any positive size until EOF yields the source exactly, and a read at EOF returns `Ok(0)` |
| Stream.WriteThenRead | src/stream.rs:51-69 | bytes written to a writer and fed to a reader come back unchanged |
| Hash.EmptyAndOneByteDiffer | src/hash.rs:5-9 | the slice hash tells the empty slice from the one-byte slice "a" |
| Hash.EmptyKeyHash | src/hash.rs:16-57 | for the empty slice no block or tail step runs and the hash is the finalized seed, 0x2021ac09bab11ce0 |
| Hash.OneByteKeyHash | src/hash.rs:16-57 | for the slice "a" the byte is xored into bits 0..7 and multiplied once before finalizing, giving 0xab69b8f5f0518640 |
| Hash.BlocksEnd | src/hash.rs:21-23 | `end` is a multiple of 8 with `end <= len < end + 8`, so the tail has 0 to 7 bytes |
| Hash.Word8Bytes | src/hash.rs:26-33 | in a block word, byte `j` sits at bits `8j`, whatever the host byte order |
| Hash.Word8Injective | src/hash.rs:26-33 | two block words are equal if and only if their eight bytes are pairwise equal |
| Hash.BlockWordInjective | src/hash.rs:26-33 | two 8-byte blocks read to the same word if and only if they are the same bytes |
| Hash.NextBlockStart | src/hash.rs:25-40 | while `i < end` the block `key[i..i+8]` is in bounds, and `i + 8` is again block-aligned |
| Hash.BlocksStep | src/hash.rs:25-41 | one loop iteration extends the hash of the blocks before `i` by mixing in block `i` |
| Hash.OffsetAt | src/hash.rs:44 | the offsets table maps tail index `j` to `j` |
| Hash.ShiftsAt | src/hash.rs:43-48 | xoring a byte at the shifts table's entry `j` puts it at bits `8j` |
| Hash.ReadBlock | src/hash.rs:26-33 | the eight `|=` steps assemble the little-endian word of `key[i..i+8]` |
| Hash.MixWord | src/hash.rs:35-39 | the five steps compute the block mix: `k*m`, `k ^= k>>47`, `k*m`, `h ^= k`, `h *= m` |
| Hash.MixBlocks | src/hash.rs:25-41 | the main loop stays in bounds, exits with `i == end`, and leaves the hash of all `end/8` blocks |
| Hash.XorTail | src/hash.rs:45-49 | the tail loop xors byte `end + j` into bits `8j` for every `j < len`, in bounds |
| Hash.MurmurHash64A | src/hash.rs:16-57 | the result is `Murmur64A(key, seed)`: seed xor `len*m`, the block mixes, one tail multiply only when the tail is non-empty, then `h ^= h>>47`, `h *= m`, `h ^= h>>47` |
| Hash.HashBytes | src/hash.rs:5-9 | the slice hash is MurmurHash64A with seed 0xcae4f57 |

## Left out

- `src/mem.rs` is not part of this model: `allocRaw`/`free`/`Box`. The buffer is a fresh `array<T>`, whose zero-initialised elements stand for `calloc`.
- `Vec::new`'s null pointer is an empty array. Allocation failure (a null `calloc` return) is not modelled.
- Drop and destruction are not modelled, because Dafny is garbage-collected: `Vec::drop`, `dropElements`, the stream `Drop` impls and `close`. `pop` moves the value out.
- `usize` overflow of `capacity * 2`, `c * size_of::<T>()`, `count + 1` and `cursor + readLen` is not modelled. Counts are unbounded. The hash does model the `len as u64` conversion as 64-bit wrap-around.
- `Vector.Vec.Clone`: the element's own `clone` is taken to be the value itself, since the crate uses it only on `Copy` data.
- `asMutArray`, `toIter` and `dataMut` hand out Rust slices and iterators. `toIter` is read as the `AsArray` sequence in `PushRange`.
- `fmt::Display` for `String` is left out: it calls the formatter of `core`.
- The `Vec<Vec<i32>>` in the crate's pop and destructor tests is modelled with `int` elements. The nested vectors only matter for destruction, which is left out.
- `testDestructor` and `testPopDestructor` are left out as separate members. They are covered by `PushPopPush`'s first two phases.
- `core::str::from_utf8` is the RFC 3629 well-formedness predicate `ValidUtf8`. Its error value is not modelled: `toStr` panics on it.
- `ByteString.String.WriteChar` states that the appended byte is `LowByte(c)`, defined as `(c as int % 256) as u8`, which is `c as u8`. Only the int-to-`bv8` round trip (that this byte read back as an integer is `c as int % 256`) has no lemma, because that conversion is too costly for the solver. Unicode is not modelled.
- The numeric `toString` conversions used by `testConversion` are not modelled. `hashmap`, `ctypes`, `src/io.rs` (console output through `printf`) and `src/lib.rs` (module declarations) are not modelled either.
- `StreamSeek` has no implementation in the source and is not modelled. Neither are file-backed streams.
- `Hash.MurmurHash64A`: the tail is specified as the per-byte xor into lanes `8j`, as in the original switch. It is not restated as a single xor with the little-endian tail word.
- `Hash.MurmurHash64A` splits the block loop's body into `ReadBlock` and `MixWord`, and the whole tail loop into `XorTail`.
- `Hash.HashBytes` assumes `usize` is 64 bits wide, so `as usize` is the identity. On a 32-bit target `hash()` would keep only the low 32 bits of the result, and that is not modelled.
