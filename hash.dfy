/**
 * MurmurHash2, 64-bit version (MurmurHash64A), in the endian-neutral variant
 * Redis uses: every 8-byte block and the 0-7 byte tail are read
 * little-endian whatever the host byte order. `bv64` arithmetic wraps
 * modulo 2^64, as Rust's `wrapping_mul` does.
 */
module Hash {
  import opened Utf8

  /** The multiplier `m`. */
  const M: bv64 := 0xc6a4a7935bd1e995
  /** The shift `r`. */
  const R: bv7 := 47
  /** The seed `Hash for &[u8]` passes. */
  const HashSeed: bv64 := 0xcae4f57

  // ---------------------------------------------------------------------------
  // Reference definition

  /** Eight bytes as one little-endian word: byte j lands in bits 8j .. 8j+7. */
  function Word8(b0: u8, b1: u8, b2: u8, b3: u8, b4: u8, b5: u8, b6: u8, b7: u8): bv64 {
    (b0 as bv64) | ((b1 as bv64) << 8) | ((b2 as bv64) << 16) | ((b3 as bv64) << 24)
    | ((b4 as bv64) << 32) | ((b5 as bv64) << 40) | ((b6 as bv64) << 48) | ((b7 as bv64) << 56)
  }

  /** An 8-byte block read as a little-endian word. */
  function BlockWord(s: seq<u8>): bv64
    requires |s| == 8
  {
    Word8(s[0], s[1], s[2], s[3], s[4], s[5], s[6], s[7])
  }

  /** `a.wrapping_mul(b)`: the product modulo 2^64. */
  function WrappingMul(a: bv64, b: bv64): bv64 {
    a * b
  }

  /**
   * `a ^ b` where the result is multiplied next. The reference definition
   * and the methods both xor through this function there, so that the
   * verifier matches their products term by term instead of bit by bit.
   */
  function Xor(a: bv64, b: bv64): bv64 {
    a ^ b
  }

  /** `x ^= x >> r`. */
  function XorShift(x: bv64): bv64 {
    x ^ (x >> R)
  }

  /** Mixes one 8-byte block word `k` into the state `h`. */
  function MixBlock(h: bv64, k: bv64): bv64 {
    WrappingMul(Xor(h, WrappingMul(XorShift(WrappingMul(k, M)), M)), M)
  }

  /** The state after mixing every 8-byte block of `s`, first block first. */
  function Blocks(h: bv64, s: seq<u8>): bv64
    requires |s| % 8 == 0
    decreases |s|
  {
    if s == [] then h
    else MixBlock(Blocks(h, s[..|s| - 8]), BlockWord(s[|s| - 8..]))
  }

  /** Byte `b` xored into lane `i` of `h`, bits 8i .. 8i+7. */
  function XorIntoLane(h: bv64, b: u8, i: nat): bv64
    requires i < 7
  {
    if i == 0 then h ^ (b as bv64)
    else if i == 1 then h ^ ((b as bv64) << 8)
    else if i == 2 then h ^ ((b as bv64) << 16)
    else if i == 3 then h ^ ((b as bv64) << 24)
    else if i == 4 then h ^ ((b as bv64) << 32)
    else if i == 5 then h ^ ((b as bv64) << 40)
    else h ^ ((b as bv64) << 48)
  }

  /**
   * Bytes `n - 1` down to 0 of the tail `t`, each xored into its lane: the
   * falling-through `switch (len & 7)` of the reference MurmurHash64A.
   */
  function TailXor(h: bv64, t: seq<u8>, n: nat): bv64
    requires n <= |t| < 8
    decreases n
  {
    if n == 0 then h
    else TailXor(XorIntoLane(h, t[n - 1], n - 1), t, n - 1)
  }

  /** The tail is xored in and multiplied once, unless it is empty. */
  function Tail(h: bv64, t: seq<u8>): bv64
    requires |t| < 8
  {
    if t == [] then h else WrappingMul(TailXor(h, t, |t|), M)
  }

  /** The final avalanche. */
  function Finalize(h: bv64): bv64 {
    XorShift(WrappingMul(XorShift(h), M))
  }

  /** A slice length as `u64`: `n` counted up in wrapping 64-bit arithmetic (lossless for any slice that exists). */
  function LengthWord(n: nat): bv64 {
    if n == 0 then 0 else LengthWord(n - 1) + 1
  }

  /** Where the 8-byte blocks end: `len - (len & 7)`. */
  function BlocksEnd(n: nat): (e: nat)
    ensures e % 8 == 0 && e <= n < e + 8
  {
    n - n % 8
  }

  /** MurmurHash64A of `key` under `seed`. */
  function Murmur64A(key: seq<u8>, seed: bv64): bv64 {
    var end := BlocksEnd(|key|);
    var h0 := Xor(seed, WrappingMul(LengthWord(|key|), M));
    Finalize(Tail(Blocks(h0, key[..end]), key[end..]))
  }

  // ---------------------------------------------------------------------------
  // Properties of the reference definition

  /** The hash separates the empty slice from the one-byte slice "a" under the slice seed. */
  lemma EmptyAndOneByteDiffer()
    ensures Murmur64A([], HashSeed) != Murmur64A([0x61], HashSeed)
  {
    EmptyKeyHash();
    OneByteKeyHash();
  }

  /** The empty slice skips blocks and tail: only the seed is finalized. */
  lemma EmptyKeyHash()
    ensures Murmur64A([], HashSeed) == 0x2021ac09bab11ce0
  {
    assert Murmur64A([], HashSeed) == Finalize(HashSeed) by {
      assert LengthWord(0) == 0 && WrappingMul(0, M) == 0;
    }
    assert Finalize(HashSeed) == 0x2021ac09bab11ce0;
  }

  /** The slice "a" is one tail byte: xored in at bits 0..7, then one multiply. */
  lemma OneByteKeyHash()
    ensures Murmur64A([0x61], HashSeed) == 0xab69b8f5f0518640
  {
    var one: seq<u8> := [0x61];
    assert Murmur64A(one, HashSeed) == Finalize(Tail(Xor(HashSeed, M), one)) by {
      assert one[..0] == [] && one[0..] == one;
      assert LengthWord(1) == 1 && WrappingMul(1, M) == M;
    }
    assert Tail(Xor(HashSeed, M), one) == 0x002c7771180957df;
    assert Finalize(0x002c7771180957df) == 0xab69b8f5f0518640;
  }

  /** Byte j of a word sits in bits 8j .. 8j+7, independently of host byte order. */
  lemma Word8Bytes(b0: u8, b1: u8, b2: u8, b3: u8, b4: u8, b5: u8, b6: u8, b7: u8)
    ensures Word8(b0, b1, b2, b3, b4, b5, b6, b7) & 0xFF == b0 as bv64
    ensures (Word8(b0, b1, b2, b3, b4, b5, b6, b7) >> 8) & 0xFF == b1 as bv64
    ensures (Word8(b0, b1, b2, b3, b4, b5, b6, b7) >> 16) & 0xFF == b2 as bv64
    ensures (Word8(b0, b1, b2, b3, b4, b5, b6, b7) >> 24) & 0xFF == b3 as bv64
    ensures (Word8(b0, b1, b2, b3, b4, b5, b6, b7) >> 32) & 0xFF == b4 as bv64
    ensures (Word8(b0, b1, b2, b3, b4, b5, b6, b7) >> 40) & 0xFF == b5 as bv64
    ensures (Word8(b0, b1, b2, b3, b4, b5, b6, b7) >> 48) & 0xFF == b6 as bv64
    ensures Word8(b0, b1, b2, b3, b4, b5, b6, b7) >> 56 == b7 as bv64
  {
  }

  /** Different bytes give different words: reading a word loses nothing. */
  lemma Word8Injective(a0: u8, a1: u8, a2: u8, a3: u8, a4: u8, a5: u8, a6: u8, a7: u8,
                       b0: u8, b1: u8, b2: u8, b3: u8, b4: u8, b5: u8, b6: u8, b7: u8)
    ensures Word8(a0, a1, a2, a3, a4, a5, a6, a7) == Word8(b0, b1, b2, b3, b4, b5, b6, b7)
        <==> a0 == b0 && a1 == b1 && a2 == b2 && a3 == b3 && a4 == b4 && a5 == b5 && a6 == b6 && a7 == b7
  {
  }

  /** Two blocks have the same word exactly when they hold the same bytes. */
  lemma BlockWordInjective(s: seq<u8>, u: seq<u8>)
    requires |s| == 8 && |u| == 8
    ensures BlockWord(s) == BlockWord(u) <==> s == u
  {
    Word8Injective(s[0], s[1], s[2], s[3], s[4], s[5], s[6], s[7], u[0], u[1], u[2], u[3], u[4], u[5], u[6], u[7]);
    if BlockWord(s) == BlockWord(u) {
      assert forall j :: 0 <= j < 8 ==> s[j] == u[j];
    }
  }

  /** Block starts step by 8 up to the end of the blocks. */
  lemma NextBlockStart(i: nat, end: nat)
    requires i < end && i % 8 == 0 && end % 8 == 0
    ensures i + 8 <= end && (i + 8) % 8 == 0
  {
  }

  /** Mixing one more block extends the blocks mixed so far. */
  lemma BlocksStep(h0: bv64, key: seq<u8>, i: nat, h: bv64, k: bv64)
    requires i % 8 == 0 && i + 8 <= |key|
    requires h == Blocks(h0, key[..i]) && k == BlockWord(key[i..i + 8])
    ensures Blocks(h0, key[..i + 8]) == MixBlock(h, k)
  {
    assert key[..i + 8][..i] == key[..i] && key[..i + 8][i..] == key[i..i + 8];
  }

  // ---------------------------------------------------------------------------
  // The imperative hash

  /** A shift that keeps a byte inside a 64-bit word. */
  type Shift = s: bv7 | s < 64

  /** The tail loop's tables: byte offset j and bit shift 8j at index j. */
  const Shifts: seq<Shift> := [0, 8, 16, 24, 32, 40, 48]
  const Offsets: seq<nat> := [0, 1, 2, 3, 4, 5, 6]

  /** One round of the tail loop: byte `b` xored into `h`, `s` bits up. */
  function XorLane(h: bv64, b: u8, s: Shift): bv64 {
    h ^ ((b as bv64) << s)
  }

  /** The offsets table is the identity. */
  lemma OffsetAt(i: nat)
    requires i < 7
    ensures Offsets[i] == i
  {
    if i == 0 { assert Offsets[i] == 0; }
    else if i == 1 { assert Offsets[i] == 1; }
    else if i == 2 { assert Offsets[i] == 2; }
    else if i == 3 { assert Offsets[i] == 3; }
    else if i == 4 { assert Offsets[i] == 4; }
    else if i == 5 { assert Offsets[i] == 5; }
    else { assert Offsets[i] == 6; }
  }

  /** Shifting by the table's entry `i` puts a byte into lane `i`. */
  lemma ShiftsAt(h: bv64, b: u8, i: nat)
    requires i < 7
    ensures XorLane(h, b, Shifts[i]) == XorIntoLane(h, b, i)
  {
    if i == 0 { assert Shifts[i] == 0; }
    else if i == 1 { assert Shifts[i] == 8; }
    else if i == 2 { assert Shifts[i] == 16; }
    else if i == 3 { assert Shifts[i] == 24; }
    else if i == 4 { assert Shifts[i] == 32; }
    else if i == 5 { assert Shifts[i] == 40; }
    else { assert Shifts[i] == 48; }
  }

  /** The body of the block loop that reads eight bytes from `i` as a little-endian word. */
  method ReadBlock(key: seq<u8>, i: nat) returns (k: bv64)
    requires i + 8 <= |key|
    ensures k == BlockWord(key[i..i + 8])
  {
    k := key[i + 0] as bv64;
    k := k | ((key[i + 1] as bv64) << 8);
    k := k | ((key[i + 2] as bv64) << 16);
    k := k | ((key[i + 3] as bv64) << 24);
    k := k | ((key[i + 4] as bv64) << 32);
    k := k | ((key[i + 5] as bv64) << 40);
    k := k | ((key[i + 6] as bv64) << 48);
    k := k | ((key[i + 7] as bv64) << 56);
  }

  /** The rest of the block loop's body: mixes the block word `k` into `h`. */
  method MixWord(h0: bv64, k0: bv64) returns (h: bv64)
    ensures h == MixBlock(h0, k0)
  {
    var k := WrappingMul(k0, M);
    k := XorShift(k);
    k := WrappingMul(k, M);
    h := Xor(h0, k);
    h := WrappingMul(h, M);
  }

  /** The block loop: mixes the 8-byte blocks of `key[..end]` into `h0`, first block first. */
  method MixBlocks(key: seq<u8>, end: nat, h0: bv64) returns (h: bv64)
    requires end % 8 == 0 && end <= |key|
    ensures h == Blocks(h0, key[..end])
  {
    h := h0;
    var i := 0;
    while i < end
      invariant i <= end && i % 8 == 0
      invariant h == Blocks(h0, key[..i])
    {
      NextBlockStart(i, end);
      var k := ReadBlock(key, i);
      BlocksStep(h0, key, i, h, k);
      h := MixWord(h, k);
      i := i + 8;
    }
  }

  /** The tail loop: xors the `len` bytes from `end` into their lanes of `h`, last byte first. */
  method XorTail(key: seq<u8>, end: nat, len: nat, h0: bv64) returns (h: bv64)
    requires end + len == |key| && len < 8
    ensures h == TailXor(h0, key[end..], len)
  {
    h := h0;
    ghost var t := key[end..];
    for j := 0 to len
      invariant TailXor(h, t, len - j) == TailXor(h0, t, len)
    {
      var idx := len - j - 1;
      OffsetAt(idx);
      ShiftsAt(h, key[end + Offsets[idx]], idx);
      assert key[end + Offsets[idx]] == t[idx];
      h := XorLane(h, key[end + Offsets[idx]], Shifts[idx]);
    }
  }

  /** `murmurHash64A`: computes the reference hash. */
  method MurmurHash64A(key: seq<u8>, seed: bv64) returns (h: bv64)
    ensures h == Murmur64A(key, seed)
  {
    h := Xor(seed, WrappingMul(LengthWord(|key|), M));
    var len := |key| % 8;
    var end := |key| - len;
    assert end == BlocksEnd(|key|);
    h := MixBlocks(key, end, h);

    ghost var hb := h;
    if len != 0 {
      h := XorTail(key, end, len, h);
      h := WrappingMul(h, M);
    }
    assert h == Tail(hb, key[end..]);

    h := XorShift(h);
    h := WrappingMul(h, M);
    h := XorShift(h);
  }

  /** `Hash for &[u8]`: the hash of a byte slice under the fixed seed. */
  method HashBytes(key: seq<u8>) returns (h: bv64)
    ensures h == Murmur64A(key, HashSeed)
  {
    h := MurmurHash64A(key, HashSeed);
  }
}
