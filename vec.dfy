/**
 * The growable array `Vec<T>`: a heap buffer `elements` of `capacity` slots
 * whose first `count` slots hold the contents.
 *
 * The buffer is a Dafny `array<T>` whose length is the capacity; the null
 * pointer of an empty vector is the empty array. Fresh buffers come from
 * `calloc`, so unused slots hold the zero value: `T(0)` stands for that.
 */
module Vector {
  import opened Wrappers

  /** The capacity `pushBack` moves to when the buffer is full: 16 for an empty one, twice the old size otherwise. */
  function Grow(capacity: nat): (c: nat)
    ensures c > capacity
  {
    if capacity == 0 then 16 else capacity * 2
  }

  /** The capacity after `n` calls of `pushBack` on `Vec::new()`. */
  function CapacityAfter(n: nat): nat {
    if n == 0 then 0
    else
      var c := CapacityAfter(n - 1);
      if n - 1 >= c then Grow(c) else c
  }

  /** `c` is 16 times a power of two. */
  ghost predicate IsGrownSize(c: nat) {
    c == 16 || (c > 16 && c % 2 == 0 && IsGrownSize(c / 2))
  }

  /**
   * Growth keeps room for every element pushed, starts at 16, and never
   * more than doubles what the elements need.
   */
  lemma {:induction false} CapacityAfterBounds(n: nat)
    ensures n <= CapacityAfter(n)
    ensures 1 <= n <= 16 ==> CapacityAfter(n) == 16
    ensures n > 16 ==> CapacityAfter(n) < 2 * n
    ensures n > 0 ==> IsGrownSize(CapacityAfter(n))
  {
    if n > 0 {
      CapacityAfterBounds(n - 1);
      var c := CapacityAfter(n - 1);
      if n - 1 >= c && c > 0 {
        assert (2 * c) / 2 == c;
      }
    }
  }

  class Vec<T(0)> {
    /** The elements in order: the slice `asArray` returns. */
    ghost var Contents: seq<T>
    ghost var Repr: set<object>

    var elements: array<T>
    var count: nat
    var capacity: nat

    ghost predicate Valid()
      reads this, Repr
      ensures Valid() ==> this in Repr
    {
      Repr == {this, elements} &&
      count <= capacity == elements.Length &&
      Contents == elements[..count]
    }

    /** `new`: no buffer at all. */
    constructor New()
      ensures Valid() && fresh(Repr)
      ensures Contents == [] && capacity == 0
    {
      elements := new T[0];
      count, capacity := 0, 0;
      Contents := [];
      Repr := {this, elements};
    }

    /** `withCapacity(c)`: `new()` when `c` is 0, otherwise an empty vector with a `c`-slot buffer. */
    constructor WithCapacity(c: nat)
      ensures Valid() && fresh(Repr)
      ensures Contents == [] && capacity == c
    {
      if c == 0 {
        elements := new T[0];
        count, capacity := 0, 0;
      } else {
        elements := new T[c];
        count, capacity := 0, c;
      }
      Contents := [];
      Repr := {this, elements};
    }

    /** `asArray`: the first `count` slots. */
    function AsArray(): (s: seq<T>)
      requires Valid()
      reads Repr
      ensures s == Contents && |s| == count
    {
      elements[..count]
    }

    /** `len`. */
    function Len(): (n: nat)
      requires Valid()
      reads Repr
      ensures n == |Contents|
    {
      count
    }

    /** `get` and `Index`: the element at `idx`, which must be in bounds (the slice index panics otherwise). */
    function Get(idx: nat): (x: T)
      requires Valid() && idx < |Contents|
      reads Repr
      ensures x == Contents[idx]
    {
      elements[idx]
    }

    /** `last`: the final element, if any. */
    function Last(): (r: Option<T>)
      requires Valid()
      reads Repr
      ensures r == None <==> Contents == []
      ensures r != None ==> r.value == Contents[|Contents| - 1]
    {
      if count == 0 then None else Some(Get(count - 1))
    }

    /** `pushBack`: grows a full buffer (copying the old slots across), then stores `t` after the last element. */
    method PushBack(t: T)
      requires Valid()
      modifies Repr
      ensures Valid() && fresh(Repr - old(Repr))
      ensures Contents == old(Contents) + [t]
      ensures capacity == if old(count) >= old(capacity) then Grow(old(capacity)) else old(capacity)
    {
      if count >= capacity {
        var newSize := if capacity == 0 then 16 else capacity * 2;
        var newPtr := new T[newSize];
        capacity := newSize;
        for i := 0 to count
          modifies newPtr
          invariant newPtr[..i] == elements[..i]
        {
          newPtr[i] := elements[i];
        }
        elements := newPtr;
        Repr := {this, elements};
      }
      elements[count] := t;
      count := count + 1;
      Contents := Contents + [t];
    }

    /** `pop`: moves the final element out, leaving the buffer as it is. */
    method Pop() returns (r: Option<T>)
      requires Valid()
      modifies Repr
      ensures Valid() && Repr == old(Repr)
      ensures r == old(Last())
      ensures old(Contents) == [] ==> Contents == []
      ensures old(Contents) != [] ==> Contents == old(Contents)[..|old(Contents)| - 1]
      ensures capacity == old(capacity)
    {
      if count == 0 {
        r := None;
      } else {
        var nc := count - 1;
        var v := Get(nc);
        count := count - 1;
        Contents := elements[..count];
        r := Some(v);
      }
    }

    /** `getMut` and `IndexMut`, used for a store: `v[idx] = x`; `idx` must be in bounds. */
    method SetAt(idx: nat, x: T)
      requires Valid() && idx < |Contents|
      modifies Repr
      ensures Valid() && Repr == old(Repr)
      ensures Contents == old(Contents)[idx := x]
      ensures capacity == old(capacity)
    {
      elements[idx] := x;
      Contents := Contents[idx := x];
    }

    /** `VecAppend::append`: pushes the elements of `arr` one by one. */
    method Append(arr: seq<T>)
      requires Valid()
      modifies Repr
      ensures Valid() && fresh(Repr - old(Repr))
      ensures Contents == old(Contents) + arr
    {
      for j := 0 to |arr|
        invariant Valid() && fresh(Repr - old(Repr))
        invariant Contents == old(Contents) + arr[..j]
      {
        PushBack(arr[j]);
        assert arr[..j + 1] == arr[..j] + [arr[j]];
      }
      assert arr[..|arr|] == arr;
    }

    /** `clone`: a new vector built by pushing every element in order. */
    method Clone() returns (c: Vec<T>)
      requires Valid()
      ensures c.Valid() && fresh(c.Repr)
      ensures c.Contents == Contents
    {
      c := new Vec.New();
      for i := 0 to count
        invariant c.Valid() && fresh(c.Repr)
        invariant c.Contents == Contents[..i]
      {
        var v := Get(i);
        c.PushBack(v);
        assert Contents[..i + 1] == Contents[..i] + [v];
      }
      assert Contents[..count] == Contents;
    }
  }

  /**
   * `testIter`: pushes 0 .. n-1 onto a new vector, reading each element back
   * as it goes; the slice read at the end is the range, and the buffer has
   * grown exactly as `CapacityAfter` says.
   */
  method PushRange(n: nat) returns (s: seq<int>, capacity: nat)
    ensures s == seq(n, j => j)
    ensures capacity == CapacityAfter(n)
  {
    var v := new Vec<int>.New();
    for i := 0 to n
      invariant v.Valid() && fresh(v.Repr)
      invariant v.Contents == seq(i, j => j)
      invariant v.capacity == CapacityAfter(i)
    {
      v.PushBack(i);
      assert v.Get(i) == i;
    }
    s := v.AsArray();
    capacity := v.capacity;
  }

  /**
   * `testPopDestructorPush`: `n` pushes, `n` pops, `n` pushes again. The
   * pops empty the vector and the second round of pushes fits in the buffer
   * the first round grew.
   */
  method PushPopPush(n: nat) returns (lenFull: nat, lenEmpty: nat, lenRefilled: nat, grown: nat, refilled: nat)
    ensures lenFull == n && lenEmpty == 0 && lenRefilled == n
    ensures grown == refilled == CapacityAfter(n)
  {
    var v := new Vec<int>.New();
    for i := 0 to n
      invariant v.Valid() && fresh(v.Repr)
      invariant |v.Contents| == i && v.capacity == CapacityAfter(i)
    {
      v.PushBack(i);
    }
    lenFull, grown := v.Len(), v.capacity;
    for i := 0 to n
      invariant v.Valid() && fresh(v.Repr)
      invariant |v.Contents| == n - i && v.capacity == grown
    {
      var _ := v.Pop();
    }
    lenEmpty := v.Len();
    CapacityAfterBounds(n);
    for i := 0 to n
      invariant v.Valid() && fresh(v.Repr)
      invariant |v.Contents| == i && v.capacity == grown
    {
      v.PushBack(i);
    }
    lenRefilled, refilled := v.Len(), v.capacity;
  }
}
