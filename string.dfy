/**
 * The byte string `String`: a `Vec<u8>` of bytes that the crate builds
 * from `&str` text and reads back as `&str`.
 */
module ByteString {
  import opened Wrappers
  import opened Utf8
  import opened Vector
  import opened Hash

  class String {
    var data: Vec<u8>
    ghost var Repr: set<object>

    /** `String` wraps a `Vec<u8>` just as `MemoryStreamWriter` does, so their invariants coincide. */
    ghost predicate Valid()
      reads this, Repr
      ensures Valid() ==> this in Repr
    {
      this in Repr && data in Repr && data.Repr <= Repr && this !in data.Repr &&
      Repr == {this} + data.Repr &&
      data.Valid()
    }

    /** The bytes held, in order. */
    ghost function Bytes(): seq<u8>
      reads this, data
    {
      data.Contents
    }

    /** `new`: the empty string. */
    constructor New()
      ensures Valid() && fresh(Repr)
      ensures Bytes() == []
    {
      data := new Vec.New();
      new;
      Repr := {this} + data.Repr;
    }

    /** `from`: pushes the bytes of `s` one by one. */
    constructor From(s: Str)
      ensures Valid() && fresh(Repr)
      ensures Bytes() == s
    {
      data := new Vec.New();
      new;
      Repr := {this} + data.Repr;
      for j := 0 to |s|
        invariant Valid() && fresh(Repr)
        invariant Bytes() == s[..j]
      {
        data.PushBack(s[j]);
        Repr := {this} + data.Repr;
        assert s[..j + 1] == s[..j] + [s[j]];
      }
      assert s[..|s|] == s;
    }

    /** `asArray`: the byte slice. */
    function AsArray(): (s: seq<u8>)
      requires Valid()
      reads Repr
      ensures s == Bytes()
    {
      data.AsArray()
    }

    /** `toStr`: the bytes as text; `from_utf8(..).expect(..)` panics unless they are valid UTF-8. */
    function ToStr(): (s: Str)
      requires Valid() && ValidUtf8(Bytes())
      reads Repr
      ensures s == Bytes()
    {
      data.AsArray()
    }

    /** `add`: one more byte at the end. */
    method Add(u: u8)
      requires Valid()
      modifies Repr
      ensures Valid() && fresh(Repr - old(Repr))
      ensures Bytes() == old(Bytes()) + [u]
    {
      data.PushBack(u);
      Repr := {this} + data.Repr;
    }

    /** `Append<&str>`: pushes the bytes of `s` one by one; text stays text. */
    method AppendStr(s: Str)
      requires Valid()
      modifies Repr
      ensures Valid() && fresh(Repr - old(Repr))
      ensures Bytes() == old(Bytes()) + s
      ensures old(ValidUtf8(Bytes())) ==> ValidUtf8(Bytes())
    {
      for j := 0 to |s|
        invariant Valid() && fresh(Repr - old(Repr))
        invariant Bytes() == old(Bytes()) + s[..j]
      {
        data.PushBack(s[j]);
        Repr := {this} + data.Repr;
        assert s[..j + 1] == s[..j] + [s[j]];
      }
      assert s[..|s|] == s;
      if ValidUtf8(old(Bytes())) {
        ValidUtf8Concat(old(Bytes()), s);
      }
    }

    /**
     * `Append<&String>`: pushes the bytes of `other.toStr()`, so `other` must
     * hold valid UTF-8. Rust's borrows keep `other` apart from `self`.
     */
    method AppendString(other: String)
      requires Valid() && other.Valid() && ValidUtf8(other.Bytes())
      requires Repr !! other.Repr
      modifies Repr
      ensures Valid() && fresh(Repr - old(Repr))
      ensures Bytes() == old(Bytes()) + old(other.Bytes())
      ensures old(ValidUtf8(Bytes())) ==> ValidUtf8(Bytes())
    {
      var s := other.ToStr();
      for j := 0 to |s|
        invariant Valid() && fresh(Repr - old(Repr))
        invariant Bytes() == old(Bytes()) + s[..j]
      {
        data.PushBack(s[j]);
        Repr := {this} + data.Repr;
        assert s[..j + 1] == s[..j] + [s[j]];
      }
      assert s[..|s|] == s;
      if ValidUtf8(old(Bytes())) {
        ValidUtf8Concat(old(Bytes()), s);
      }
    }

    /** `PartialEq<String>`: equal lengths, then byte by byte until the first difference. */
    method Eq(other: String) returns (r: bool)
      requires Valid() && other.Valid()
      ensures r <==> Bytes() == other.Bytes()
    {
      var ls := data.Len();
      var lo := other.data.Len();
      if ls != lo {
        return false;
      }
      for i := 0 to data.Len()
        invariant Bytes()[..i] == other.Bytes()[..i]
      {
        if data.Get(i) != other.data.Get(i) {
          return false;
        }
        assert Bytes()[..i + 1] == Bytes()[..i] + [Bytes()[i]];
        assert other.Bytes()[..i + 1] == other.Bytes()[..i] + [other.Bytes()[i]];
      }
      assert Bytes() == Bytes()[..ls] && other.Bytes() == other.Bytes()[..lo];
      return true;
    }

    /** `PartialEq<&str>`: the same loop against the bytes of `other`. */
    method EqStr(other: Str) returns (r: bool)
      requires Valid()
      ensures r <==> Bytes() == other
    {
      var ob := other;
      var ls := data.Len();
      var lo := |ob|;
      if ls != lo {
        return false;
      }
      for i := 0 to data.Len()
        invariant Bytes()[..i] == ob[..i]
      {
        if data.Get(i) != ob[i] {
          return false;
        }
        assert Bytes()[..i + 1] == Bytes()[..i] + [Bytes()[i]];
        assert ob[..i + 1] == ob[..i] + [ob[i]];
      }
      assert Bytes() == Bytes()[..ls] && ob == ob[..lo];
      return true;
    }

    /** `clone`: `String::from(self.toStr())`, so the bytes must be valid UTF-8. */
    method Clone() returns (c: String)
      requires Valid() && ValidUtf8(Bytes())
      ensures c.Valid() && fresh(c.Repr)
      ensures c.Bytes() == Bytes()
    {
      c := new String.From(ToStr());
    }

    /** `fmt::Write::write_str`: appends `s` and never fails. */
    method WriteStr(s: Str) returns (r: Result<()>)
      requires Valid()
      modifies Repr
      ensures Valid() && fresh(Repr - old(Repr))
      ensures Bytes() == old(Bytes()) + s
      ensures r == Ok(())
    {
      AppendStr(s);
      return Ok(());
    }

    /** `fmt::Write::write_char`: appends the low byte of `c` (`c as u8`) and never fails. */
    method WriteChar(c: char) returns (r: Result<()>)
      requires Valid()
      modifies Repr
      ensures Valid() && fresh(Repr - old(Repr))
      ensures Bytes() == old(Bytes()) + [LowByte(c)]
      ensures r == Ok(())
    {
      Add(LowByte(c));
      return Ok(());
    }

    /** `Hash for String`: the hash of the byte slice. */
    method Hash() returns (h: bv64)
      requires Valid()
      ensures h == Murmur64A(Bytes(), HashSeed)
    {
      h := HashBytes(AsArray());
    }
  }

  /** `==` on strings is reflexive and symmetric. */
  method CompareBoth(a: String, b: String) returns (ab: bool, ba: bool, aa: bool)
    requires a.Valid() && b.Valid()
    ensures ab == ba && aa
    ensures ab <==> a.Bytes() == b.Bytes()
  {
    ab := a.Eq(b);
    ba := b.Eq(a);
    aa := a.Eq(a);
  }

  /**
   * A string built from text, and its clone, compare equal to each other and
   * to the text, and hash alike.
   */
  method CloneRoundTrip(s: Str) returns (eq: bool, eqText: bool, h1: bv64, h2: bv64)
    ensures eq && eqText
    ensures h1 == h2 == Murmur64A(s, HashSeed)
  {
    var a := new String.From(s);
    var c := a.Clone();
    eq := c.Eq(a);
    eqText := c.EqStr(s);
    h1 := a.Hash();
    h2 := c.Hash();
  }

  /** `c as u8`: the low eight bits of the scalar value. */
  function LowByte(c: char): u8
  {
    (c as int % 256) as u8
  }
}
