/** The cursor over a buffer of bytes. */
module Cursors {
  import opened Words
  import opened ByteOrder

  /** The n-byte word at an offset, in the given byte order. */
  function Word(o: Order, bytes: seq<byte>, off: nat, n: nat): nat
    requires off + n <= |bytes|
  {
    Value(o, bytes[off..off + n])
  }

  /** Where the C string at an offset ends: its NUL, or the end of the buffer. */
  function StringEnd(bytes: seq<byte>, off: nat): (end: nat)
    requires off <= |bytes|
    ensures off <= end <= |bytes|
    ensures 0 !in bytes[off..end]
    ensures end < |bytes| ==> bytes[end] == 0
    decreases |bytes| - off
  {
    if off == |bytes| then off
    else if bytes[off] == 0 then off
    else
      var end := StringEnd(bytes, off + 1);
      assert bytes[off..end] == [bytes[off]] + bytes[off + 1..end];
      end
  }

  /** A NUL lies ahead and the first one is at `end`: there is only one such end. */
  lemma {:induction false} StringEndUnique(bytes: seq<byte>, off: nat, end: nat)
    requires off <= end < |bytes| && bytes[end] == 0 && 0 !in bytes[off..end]
    ensures StringEnd(bytes, off) == end
    decreases end - off
  {
    if off < end {
      assert bytes[off..end][0] != 0;
      assert bytes[off + 1..end] == bytes[off..end][1..];
      StringEndUnique(bytes, off + 1, end);
    }
  }

  /** The bytes of `s` stand at an offset. */
  predicate Holds(bytes: seq<byte>, off: nat, s: seq<byte>) {
    off + |s| <= |bytes| && bytes[off..off + |s|] == s
  }

  lemma HoldsConcat(bytes: seq<byte>, off: nat, s: seq<byte>, t: seq<byte>)
    ensures Holds(bytes, off, s + t) <==> Holds(bytes, off, s) && Holds(bytes, off + |s|, t)
  {
    if off + |s| + |t| <= |bytes| {
      var w := bytes[off..off + |s| + |t|];
      assert w[..|s|] == bytes[off..off + |s|];
      assert w[|s|..] == bytes[off + |s|..off + |s| + |t|];
      assert w == w[..|s|] + w[|s|..];
      assert (s + t)[..|s|] == s && (s + t)[|s|..] == t;
    }
  }

  class Cursor {
    const data: array<byte>
    const decoder: Decoder
    var off: nat

    ghost predicate Valid()
      reads this
    {
      off <= data.Length < TWO_63
    }

    constructor (data: array<byte>, decoder: Decoder)
      requires data.Length < TWO_63
      ensures Valid() && this.data == data && this.decoder == decoder && off == 0
    {
      this.data := data;
      this.decoder := decoder;
      off := 0;
    }

    predicate Ended()
      reads this
    {
      off >= data.Length
    }

    /** The sum is a 64-bit one: a size near 2^64 passes the test. */
    predicate Avail(s: nat)
      reads this
    {
      U64(off + s) <= data.Length
    }

    /** A size near 2^64 moves the cursor back, but never outside the buffer. */
    method Skip(s: nat) returns (ok: bool)
      requires Valid()
      modifies `off
      ensures Valid()
      ensures ok <==> U64(old(off) + s) <= data.Length
      ensures off == if ok then U64(old(off) + s) else old(off)
    {
      ok := Avail(s);
      if ok {
        off := U64(off + s);
      }
    }

    method Move(o: nat) returns (ok: bool)
      requires Valid()
      modifies `off
      ensures Valid()
      ensures ok <==> o <= data.Length
      ensures off == if ok then o else old(off)
    {
      ok := o <= data.Length;
      if ok {
        off := o;
      }
    }

    method Finish()
      requires Valid()
      modifies `off
      ensures Valid() && Ended() && off == data.Length
    {
      off := data.Length;
    }

    /** `read(size, buf)`: the block starts at the cursor. A block asked for at the end of the
        buffer fails the ASSERT of `at`, even an empty one; a size that does not wrap gives a
        block inside the buffer. */
    method ReadBlock(size: nat) returns (res: Result<bool>, start: nat)
      requires Valid()
      modifies `off
      ensures Valid() && start == old(off)
      ensures res == if U64(old(off) + size) > data.Length then Ok(false)
                     else if old(off) == data.Length then Fail(Undefined)
                     else Ok(true)
      ensures off == if res == Ok(true) then U64(old(off) + size) else old(off)
      ensures res == Ok(true) && old(off) + size < TWO_64 ==> start + size <= data.Length
    {
      start := off;
      if !Avail(size) {
        return Ok(false), start;
      }
      if off >= data.Length {
        return Fail(Undefined), start;
      }
      off := U64(off + size);
      return Ok(true), start;
    }

    /** The fixed-width reads. A failed read changes nothing. */
    method Read(n: nat) returns (ok: bool, v: nat)
      requires Valid() && Width(n)
      modifies `off
      ensures Valid()
      ensures ok <==> old(off) + n <= data.Length
      ensures ok ==> off == old(off) + n
      ensures ok ==> v == Word(decoder.FileOrder(), data[..], old(off), n)
      ensures ok ==> n == 1 ==> v == data[old(off)]
      ensures !ok ==> off == old(off)
    {
      ok, v := Avail(n), 0;
      if ok {
        v := decoder.Get(data[off..off + n]);
        GetIsPositional(decoder, data[off..off + n]);
        assert data[..][off..off + n] == data[off..off + n];
        if n == 1 {
          ByteValue(decoder.FileOrder(), data[off]);
          assert data[off..off + n] == [data[off]];
        }
        off := off + n;
      }
    }

    /** `read(cstring&)`: succeeds exactly when a NUL lies ahead and stops one past the
        first; otherwise the cursor is left at the end. */
    method ReadString() returns (ok: bool, s: seq<byte>)
      requires Valid()
      modifies `off
      ensures Valid()
      ensures ok <==> StringEnd(data[..], old(off)) < data.Length
      ensures ok ==> s == data[old(off)..StringEnd(data[..], old(off))]
      ensures off == if ok then StringEnd(data[..], old(off)) + 1 else data.Length
    {
      if !Avail(1) {
        return false, [];
      }
      var start := off;
      while Avail(1)
        invariant Valid() && start <= off
        invariant StringEnd(data[..], off) == StringEnd(data[..], start)
        decreases data.Length - off
      {
        var b := data[off];
        off := off + 1;
        if b == 0 {
          return true, data[start..off - 1];
        }
      }
      return false, [];
    }

    /** The fixed-width writes: a native store. A failed write changes nothing. */
    method Write(n: nat, v: nat) returns (ok: bool)
      requires Valid() && Width(n)
      modifies `off, data
      ensures Valid()
      ensures ok <==> old(off) + n <= data.Length
      ensures ok ==> off == old(off) + n
      ensures ok ==> data[..] == old(data[..off]) + BytesOf(decoder.host, v, n) + old(data[off + n..])
      ensures !ok ==> off == old(off) && data[..] == old(data[..])
    {
      ok := Avail(n);
      if ok {
        var s := decoder.Set(n, v);
        CopyInto(data, off, s);
        off := off + n;
      }
    }

    /** The string writes: the characters and a NUL are stored, but the cursor only steps
        over the characters. */
    method WriteString(s: seq<byte>) returns (ok: bool)
      requires Valid() && |s| < TWO_63
      modifies `off, data
      ensures Valid()
      ensures ok <==> old(off) + |s| + 1 <= data.Length
      ensures ok ==> off == old(off) + |s|
      ensures ok ==> data[..] == old(data[..off]) + (s + [0]) + old(data[off + |s| + 1..])
      ensures !ok ==> off == old(off) && data[..] == old(data[..])
    {
      ok := Avail(|s| + 1);
      if ok {
        CopyInto(data, off, s + [0]);
        off := off + |s|;
      }
    }
  }

  lemma ByteValue(o: Order, b: byte)
    ensures Value(o, [b]) == b
  {
    assert [b][1..] == [] && [b][..0] == [];
  }

  /** `array::copy`. */
  method CopyInto(data: array<byte>, off: nat, s: seq<byte>)
    requires off + |s| <= data.Length
    modifies data
    ensures data[..] == old(data[..off]) + s + old(data[off + |s|..])
  {
    for i := 0 to |s|
      invariant data[..off] == old(data[..off])
      invariant data[off..off + i] == s[..i]
      invariant data[off + i..] == old(data[off + i..])
    {
      data[off + i] := s[i];
    }
    assert data[..] == data[..off] + data[off..off + |s|] + data[off + |s|..];
  }
}
