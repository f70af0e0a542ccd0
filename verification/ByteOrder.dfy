/** Endianness: native loads, the SWAP and ENDIAN macros, and what a value read from
    a file means. */
module ByteOrder {
  import opened Words
  import opened Bits

  datatype Order = Little | Big

  const ELFDATA2LSB: byte := 1
  const ELFDATA2MSB: byte := 2

  /** The value of a string of bytes in positional notation. */
  function Value(o: Order, s: seq<byte>): nat
    decreases |s|
  {
    if s == [] then 0
    else match o
      case Little => s[0] + 0x100 * Value(o, s[1..])
      case Big => Value(o, s[..|s| - 1]) * 0x100 + s[|s| - 1]
  }

  /** The n bytes of a value. */
  function BytesOf(o: Order, v: nat, n: nat): (s: seq<byte>)
    ensures |s| == n
  {
    if n == 0 then []
    else match o
      case Little => [v % 0x100] + BytesOf(o, v / 0x100, n - 1)
      case Big => BytesOf(o, v / 0x100, n - 1) + [v % 0x100]
  }

  function Reverse(s: seq<byte>): (r: seq<byte>)
    ensures |r| == |s|
  {
    seq(|s|, i requires 0 <= i < |s| => s[|s| - 1 - i])
  }

  lemma {:induction false} ValueReverse(s: seq<byte>)
    ensures Value(Big, Reverse(s)) == Value(Little, s)
    ensures Value(Little, Reverse(s)) == Value(Big, s)
  {
    if s != [] {
      var n := |s| - 1;
      ValueReverse(s[1..]);
      ValueReverse(s[..n]);
      assert Reverse(s)[..n] == Reverse(s[1..]);
      assert Reverse(s)[1..] == Reverse(s[..n]);
    }
  }

  /** The n-byte words are exactly the values below 2^(8n). */
  lemma {:induction false} ValueBound(o: Order, s: seq<byte>)
    ensures Value(o, s) < Pow2(8 * |s|)
  {
    if s != [] {
      var t := if o == Little then s[1..] else s[..|s| - 1];
      ValueBound(o, t);
      Pow2Byte(|t|);
    }
  }

  lemma Pow2Byte(n: nat)
    ensures Pow2(8 * (n + 1)) == 0x100 * Pow2(8 * n)
  {
    ShlShl(1, 8 * n, 8);
    ShlConstants(Pow2(8 * n));
  }

  lemma {:induction false} ValueOfBytes(o: Order, v: nat, n: nat)
    requires v < Pow2(8 * n)
    ensures Value(o, BytesOf(o, v, n)) == v
  {
    if n > 0 {
      Pow2Byte(n - 1);
      ValueOfBytes(o, v / 0x100, n - 1);
      var s := BytesOf(o, v, n);
      if o == Little {
        assert s[1..] == BytesOf(o, v / 0x100, n - 1);
      } else {
        assert s[..n - 1] == BytesOf(o, v / 0x100, n - 1);
      }
    }
  }

  /** A string of bytes with one more at the least significant end. */
  function Extend(o: Order, t: seq<byte>, b: byte): seq<byte> {
    match o case Little => [b] + t case Big => t + [b]
  }

  lemma ValueExtend(o: Order, t: seq<byte>, b: byte)
    ensures Value(o, Extend(o, t, b)) == 0x100 * Value(o, t) + b
  {
    assert ([b] + t)[1..] == t && (t + [b])[..|t|] == t;
  }

  lemma BytesExtend(o: Order, w: nat, v: nat, b: byte, n: nat)
    requires w == 0x100 * v + b
    ensures BytesOf(o, w, n + 1) == Extend(o, BytesOf(o, v, n), b)
  {
    assert w % 0x100 == b && w / 0x100 == v;
  }

  lemma {:induction false} BytesOfValue(o: Order, s: seq<byte>)
    ensures BytesOf(o, Value(o, s), |s|) == s
    decreases |s|
  {
    if s != [] {
      hide Value, BytesOf;
      var n := |s| - 1;
      var t := if o == Little then s[1..] else s[..n];
      var b := if o == Little then s[0] else s[n];
      assert s == Extend(o, t, b);
      BytesOfValue(o, t);
      ValueExtend(o, t, b);
      BytesExtend(o, Value(o, s), Value(o, t), b, n);
    }
  }

  /** The word of two adjacent strings of bytes. */
  lemma {:induction false} ValueConcat(a: seq<byte>, b: seq<byte>)
    ensures Value(Little, a + b) == Value(Little, a) + Shl(Value(Little, b), 8 * |a|)
  {
    var v := Value(Little, b);
    if a == [] {
      assert a + b == b;
    } else {
      var k := 8 * |a[1..]|;
      ValueConcat(a[1..], b);
      assert (a + b)[1..] == a[1..] + b;
      ShlShl(v, k, 8);
      ShlConstants(Shl(v, k));
    }
  }

  // ----- the macros of common.h

  function Swap2(x: nat): nat {
    BitOr(Shl(BitAnd(x, 0xFF), 8), Shr(BitAnd(x, 0xFF00), 8))
  }

  function Swap4(x: nat): nat {
    BitOr(Shl(Swap2(BitAnd(x, 0xFFFF)), 16), Swap2(Shr(BitAnd(x, 0xFFFF_0000), 16)))
  }

  function Swap8(x: nat): nat {
    BitOr(Shl(Swap4(BitAnd(x, 0xFFFF_FFFF)), 32), Swap4(BitAnd(Shr(x, 32), 0xFFFF_FFFF)))
  }

  /** SWAP2, SWAP4 or SWAP8 by operand width; a single byte is never swapped. */
  function Swap(n: nat, x: nat): nat {
    match n
    case 2 => Swap2(x)
    case 4 => Swap4(x)
    case 8 => Swap8(x)
    case _ => x
  }

  predicate Width(n: nat) {
    n == 1 || n == 2 || n == 4 || n == 8
  }

  /** One level of the SWAP macros, for operands of 16, 32 and 64 bits. */
  lemma SwapStep2(x: nat, lo: nat, hi: nat)
    requires lo < Pow2(8) && hi < Pow2(8) && x == lo + Shl(hi, 8)
    ensures Swap2(x) == BitOr(Shl(lo, 8), hi)
  {
    LowHalf(x, lo, hi, 0xFF, 8);
    HighHalf(x, lo, hi, 0xFF, 0xFF00, 8);
    FullMask(hi, 0xFF, 8);
  }

  lemma SwapStep4(x: nat, lo: nat, hi: nat)
    requires lo < Pow2(16) && hi < Pow2(16) && x == lo + Shl(hi, 16)
    ensures Swap4(x) == BitOr(Shl(Swap2(lo), 16), Swap2(hi))
  {
    ShlConstants(1);
    ShlConstants(0xFFFF);
    LowHalf(x, lo, hi, 0xFFFF, 16);
    HighHalf(x, lo, hi, 0xFFFF, 0xFFFF_0000, 16);
    FullMask(hi, 0xFFFF, 16);
  }

  lemma SwapStep8(x: nat, lo: nat, hi: nat)
    requires lo < Pow2(32) && hi < Pow2(32) && x == lo + Shl(hi, 32)
    ensures Swap8(x) == BitOr(Shl(Swap4(lo), 32), Swap4(hi))
  {
    Shl32(1);
    LowHalf(x, lo, hi, 0xFFFF_FFFF, 32);
    FullMask(hi, 0xFFFF_FFFF, 32);
  }

  lemma SwapStep(h: nat, lo: nat, hi: nat)
    requires h == 1 || h == 2 || h == 4
    requires lo < Pow2(8 * h) && hi < Pow2(8 * h)
    ensures Swap(2 * h, lo + Shl(hi, 8 * h)) == BitOr(Shl(Swap(h, lo), 8 * h), Swap(h, hi))
  {
    hide Swap2, Swap4, Swap8, BitOr, Shl;
    if h == 1 {
      SwapStep2(lo + Shl(hi, 8), lo, hi);
    } else if h == 2 {
      SwapStep4(lo + Shl(hi, 16), lo, hi);
    } else {
      SwapStep8(lo + Shl(hi, 32), lo, hi);
    }
  }

  lemma SwapJoin(h: nat, a: seq<byte>, b: seq<byte>)
    requires h == 1 || h == 2 || h == 4
    requires |a| == |b| == h
    requires Swap(h, Value(Little, a)) == Value(Big, a)
    requires Swap(h, Value(Little, b)) == Value(Big, b)
    ensures Swap(2 * h, Value(Little, a + b)) == Value(Big, a + b)
  {
    hide Swap, BitOr, Value, Shl;
    ValueConcat(a, b);
    ValueBound(Little, a);
    ValueBound(Little, b);
    SwapStep(h, Value(Little, a), Value(Little, b));
    BigConcat(a, b);
    ValueBound(Big, b);
    OrDisjoint(Value(Big, b), Value(Big, a), 8 * h);
  }

  /** SWAPn of a little-endian word is the big-endian word. */
  lemma {:induction false} SwapIsReversal(n: nat, s: seq<byte>)
    requires Width(n) && |s| == n
    ensures Swap(n, Value(Little, s)) == Value(Big, s)
  {
    hide Swap2, Swap4, Swap8;
    if n == 1 {
      assert s[1..] == [] && s[..0] == [];
    } else {
      var h := n / 2;
      var a, b := s[..h], s[h..];
      SwapIsReversal(h, a);
      SwapIsReversal(h, b);
      SwapJoin(h, a, b);
      assert s == a + b;
    }
  }

  lemma BigConcat(a: seq<byte>, b: seq<byte>)
    ensures Value(Big, a + b) == Shl(Value(Big, a), 8 * |b|) + Value(Big, b)
  {
    ValueConcat(Reverse(b), Reverse(a));
    assert Reverse(a + b) == Reverse(b) + Reverse(a);
    ValueReverse(a);
    ValueReverse(b);
    ValueReverse(a + b);
  }

  /** A swapped word is the native word of the reversed bytes. */
  lemma SwapReverses(o: Order, s: seq<byte>)
    requires Width(|s|)
    ensures Swap(|s|, Value(o, s)) == Value(o, Reverse(s))
  {
    hide Swap, Value;
    ValueReverse(s);
    if o == Little {
      SwapIsReversal(|s|, s);
    } else {
      SwapIsReversal(|s|, Reverse(s));
    }
  }

  // ----- decoders

  /** A decoder: the byte order of the host (the BIGENDIAN switch) and EI_DATA of the file. */
  datatype Decoder = Decoder(host: Order, eiData: byte) {

    predicate Native() {
      eiData == match host case Little => ELFDATA2LSB case Big => ELFDATA2MSB
    }

    /** ENDIAN2, ENDIAN4, ENDIAN8; UN_ENDIANn is the same macro. */
    function Fix(n: nat, v: nat): nat {
      if Native() then v else Swap(n, v)
    }

    /** `Buffer::get`: a native load, then `fix`. */
    function Get(s: seq<byte>): nat {
      Fix(|s|, Value(host, s))
    }

    /** `Buffer::set`: a native store, with no `unfix`. */
    function Set(n: nat, v: nat): (s: seq<byte>)
      ensures |s| == n
    {
      BytesOf(host, v, n)
    }

    /** The byte order a read amounts to. */
    function FileOrder(): Order {
      if Native() == host.Little? then Little else Big
    }
  }

  /** What the two orders are: the first byte of a little-endian word weighs least, that of a
      big-endian one most. */
  lemma FirstByteWeighs(b: byte, s: seq<byte>)
    ensures Value(Little, [b] + s) == b + 0x100 * Value(Little, s)
    ensures Value(Big, [b] + s) == Shl(b, 8 * |s|) + Value(Big, s)
  {
    assert ([b] + s)[1..] == s;
    BigConcat([b], s);
    assert [b][..0] == [] && Value(Big, [b]) == b;
  }

  /** FileOrder is the one EI_DATA names, on either host. Any other EI_DATA is read in
      the order opposite to the host's. */
  lemma FileOrderNamesEncoding(d: Decoder)
    ensures d.eiData == 1 ==> d.FileOrder() == Little
    ensures d.eiData == 2 ==> d.FileOrder() == Big
    ensures d.eiData != 1 && d.eiData != 2 ==> d.FileOrder() != d.host
  {
  }

  /** Endian-correct reads: the value read is the positional value of the bytes in
      file order. */
  lemma GetIsPositional(d: Decoder, s: seq<byte>)
    requires Width(|s|)
    ensures d.Get(s) == Value(d.FileOrder(), s)
  {
    hide Swap, Value;
    SwapReverses(d.host, s);
    ValueReverse(s);
  }

  /** Swapping bytes twice restores a word, so `unfix` undoes `fix` and the reverse. */
  lemma FixInvolutive(d: Decoder, n: nat, v: nat)
    requires Width(n) && v < Pow2(8 * n)
    ensures d.Fix(n, v) < Pow2(8 * n)
    ensures d.Fix(n, d.Fix(n, v)) == v
  {
    hide Swap, Value, BytesOf, Shl;
    var s := BytesOf(Little, v, n);
    ValueOfBytes(Little, v, n);
    SwapReverses(Little, s);
    SwapReverses(Little, Reverse(s));
    ValueBound(Little, Reverse(s));
    assert Reverse(Reverse(s)) == s;
  }

  /** Storing the fixed word back reverses the bytes of a foreign file and leaves those of
      a native one. */
  lemma FixInPlace(d: Decoder, s: seq<byte>)
    requires Width(|s|)
    ensures d.Set(|s|, d.Get(s)) == if d.Native() then s else Reverse(s)
  {
    var t := if d.Native() then s else Reverse(s);
    SwapReverses(d.host, s);
    assert d.Get(s) == Value(d.host, t);
    BytesOfValue(d.host, t);
  }

  /** `Buffer::set` does not convert, so `get` after `set` gives the word back exactly when
      the file has the byte order of the host or the word reads the same in both orders. */
  lemma SetThenGet(d: Decoder, n: nat, v: nat)
    requires Width(n) && v < Pow2(8 * n)
    ensures d.Get(d.Set(n, v)) == v <==> d.Native() || Reverse(d.Set(n, v)) == d.Set(n, v)
  {
    var s := d.Set(n, v);
    ValueOfBytes(d.host, v, n);
    if !d.Native() {
      SwapReverses(d.host, s);
      BytesOfValue(d.host, Reverse(s));
    }
  }
}
