/** LEB128 numbers (section 7.6 of the DWARF 4 standard). */
module Leb128 {
  import opened Words
  import opened Bits
  import opened Cursors

  /** State of the decoding loop: accumulated word, shift, and offset of the next byte. */
  datatype Acc = Acc(r: nat, p: nat, next: nat)

  /** The loop of both readers. The operands are 64 bits wide, so a shift by 64 or more is
      not defined. */
  function Accumulate(bytes: seq<byte>, off: nat, r: nat, p: nat): (a: Result<Acc>)
    requires r < TWO_64
    ensures a.Ok? ==> off < a.value.next <= |bytes| && a.value.r < TWO_64
    ensures a.Fail? ==> a.fault == DebugLineError || a.fault == Undefined
    decreases |bytes| - off
  {
    if off >= |bytes| then Fail(DebugLineError)
    else if p >= 64 then Fail(Undefined)
    else
      OrBelow(r, Shl64(bytes[off] % 0x80, p));
      var r' := BitOr(r, Shl64(bytes[off] % 0x80, p));
      if bytes[off] < 0x80 then Ok(Acc(r', p + 7, off + 1))
      else Accumulate(bytes, off + 1, r', p + 7)
  }

  function DecodeU(bytes: seq<byte>, off: nat): (d: Result<(nat, nat)>)
    ensures d.Ok? ==> off < d.value.1 <= |bytes| && d.value.0 < TWO_64
    ensures d.Fail? ==> d.fault == DebugLineError || d.fault == Undefined
  {
    var a :- Accumulate(bytes, off, 0, 0);
    Ok((a.r, a.next))
  }

  /** The pair of shifts that ends the signed reader. */
  function SignExtended(r: nat, p: nat): int {
    if 0 < p < 64 then Shr(I64(Shl64(r, 64 - p)), 64 - p) else I64(r)
  }

  function DecodeS(bytes: seq<byte>, off: nat): (d: Result<(int, nat)>)
    ensures d.Ok? ==> off < d.value.1 <= |bytes|
    ensures d.Fail? ==> d.fault == DebugLineError || d.fault == Undefined
  {
    var a :- Accumulate(bytes, off, 0, 0);
    Ok((SignExtended(a.r, a.p), a.next))
  }

  lemma {:induction false} OrBelow(x: nat, y: nat)
    requires x < TWO_64 && y < TWO_64
    ensures BitOr(x, y) < TWO_64
  {
    Shl63(1);
    OrBound(x, y, 64);
  }

  lemma {:induction false} OrBound(x: nat, y: nat, n: nat)
    requires x < Pow2(n) && y < Pow2(n)
    ensures BitOr(x, y) < Pow2(n)
  {
    if n > 0 {
      OrBound(x / 2, y / 2, n - 1);
    }
  }

  // ----- the loops

  method ReadAccumulated(c: Cursor) returns (res: Result<Acc>)
    requires c.Valid()
    modifies c`off
    ensures c.Valid()
    ensures res == Accumulate(c.data[..], old(c.off), 0, 0)
    ensures res.Ok? ==> c.off == res.value.next
  {
    var r: nat, p: nat, more := 0, 0, true;
    while more
      invariant c.Valid() && r < TWO_64
      invariant more ==> Accumulate(c.data[..], old(c.off), 0, 0) == Accumulate(c.data[..], c.off, r, p)
      invariant !more ==> Accumulate(c.data[..], old(c.off), 0, 0) == Ok(Acc(r, p, c.off))
      decreases more, c.data.Length - c.off
    {
      var ok, b := c.Read(1);
      if !ok {
        return Fail(DebugLineError);
      }
      if p >= 64 {
        return Fail(Undefined);
      }
      OrBelow(r, Shl64(b % 0x80, p));
      r := BitOr(r, Shl64(b % 0x80, p));
      p := p + 7;
      more := b >= 0x80;
    }
    return Ok(Acc(r, p, c.off));
  }

  method ReadLEB128U(c: Cursor) returns (res: Result<nat>)
    requires c.Valid()
    modifies c`off
    ensures c.Valid()
    ensures var d := DecodeU(c.data[..], old(c.off));
            match res
            case Ok(v) => d == Ok((v, c.off))
            case Fail(f) => d == Fail(f)
  {
    var a :- ReadAccumulated(c);
    return Ok(a.r);
  }

  method ReadLEB128S(c: Cursor) returns (res: Result<int>)
    requires c.Valid()
    modifies c`off
    ensures c.Valid()
    ensures var d := DecodeS(c.data[..], old(c.off));
            match res
            case Ok(v) => d == Ok((v, c.off))
            case Fail(f) => d == Fail(f)
  {
    var a :- ReadAccumulated(c);
    return Ok(SignExtended(a.r, a.p));
  }

  // ----- what the loops compute

  /** The offset of the byte without continuation bit that ends the number. */
  function LebEnd(bytes: seq<byte>, off: nat): (end: nat)
    requires off <= |bytes|
    ensures off <= end <= |bytes|
    ensures forall i :: off <= i < end ==> bytes[i] >= 0x80
    ensures end < |bytes| ==> bytes[end] < 0x80
    decreases |bytes| - off
  {
    if off == |bytes| || bytes[off] < 0x80 then off else LebEnd(bytes, off + 1)
  }

  /** The sum of the 7-bit groups, least significant first. */
  function GroupSum(s: seq<byte>): (v: nat)
    decreases |s|
  {
    if s == [] then 0 else s[0] % 0x80 + 0x80 * GroupSum(s[1..])
  }

  /** Two's complement of a w-bit word. */
  function TwosComplement(v: nat, w: nat): int
    requires w > 0
  {
    if v < Pow2(w - 1) then v else v - Pow2(w)
  }

  /** One turn of the loop: or-ing the shifted group adds it, within 64 bits. */
  lemma OneGroup(r: nat, g: nat, p: nat)
    requires r < Pow2(p) && g < 0x80 && p <= 63
    ensures BitOr(r, Shl64(g, p)) == U64(r + Shl(g, p))
  {
    hide BitOr, Low, Shl, Shr;
    if p <= 56 {
      NoWrap(r, g, p);
      OrDisjoint(r, g, p);
    } else {
      // only the low 64 - p bits of the group survive the shift
      var k := 64 - p;
      LowBits(g, k);
      var lo, hi := Low(g, k), Shr(g, k);
      ShlAdd(lo, Shl(hi, k), p);
      ShlShl(hi, k, p);
      ShlWord(hi, k + p);
      ShlBelow(lo, k, p);
      PowBelow(k + p);
      OrDisjoint(r, lo, p);
    }
  }

  function Low(x: nat, k: nat): nat
    decreases k
  {
    if k == 0 then 0 else x % 2 + 2 * Low(x / 2, k - 1)
  }

  lemma {:induction false} LowBits(x: nat, k: nat)
    ensures x == Low(x, k) + Shl(Shr(x, k), k)
    ensures Low(x, k) < Pow2(k)
  {
    if k > 0 {
      LowBits(x / 2, k - 1);
    }
  }

  lemma NoWrap(r: nat, g: nat, p: nat)
    requires r < Pow2(p) && g < 0x80 && p <= 56
    ensures r + Shl(g, p) < Pow2(p + 7) <= TWO_63 && U64(r + Shl(g, p)) == r + Shl(g, p)
  {
    hide Shl;
    ShlConstants(1);
    ShlBelow(g, 7, p);
    PowBelow(p + 7);
  }

  /** The number at an offset, as the standard defines it: the sum of its groups and how
      many there are; or why it cannot be read, at most k groups being allowed. */
  function Number(bytes: seq<byte>, off: nat, k: nat): Result<(nat, nat)>
    requires off <= |bytes|
  {
    var end := LebEnd(bytes, off);
    if end < |bytes| && end - off < k then Ok((GroupSum(bytes[off..end + 1]), end + 1 - off))
    else if off + k < |bytes| then Fail(Undefined)
    else Fail(DebugLineError)
  }

  lemma NumberStep(bytes: seq<byte>, off: nat, k: nat)
    requires off <= |bytes|
    ensures Number(bytes, off, k) ==
            if off == |bytes| then Fail(DebugLineError)
            else if k == 0 then Fail(Undefined)
            else if bytes[off] < 0x80 then Ok((bytes[off] as int, 1))
            else
              var rest := Number(bytes, off + 1, k - 1);
              if rest.Ok? then Ok((bytes[off] % 0x80 + 0x80 * rest.value.0, rest.value.1 + 1)) else rest
  {
    var end := LebEnd(bytes, off);
    if off < |bytes| && bytes[off] < 0x80 {
      assert bytes[off..end + 1] == [bytes[off]];
      assert GroupSum([bytes[off]][1..]) == 0;
    } else if off < |bytes| && end < |bytes| {
      assert bytes[off..end + 1][1..] == bytes[off + 1..end + 1];
    }
  }

  /** The or/shift loop is the sum of the groups; it takes at most ten of them. */
  lemma {:induction false} AccumulateIsSum(bytes: seq<byte>, off: nat, r: nat, p: nat, k: nat)
    requires off <= |bytes| && r < TWO_64 && p + 7 * k == 70
    requires k > 0 ==> r < Pow2(p)
    ensures Accumulate(bytes, off, r, p) ==
            match Number(bytes, off, k)
            case Ok((v, n)) => Ok(Acc(U64(r + Shl(v, p)), p + 7 * n, off + n))
            case Fail(f) => Fail(f)
    decreases k
  {
    hide BitOr, Number, Shl, Shl64, U64;
    NumberStep(bytes, off, k);
    if off < |bytes| && k > 0 {
      var g := bytes[off] % 0x80;
      OneGroup(r, g, p);
      if bytes[off] >= 0x80 {
        if k > 1 {
          NoWrap(r, g, p);
        }
        AccumulateIsSum(bytes, off + 1, BitOr(r, Shl64(g, p)), p + 7, k - 1);
        var rest := Number(bytes, off + 1, k - 1);
        if rest.Ok? {
          ShiftedSum(g, rest.value.0, p);
        }
      }
    }
  }

  lemma ShiftedSum(g: int, v: int, p: nat)
    ensures Shl(g + 0x80 * v, p) == Shl(g, p) + Shl(v, p + 7)
  {
    hide Shl;
    ShlAdd(g, 0x80 * v, p);
    ShlConstants(v);
    ShlShl(v, 7, p);
  }

  lemma {:induction false} GroupSumBound(s: seq<byte>)
    ensures GroupSum(s) < Pow2(7 * |s|)
  {
    if s != [] {
      GroupSumBound(s[1..]);
      ShlShl(1, 7 * |s[1..]|, 7);
      ShlConstants(Pow2(7 * |s[1..]|));
    }
  }

  /** The shift pair is two's-complement sign extension. */
  lemma SignExtension(v: nat, p: nat)
    requires 0 < p < 64 && v < Pow2(p)
    ensures SignExtended(v, p) == TwosComplement(v, p)
  {
    hide Shl, Shr;
    var k := 64 - p;
    ShlBelow(v, p, k);
    PowBelow(p + k);
    PowBelow(p - 1 + k);
    ShlShl(1, p - 1, k);
    if v < Pow2(p - 1) {
      ShlBelow(v, p - 1, k);
      ShrShl(v, k);
    } else {
      ShlMonotone(Pow2(p - 1), v, k);
      ShlShl(1, p, k);
      ShlAdd(v - Pow2(p), Pow2(p), k);
      ShrShl(v - Pow2(p), k);
    }
  }

  /** What both readers return, on every input. */
  lemma DecodeIsNumber(bytes: seq<byte>, off: nat)
    requires off <= |bytes|
    ensures match Number(bytes, off, 10)
            case Ok((v, n)) =>
              && DecodeU(bytes, off) == Ok((U64(v), off + n))
              && DecodeS(bytes, off) == Ok((if n < 10 then TwosComplement(v, 7 * n) else I64(v), off + n))
            case Fail(f) => DecodeU(bytes, off) == Fail(f) && DecodeS(bytes, off) == Fail(f)
  {
    hide Accumulate, TwosComplement, Shr, LebEnd;
    AccumulateIsSum(bytes, off, 0, 0, 10);
    var number := Number(bytes, off, 10);
    if number.Ok? {
      var (v, n) := number.value;
      assert Shl(v, 0) == v;
      if n < 10 {
        var end := LebEnd(bytes, off);
        GroupSumBound(bytes[off..end + 1]);
        PowBelow(7 * n);
        SignExtension(v, 7 * n);
      }
    }
  }

  // ----- encodings

  /** The n groups of v, for v unsigned or in two's complement; with more groups than the
      value needs, the encoding is zero-padded or sign-padded. */
  function Groups(v: int, n: nat): (s: seq<byte>)
    requires n > 0
    ensures |s| == n
    ensures s[n - 1] < 0x80 && forall i :: 0 <= i < n - 1 ==> s[i] >= 0x80
    decreases n
  {
    if n == 1 then [v % 0x80] else [v % 0x80 + 0x80] + Groups(v / 0x80, n - 1)
  }

  /** The number of groups of the shortest encodings. */
  function SizeU(v: nat): (n: nat)
    ensures n > 0 && v < Pow2(7 * n)
  {
    if v < 0x80 then ShlConstants(1); 1
    else
      var n := SizeU(v / 0x80);
      ShlShl(1, 7 * n, 7);
      ShlConstants(Pow2(7 * n));
      n + 1
  }

  function SizeS(v: int): (n: nat)
    ensures n > 0 && -Pow2(7 * n - 1) <= v < Pow2(7 * n - 1)
    decreases if v < 0 then -v else v
  {
    if -0x40 <= v < 0x40 then assert Pow2(6) == 0x40; 1
    else
      var n := SizeS(v / 0x80);
      ShlShl(1, 7 * n - 1, 7);
      ShlConstants(Pow2(7 * n - 1));
      n + 1
  }

  lemma {:induction false} SizeUAtMost(v: nat, n: nat)
    requires n > 0 && v < Pow2(7 * n)
    ensures SizeU(v) <= n
  {
    if v >= 0x80 {
      ShlConstants(1);
      ShlShl(1, 7 * (n - 1), 7);
      ShlConstants(Pow2(7 * (n - 1)));
      SizeUAtMost(v / 0x80, n - 1);
    }
  }

  lemma {:induction false} SizeSAtMost(v: int, n: nat)
    requires n > 0 && -Pow2(7 * n - 1) <= v < Pow2(7 * n - 1)
    ensures SizeS(v) <= n
    decreases n
  {
    if !(-0x40 <= v < 0x40) {
      assert Pow2(6) == 0x40;
      ShlShl(1, 7 * (n - 1) - 1, 7);
      ShlConstants(Pow2(7 * (n - 1) - 1));
      SizeSAtMost(v / 0x80, n - 1);
    }
  }

  lemma {:induction false} GroupSumOfGroups(v: int, n: nat)
    requires n > 0 && -Pow2(7 * n) <= v < Pow2(7 * n)
    ensures GroupSum(Groups(v, n)) == if v < 0 then v + Pow2(7 * n) else v
    decreases n
  {
    hide Shl, Groups, GroupSum;
    GroupsHead(v, n);
    ShlConstants(1);
    if n > 1 {
      ShlShl(1, 7 * (n - 1), 7);
      ShlConstants(Pow2(7 * (n - 1)));
      GroupSumOfGroups(v / 0x80, n - 1);
    }
  }

  lemma GroupsHead(v: int, n: nat)
    requires n > 0
    ensures GroupSum(Groups(v, n)) == v % 0x80 + if n == 1 then 0 else 0x80 * GroupSum(Groups(v / 0x80, n - 1))
  {
    var s := Groups(v, n);
    assert s[1..] == if n == 1 then [] else Groups(v / 0x80, n - 1);
  }

  lemma {:induction false} LebEndAt(bytes: seq<byte>, off: nat, end: nat)
    requires off <= end < |bytes| && bytes[end] < 0x80
    requires forall i :: off <= i < end ==> bytes[i] >= 0x80
    ensures LebEnd(bytes, off) == end
    decreases end - off
  {
    if off < end {
      LebEndAt(bytes, off + 1, end);
    }
  }

  lemma NumberOfGroups(bytes: seq<byte>, off: nat, v: int, n: nat)
    requires 0 < n <= 10 && -Pow2(7 * n) <= v < Pow2(7 * n)
    requires Holds(bytes, off, Groups(v, n))
    ensures Number(bytes, off, 10) == Ok((if v < 0 then v + Pow2(7 * n) else v, n))
  {
    hide Shl, GroupSum, Groups;
    var s := Groups(v, n);
    forall i | off <= i < off + n
      ensures bytes[i] == s[i - off]
    {
      assert bytes[off..off + n][i - off] == bytes[i];
    }
    LebEndAt(bytes, off, off + n - 1);
    GroupSumOfGroups(v, n);
  }

  /** Unsigned round trip, for every encoding of up to ten groups and whatever follows it. */
  lemma RoundTripU(bytes: seq<byte>, off: nat, v: nat, n: nat)
    requires 0 < n <= 10 && v < Pow2(7 * n) && v < TWO_64
    requires Holds(bytes, off, Groups(v, n))
    ensures DecodeU(bytes, off) == Ok((v, off + n))
  {
    hide DecodeU, DecodeS, Number, Groups;
    NumberOfGroups(bytes, off, v, n);
    DecodeIsNumber(bytes, off);
  }

  /** Signed round trip. */
  lemma RoundTripS(bytes: seq<byte>, off: nat, v: int, n: nat)
    requires 0 < n <= 10 && -Pow2(7 * n - 1) <= v < Pow2(7 * n - 1) && -TWO_63 <= v < TWO_63
    requires Holds(bytes, off, Groups(v, n))
    ensures DecodeS(bytes, off) == Ok((v, off + n))
  {
    hide DecodeU, DecodeS, Number, Groups;
    NumberOfGroups(bytes, off, v, n);
    DecodeIsNumber(bytes, off);
    if n == 10 {
      ShlShl(1, 64, 6);
      ShlWord(1, 64);
      ShlAdd(0, 0, 6);
      SixtyFour(Pow2(64));
    }
  }

  lemma SixtyFour(x: int)
    ensures Shl(x, 6) == 64 * x
  {
  }

  /** An encoding with some groups more than the value needs. Every encoding of a value is one
      of these (AnyEncoding). */
  function PaddedU(v: nat, more: nat): (s: seq<byte>)
    ensures |s| > 0
  {
    Groups(v, SizeU(v) + more)
  }

  function PaddedS(v: int, more: nat): (s: seq<byte>)
    ensures |s| > 0
  {
    Groups(v, SizeS(v) + more)
  }

  lemma AnyEncoding(v: nat, n: nat)
    requires n > 0 && v < Pow2(7 * n)
    ensures SizeU(v) <= n && Groups(v, n) == PaddedU(v, n - SizeU(v))
  {
    SizeUAtMost(v, n);
  }

  lemma AnySignedEncoding(v: int, n: nat)
    requires n > 0 && -Pow2(7 * n - 1) <= v < Pow2(7 * n - 1)
    ensures SizeS(v) <= n && Groups(v, n) == PaddedS(v, n - SizeS(v))
  {
    SizeSAtMost(v, n);
  }

  /** Values of 64 bits whose encoding has at most ten groups. */
  predicate FitsU(v: nat, more: nat) {
    v < TWO_64 && SizeU(v) + more <= 10
  }

  predicate FitsS(v: int, more: nat) {
    -TWO_63 <= v < TWO_63 && SizeS(v) + more <= 10
  }

  lemma PaddedRoundTripU(bytes: seq<byte>, off: nat, v: nat, more: nat)
    requires FitsU(v, more) && Holds(bytes, off, PaddedU(v, more))
    ensures DecodeU(bytes, off) == Ok((v, off + |PaddedU(v, more)|))
  {
    PowMonotone(7 * SizeU(v), 7 * (SizeU(v) + more));
    RoundTripU(bytes, off, v, SizeU(v) + more);
  }

  lemma PaddedRoundTripS(bytes: seq<byte>, off: nat, v: int, more: nat)
    requires FitsS(v, more) && Holds(bytes, off, PaddedS(v, more))
    ensures DecodeS(bytes, off) == Ok((v, off + |PaddedS(v, more)|))
  {
    PowMonotone(7 * SizeS(v) - 1, 7 * (SizeS(v) + more) - 1);
    RoundTripS(bytes, off, v, SizeS(v) + more);
  }

  /** Every value has a shortest encoding, and it is read back. */
  lemma ShortestRoundTripU(bytes: seq<byte>, off: nat, v: nat)
    requires v < TWO_64 && Holds(bytes, off, PaddedU(v, 0))
    ensures FitsU(v, 0) && DecodeU(bytes, off) == Ok((v, off + |PaddedU(v, 0)|))
  {
    PowBelow(64);
    PowMonotone(64, 70);
    SizeUAtMost(v, 10);
    PaddedRoundTripU(bytes, off, v, 0);
  }

  lemma ShortestRoundTripS(bytes: seq<byte>, off: nat, v: int)
    requires -TWO_63 <= v < TWO_63 && Holds(bytes, off, PaddedS(v, 0))
    ensures FitsS(v, 0) && DecodeS(bytes, off) == Ok((v, off + |PaddedS(v, 0)|))
  {
    PowBelow(63);
    PowMonotone(63, 69);
    SizeSAtMost(v, 10);
    PaddedRoundTripS(bytes, off, v, 0);
  }
}
