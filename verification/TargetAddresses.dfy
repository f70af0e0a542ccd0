/** DW_LNE_set_address for targets of either address size: its operand is as wide as a target
    address (section 6.2.5.3 of the DWARF 4 standard), but it is read by the DWARF format. */
module TargetAddresses {
  import opened Words
  import opened Bits
  import opened ByteOrder
  import opened Cursors
  import opened Leb128
  import opened LineTable
  import opened LineProgram
  import opened LineEncoding

  /** set_address as a producer writes it for a target with addresses of w bytes, the declared
      length with some groups more than it needs. */
  function EncodeAddress(order: Order, v: nat, w: nat, more: nat): seq<byte> {
    [0] + (PaddedU(1 + w, more) + ([DW_LNE_SET_ADDRESS] + BytesOf(order, v, w)))
  }

  // ----- addresses of 8 bytes in the 32-bit format

  /** The four bytes read as the address, of an 8-byte operand. */
  function FirstHalf(order: Order, v: nat): nat {
    match order case Little => v % TWO_32 case Big => v / TWO_32
  }

  function SecondHalf(order: Order, v: nat): nat {
    match order case Little => v / TWO_32 case Big => v % TWO_32
  }

  lemma Halves(order: Order, v: nat, n: nat)
    requires v < TWO_64 && n == 4
    ensures BytesOf(order, v, n + n) == BytesOf(order, FirstHalf(order, v), n) + BytesOf(order, SecondHalf(order, v), n)
  {
    var (x, y) := (FirstHalf(order, v), SecondHalf(order, v));
    var (a, b) := (BytesOf(order, x, n), BytesOf(order, y, n));
    HalvesOf(order, v);
    Shl32(1);
    hide FirstHalf, SecondHalf, Value, BytesOf, Shl;
    ValueOfBytes(order, x, n);
    ValueOfBytes(order, y, n);
    ValueOfHalves(order, a, b);
    BytesOfValue(order, a + b);
  }

  lemma ValueOfHalves(order: Order, a: seq<byte>, b: seq<byte>)
    requires |a| == |b| == 4
    ensures Value(order, a + b) == if order == Little then Value(order, a) + TWO_32 * Value(order, b)
                                   else TWO_32 * Value(order, a) + Value(order, b)
  {
    hide Value, Shl;
    ValueConcat(a, b);
    BigConcat(a, b);
    Shl32(Value(Little, b));
    Shl32(Value(Big, a));
  }

  lemma HalvesOf(order: Order, v: nat)
    requires v < TWO_64
    ensures FirstHalf(order, v) < TWO_32 && SecondHalf(order, v) < TWO_32
    ensures v == if order == Little then FirstHalf(order, v) + TWO_32 * SecondHalf(order, v)
                 else TWO_32 * FirstHalf(order, v) + SecondHalf(order, v)
  {
  }

  lemma WideItem(h: Header, v: nat, more: nat) returns (it: Item)
    requires !h.is64 && h.opcodeBase > 0 && v < TWO_64 && FitsU(9, more)
    ensures it.instr == SetAddress(FirstHalf(h.order, v))
    ensures Encodable(h, it) && EncodeInstr(h, it) == EncodeAddress(h.order, v, 8, more)
  {
    it := Item(SetAddress(FirstHalf(h.order, v)), 0, more, BytesOf(h.order, SecondHalf(h.order, v), 4));
    Shl32(1);
    Halves(h.order, v, 4);
    HalvesOf(h.order, v);
    hide BytesOf, PaddedU, FitsU, FirstHalf, SecondHalf;
    var (s, t) := (BytesOf(h.order, FirstHalf(h.order, v), 4), BytesOf(h.order, SecondHalf(h.order, v), 4));
    assert [DW_LNE_SET_ADDRESS] + s + t == [DW_LNE_SET_ADDRESS] + (s + t);
  }

  lemma FirstHalfRight(order: Order, v: nat)
    ensures FirstHalf(order, v) == v <==> if order == Little then v < TWO_32 else v == 0
  {
  }

  /** In a unit of the 32-bit format, an 8-byte operand gives the half that comes first, and
      the declared length takes the cursor over the other. The address is right exactly when
      it is below 2^32 in a little-endian file, and when it is 0 in a big-endian one. */
  lemma WideAddress(h: Header, bytes: seq<byte>, off: nat, v: nat, more: nat)
    requires !h.is64 && h.opcodeBase > 0 && v < TWO_64 && FitsU(9, more)
    requires Holds(bytes, off, EncodeAddress(h.order, v, 8, more))
    requires off + |EncodeAddress(h.order, v, 8, more)| < TWO_31
    ensures var a := FirstHalf(h.order, v);
            && Fetch(h, bytes, off) == Ok((SetAddress(a), off + |EncodeAddress(h.order, v, 8, more)|))
            && (a == v <==> if h.order == Little then v < TWO_32 else v == 0)
  {
    hide FirstHalf, SecondHalf, Encodable, EncodeInstr, EncodeAddress, BytesOf, PaddedU, FitsU, Holds, Fetch;
    FirstHalfRight(h.order, v);
    var it := WideItem(h, v, more);
    FetchSmall(h, bytes, off, it);
  }

  // ----- addresses of 4 bytes in the 64-bit format

  /** In a unit of the 64-bit format, a 4-byte operand is read with the four bytes that follow
      the instruction, if there are any, and the declared length takes the cursor back to
      them. The address is right exactly when these bytes, and in a big-endian file the
      operand too, are 0. */
  lemma NarrowAddress(h: Header, bytes: seq<byte>, off: nat, v: nat, more: nat, end: nat)
    requires h.is64 && h.opcodeBase > 0 && v < TWO_32 && FitsU(5, more)
    requires Holds(bytes, off, EncodeAddress(h.order, v, 4, more))
    requires end == off + |EncodeAddress(h.order, v, 4, more)| < TWO_31
    ensures end <= |bytes|
    ensures end + 4 > |bytes| ==> Fetch(h, bytes, off) == Fail(DebugLineError)
    ensures end + 4 <= |bytes| ==>
              var next := Word(h.order, bytes, end, 4);
              var a := if h.order == Little then v + TWO_32 * next else TWO_32 * v + next;
              && Fetch(h, bytes, off) == Ok((SetAddress(a), end))
              && (a == v <==> next == 0 && (h.order == Big ==> v == 0))
  {
    hide PaddedU, FitsU, BytesOf, Holds, DecodeU, EncodeAddress, Fetch, Word;
    OperandAt(h.order, bytes, off, v, more, end);
    NarrowFetch(h, bytes, off, end);
    if end + 4 <= |bytes| {
      JoinedWord(h.order, bytes, end - 4, v);
      NarrowRight(h.order, v, Word(h.order, bytes, end, 4));
    }
  }

  lemma NarrowRight(order: Order, v: nat, next: nat)
    ensures (if order == Little then v + TWO_32 * next else TWO_32 * v + next) == v <==>
            next == 0 && (order == Big ==> v == 0)
  {
  }

  lemma NarrowFetch(h: Header, bytes: seq<byte>, off: nat, end: nat)
    requires h.is64 && off + 7 <= end <= |bytes| && end < TWO_31
    requires bytes[off] == 0 < h.opcodeBase && DecodeU(bytes, off + 1) == Ok((5, end - 5))
    requires bytes[end - 5] == DW_LNE_SET_ADDRESS
    ensures Fetch(h, bytes, off) == if end + 4 > |bytes| then Fail(DebugLineError)
                                    else Ok((SetAddress(Word(h.order, bytes, end - 4, 8)), end))
  {
    TargetOfSum(5, end - 5);
    assert I32(end) == end;
    hide DecodeU, Fetch, FetchExtended, Target, I32, Word;
    ExtendedFetch(h, bytes, off, 5, end - 5);
    EightBytes(h, bytes, end - 5);
  }

  lemma ExtendedFetch(h: Header, bytes: seq<byte>, off: nat, len: nat, at: nat)
    requires off < |bytes| && bytes[off] == 0 < h.opcodeBase && DecodeU(bytes, off + 1) == Ok((len, at))
    ensures var e := FetchExtended(h, bytes, at);
            Fetch(h, bytes, off) ==
            if e.Ok? then Ok((e.value.0, Moved(|bytes|, e.value.1, Target(len, at)))) else Fail(e.fault)
  {
    hide DecodeU, FetchExtended;
  }

  lemma EightBytes(h: Header, bytes: seq<byte>, at: nat)
    requires h.is64 && at < |bytes| && bytes[at] == DW_LNE_SET_ADDRESS
    ensures FetchExtended(h, bytes, at) ==
            if at + 9 > |bytes| then Fail(DebugLineError)
            else Ok((SetAddress(Word(h.order, bytes, at + 1, 8)), at + 9))
  {
    hide DecodeU, Word;
  }

  lemma OperandAt(order: Order, bytes: seq<byte>, off: nat, v: nat, more: nat, end: nat)
    requires Holds(bytes, off, EncodeAddress(order, v, 4, more)) && FitsU(5, more)
    requires end == off + |EncodeAddress(order, v, 4, more)|
    ensures off + 7 <= end <= |bytes| && bytes[off] == 0 && DecodeU(bytes, off + 1) == Ok((5, end - 5))
    ensures bytes[end - 5] == DW_LNE_SET_ADDRESS && Holds(bytes, end - 4, BytesOf(order, v, 4))
  {
    hide PaddedU, FitsU, BytesOf, Holds, DecodeU;
    var w := BytesOf(order, v, 4);
    HoldsHead(bytes, off, 0, PaddedU(5, more) + ([DW_LNE_SET_ADDRESS] + w));
    HoldsConcat(bytes, off + 1, PaddedU(5, more), [DW_LNE_SET_ADDRESS] + w);
    PaddedRoundTripU(bytes, off + 1, 5, more);
    HoldsHead(bytes, end - 5, DW_LNE_SET_ADDRESS, w);
    HoldsWithin(bytes, end - 4, w);
  }

  lemma JoinedWord(order: Order, bytes: seq<byte>, off: nat, v: nat)
    requires Holds(bytes, off, BytesOf(order, v, 4)) && off + 8 <= |bytes| && v < TWO_32
    ensures var next := Word(order, bytes, off + 4, 4);
            Word(order, bytes, off, 8) == if order == Little then v + TWO_32 * next else TWO_32 * v + next
  {
    var (a, b) := (bytes[off..off + 4], bytes[off + 4..off + 8]);
    assert bytes[off..off + 8] == a + b;
    Shl32(1);
    ValueOfBytes(order, v, 4);
    ValueOfHalves(order, a, b);
    hide Value, BytesOf, Shl;
  }
}
