/** Reading the strings of the initial stack through argv and envp. */
module StackStrings {
  import opened Words
  import Bits
  import opened ByteOrder
  import Cursors
  import Images
  import opened InitialStack
  import opened StackLayout

  /** The offset in the segment of an address that it contains. */
  function OffsetOf(p: Params, a: nat): Result<nat> {
    if Images.Range(Address(p), p.stackSize).Contains(a) then Ok(a - Address(p)) else Fail(Undefined)
  }

  /** The native word at an address of the segment. */
  function WordAt(p: Params, host: Order, image: seq<byte>, a: nat): Result<nat> {
    var o :- OffsetOf(p, a);
    if o + 4 > |image| then Fail(Undefined) else Ok(Cursors.Word(host, image, o, 4))
  }

  /** The C string read at an address is `s`. */
  predicate ReadsAt(p: Params, image: seq<byte>, a: nat, s: seq<byte>) {
    OffsetOf(p, a).Ok? && Reads(image, OffsetOf(p, a).value, s)
  }

  /** The C string read through entry i of a pointer array is `s`. The address of the array is
      the word at the stack pointer plus `head`: 4 for argv, 8 for envp. */
  predicate ReadsThrough(p: Params, host: Order, image: seq<byte>, head: nat, i: nat, s: seq<byte>) {
    var v := WordAt(p, host, image, StackPointer(p) + head);
    v.Ok? &&
    var w := WordAt(p, host, image, v.value + 4 * i);
    w.Ok? && ReadsAt(p, image, w.value, s)
  }

  /** Every argument and every variable is read through argv and envp. */
  ghost predicate AllRead(p: Params, host: Order, image: seq<byte>) {
    && (forall i :: 0 <= i < |p.arg| ==> ReadsThrough(p, host, image, 4, i, p.arg[i]))
    && (forall i :: 0 <= i < |p.env| ==> ReadsThrough(p, host, image, 8, i, p.env[i]))
  }

  /** The address range of the stack does not wrap, and its strings start below 2^32: the words
      that point to them can hold their addresses. */
  predicate Addressable(p: Params) {
    p.stackSize <= StackTop(p) && StackTop(p) - Isize(p) + ArgS(p) < TWO_32
  }

  /** What the lemmas assume: the C++ types of the parameters, a stack that is large enough, and
      contents below 4 GiB. */
  predicate Given(p: Params) {
    Isize(p) <= p.stackSize < TWO_63 && StackTop(p) < TWO_64 && Isize(p) < TWO_32
  }

  /** Arguments and variables are C strings. */
  predicate NoNul(p: Params) {
    forall s :: s in p.arg + p.env ==> 0 !in s
  }

  // ----- addresses and offsets

  lemma InSegment(p: Params, o: nat)
    requires p.stackSize <= StackTop(p) < TWO_64 && o < p.stackSize
    ensures Address(p) == StackTop(p) - p.stackSize && OffsetOf(p, Address(p) + o) == Ok(o)
  {
  }

  /** A word of the stack, at its address. */
  lemma WordAtStack(p: Params, host: Order, init: seq<byte>, off: nat)
    requires |init| == p.stackSize && Given(p) && p.stackSize <= StackTop(p) && off + 4 <= Isize(p)
    ensures StackPointer(p) == StackTop(p) - Isize(p)
    ensures WordAt(p, host, StackImage(p, host, init), StackPointer(p) + off) == Ok(Load(p, host, init, off))
  {
    hide StackImage, Isize;
    InSegment(p, p.stackSize - Isize(p) + off);
    hide OffsetOf, StackTop;
  }

  /** The address of the slot of string i, of the arguments and the variables together. */
  function SlotAddress(p: Params, i: nat): nat
    requires Isize(p) <= StackTop(p) && i <= |p.arg + p.env|
  {
    StackTop(p) - Isize(p) + ArgS(p) + Room((p.arg + p.env)[..i])
  }

  lemma SlotBelow(p: Params, i: nat)
    requires Given(p) && Isize(p) <= StackTop(p) && i < |p.arg + p.env|
    ensures SlotAddress(p, i) < StackTop(p) - Isize(p) + TWO_32
  {
    hide Isize, Room, StackTop;
    SlotsTile(p, i, i + 1);
  }

  /** A string, at the address of its slot. */
  lemma ReadsAtSlot(p: Params, image: seq<byte>, i: nat, s: seq<byte>)
    requires |image| == p.stackSize && Given(p) && p.stackSize <= StackTop(p) && i < |p.arg + p.env|
    ensures ReadsAt(p, image, SlotAddress(p, i), s) <==> Reads(image, Slot(p, i), s)
  {
    hide Isize, Reads, Room;
    SlotsTile(p, i, i + 1);
    InSegment(p, Slot(p, i));
    hide OffsetOf;
  }

  /** String k of the arguments and the variables together. */
  predicate StringReads(p: Params, host: Order, image: seq<byte>, k: nat)
    requires k < |p.arg + p.env|
  {
    if k < |p.arg| then ReadsThrough(p, host, image, 4, k, p.arg[k])
    else ReadsThrough(p, host, image, 8, k - |p.arg|, p.env[k - |p.arg|])
  }

  lemma AllReadIsEach(p: Params, host: Order, image: seq<byte>)
    ensures AllRead(p, host, image) <==> forall k :: 0 <= k < |p.arg + p.env| ==> StringReads(p, host, image, k)
  {
    hide ReadsThrough;
    if forall k :: 0 <= k < |p.arg + p.env| ==> StringReads(p, host, image, k) {
      forall i | 0 <= i < |p.arg| ensures ReadsThrough(p, host, image, 4, i, p.arg[i]) {
        assert StringReads(p, host, image, i);
      }
      forall i | 0 <= i < |p.env| ensures ReadsThrough(p, host, image, 8, i, p.env[i]) {
        assert StringReads(p, host, image, |p.arg| + i);
      }
    }
  }

  /** Reading through an array whose address is known. */
  lemma ThroughHead(p: Params, host: Order, image: seq<byte>, head: nat, i: nat, t: nat, s: seq<byte>)
    requires WordAt(p, host, image, StackPointer(p) + head) == Ok(t)
    ensures var w := WordAt(p, host, image, t + 4 * i);
            ReadsThrough(p, host, image, head, i, s) <==> w.Ok? && ReadsAt(p, image, w.value, s)
  {
    hide WordAt, ReadsAt, StackPointer;
  }

  lemma HeadBelow(p: Params)
    requires Given(p) && Addressable(p)
    ensures StackPointer(p) + EnvA(p) < TWO_32 && StackPointer(p) + ARG_A < TWO_32
    ensures p.stackSize <= StackTop(p) && 12 <= Isize(p)
  {
    hide Isize, Room;
  }

  lemma PointerCell(p: Params, host: Order, init: seq<byte>, off: nat, a: nat)
    requires |init| == p.stackSize && Given(p) && p.stackSize <= StackTop(p) && off + 4 <= Isize(p)
    requires Load(p, host, init, off) == U32(a) && a < TWO_32
    ensures WordAt(p, host, StackImage(p, host, init), StackPointer(p) + off) == Ok(a)
  {
    hide Room, StackImage, WordAt, U32, StackPointer, Isize, StackTop, Load;
    IsWord(a);
    WordAtStack(p, host, init, off);
  }

  /** The words at the head point to the arrays. */
  lemma ArgvAt(p: Params, host: Order, init: seq<byte>)
    requires |init| == p.stackSize && Given(p) && Addressable(p)
    ensures WordAt(p, host, StackImage(p, host, init), StackPointer(p) + 4) == Ok(StackPointer(p) + ARG_A)
  {
    HeadBelow(p);
    hide Room, StackImage, WordAt, U32, StackPointer, Isize, StackTop, Load, EnvA, Addressable;
    assert Load(p, host, init, 4) == U32(StackPointer(p) + ARG_A) by {
      HeadLayout(p, host, init);
    }
    PointerCell(p, host, init, 4, StackPointer(p) + ARG_A);
  }

  lemma EnvpLoad(p: Params, host: Order, init: seq<byte>, a: nat)
    requires |init| == p.stackSize && Given(p) && Addressable(p) && a == StackPointer(p) + EnvA(p)
    ensures 12 <= Isize(p) && Load(p, host, init, 8) == U32(a) && a < TWO_32 && p.stackSize <= StackTop(p)
  {
    HeadBelow(p);
    HeadLayout(p, host, init);
    hide *;
  }

  lemma EnvpAt(p: Params, host: Order, init: seq<byte>)
    requires |init| == p.stackSize && Given(p) && Addressable(p)
    ensures WordAt(p, host, StackImage(p, host, init), StackPointer(p) + 8) == Ok(StackPointer(p) + EnvA(p))
  {
    var a := StackPointer(p) + EnvA(p);
    EnvpLoad(p, host, init, a);
    hide Isize, StackTop, Load, U32, StackPointer, EnvA, Room, Addressable, Given;
    PointerCell(p, host, init, 8, a);
  }

  /** The words of the arrays, at their addresses. */
  lemma ArgvWordAt(p: Params, host: Order, init: seq<byte>, k: nat)
    requires |init| == p.stackSize && Given(p) && p.stackSize <= StackTop(p) && k < |p.arg|
    ensures WordAt(p, host, StackImage(p, host, init), StackPointer(p) + (ARG_A + 4 * k)) == Ok(U32(SlotAddress(p, k)))
  {
    hide Room, StackImage, WordAt, U32, StackPointer, Isize, Load;
    WordAtStack(p, host, init, ARG_A + 4 * k);
    assert SlotAddress(p, k) == StackPointer(p) + ArgS(p) + Room(p.arg[..k]) by {
      assert (p.arg + p.env)[..k] == p.arg[..k];
    }
    hide StackImage, WordAt, U32, Isize, Load, StackPointer, Room, ArgS, SlotAddress, StackTop;
    ArgvLayout(p, host, init, k);
  }

  lemma EnvpWordAt(p: Params, host: Order, init: seq<byte>, k: nat)
    requires |init| == p.stackSize && Given(p) && p.stackSize <= StackTop(p) && k < |p.env|
    ensures WordAt(p, host, StackImage(p, host, init), StackPointer(p) + (EnvA(p) + 4 * k)) ==
            Ok(U32(SlotAddress(p, |p.arg| + k)))
  {
    hide Room, StackImage, WordAt, U32, StackPointer, Isize, Load;
    WordAtStack(p, host, init, EnvA(p) + 4 * k);
    assert SlotAddress(p, |p.arg| + k) == StackPointer(p) + EnvS(p) + Room(p.env[..k]) by {
      EnvSlotsFollow(p, k);
    }
    hide StackImage, WordAt, U32, Isize, Load, StackPointer, Room, ArgS, EnvA, SlotAddress, StackTop;
    EnvpLayout(p, host, init, k);
  }

  lemma ArgumentThroughWord(p: Params, host: Order, init: seq<byte>, k: nat)
    requires |init| == p.stackSize && Given(p) && Addressable(p) && k < |p.arg|
    ensures var image := StackImage(p, host, init);
            ReadsThrough(p, host, image, 4, k, p.arg[k]) <==> ReadsAt(p, image, U32(SlotAddress(p, k)), p.arg[k])
  {
    hide Room, StackImage, WordAt, ReadsAt, ReadsThrough, U32, ArgS, EnvA, StackPointer, SlotAddress, Isize, StackTop;
    var (image, sp) := (StackImage(p, host, init), StackPointer(p));
    assert WordAt(p, host, image, sp + 4) == Ok(sp + ARG_A) by {
      ArgvAt(p, host, init);
    }
    assert WordAt(p, host, image, (sp + ARG_A) + 4 * k) == Ok(U32(SlotAddress(p, k))) by {
      ArgvWordAt(p, host, init, k);
    }
    ThroughHead(p, host, image, 4, k, sp + ARG_A, p.arg[k]);
    hide *;
  }

  lemma VariableThroughWord(p: Params, host: Order, init: seq<byte>, k: nat)
    requires |init| == p.stackSize && Given(p) && Addressable(p) && k < |p.env|
    ensures var image := StackImage(p, host, init);
            ReadsThrough(p, host, image, 8, k, p.env[k]) <==>
            ReadsAt(p, image, U32(SlotAddress(p, |p.arg| + k)), p.env[k])
  {
    hide Room, StackImage, WordAt, ReadsAt, ReadsThrough, U32, ArgS, EnvA, StackPointer, SlotAddress, Isize, StackTop;
    var (image, sp) := (StackImage(p, host, init), StackPointer(p));
    assert WordAt(p, host, image, sp + 8) == Ok(sp + EnvA(p)) by {
      EnvpAt(p, host, init);
    }
    assert WordAt(p, host, image, (sp + EnvA(p)) + 4 * k) == Ok(U32(SlotAddress(p, |p.arg| + k))) by {
      EnvpWordAt(p, host, init, k);
    }
    ThroughHead(p, host, image, 8, k, sp + EnvA(p), p.env[k]);
    hide *;
  }

  /** In an addressable stack, a string is read where its word points. */
  lemma StringThroughWord(p: Params, host: Order, init: seq<byte>, k: nat)
    requires |init| == p.stackSize && Given(p) && Addressable(p) && k < |p.arg + p.env|
    ensures var image := StackImage(p, host, init);
            StringReads(p, host, image, k) <==> ReadsAt(p, image, U32(SlotAddress(p, k)), (p.arg + p.env)[k])
  {
    hide ReadsThrough, ReadsAt, SlotAddress, StackImage, U32, Given, Addressable, Room;
    if k < |p.arg| {
      ArgumentThroughWord(p, host, init, k);
    } else {
      VariableThroughWord(p, host, init, k - |p.arg|);
    }
  }

  // ----- one string

  lemma OneString(s: seq<byte>)
    ensures StringBytes([s]) == s + [0] && Room([s][..0]) == 0
  {
    assert [s][..0] == [];
    assert Joined([s]) == s;
  }

  lemma ReadsBack(image: seq<byte>, at: nat, s: seq<byte>)
    requires at + |s| + 1 <= |image| && image[at..at + |s| + 1] == s + [0] && 0 !in s
    ensures Reads(image, at, s)
  {
    var n := |s|;
    assert image[at..at + n] == image[at..at + n + 1][..n];
    assert image[at + n] == image[at..at + n + 1][n];
    Cursors.StringEndUnique(image, at, at + n);
  }

  lemma OneStringInSlot(p: Params, host: Order, init: seq<byte>)
    requires |init| == p.stackSize && Given(p) && NoNul(p) && |p.arg + p.env| == 1
    ensures Reads(StackImage(p, host, init), Slot(p, 0), (p.arg + p.env)[0])
  {
    hide StackImage, StackWords, Isize, Slot, Reads, Joined;
    var ss := p.arg + p.env;
    var s := ss[0];
    var at := p.stackSize - Isize(p) + ArgS(p);
    assert ss == [s] && s in p.arg + p.env;
    OneString(s);
    SlotStart(p, 0, at);
    PartsAt(p, host, init);
    hide Room, StringBytes;
    ReadsBack(StackImage(p, host, init), at, s);
  }

  lemma OneStringReads(p: Params, host: Order, init: seq<byte>)
    requires |init| == p.stackSize && Given(p) && NoNul(p) && Addressable(p) && |p.arg + p.env| == 1
    ensures StringReads(p, host, StackImage(p, host, init), 0)
  {
    hide StackImage, ReadsAt, Isize, Slot, Reads, StringReads;
    assert Room((p.arg + p.env)[..0]) == 0;
    OneStringInSlot(p, host, init);
    StringThroughWord(p, host, init, 0);
    ReadsAtSlot(p, StackImage(p, host, init), 0, (p.arg + p.env)[0]);
  }

  // ----- memory that keeps a string from being read

  /** A byte that neither ends a string nor starts this one. */
  function OtherByte(s: seq<byte>): (b: byte)
    ensures b != 0 && (s != [] ==> b != s[0])
  {
    if s != [] && s[0] == 1 then 2 else 1
  }

  lemma NotRead(p: Params, image: seq<byte>, a: nat, s: seq<byte>)
    requires |image| == p.stackSize
    requires var o := OffsetOf(p, a);
             o.Ok? ==> o.value < |image| && image[o.value] == OtherByte(s)
    ensures !ReadsAt(p, image, a, s)
  {
    hide OffsetOf, OtherByte, Reads;
    var o := OffsetOf(p, a);
    if o.Ok? {
      ReadsStart(image, o.value, s);
    }
  }

  lemma ReadsStart(image: seq<byte>, at: nat, s: seq<byte>)
    ensures Reads(image, at, s) ==> at < |image| && image[at] == if s == [] then 0 else s[0]
  {
    if Reads(image, at, s) && s != [] {
      assert image[at..at + |s|][0] == s[0];
    }
  }

  /** Below the stack pointer the segment keeps what the memory held. */
  lemma Unwritten(p: Params, host: Order, init: seq<byte>, o: nat)
    requires |init| == p.stackSize && Given(p) && o < p.stackSize - Isize(p)
    ensures StackImage(p, host, init)[o] == init[o]
  {
    hide WordBytes, StringBytes, StackWords, Isize;
  }

  /** An address below the stack pointer reads no string but those of the memory. */
  lemma NotReadBelow(p: Params, host: Order, init: seq<byte>, a: nat, s: seq<byte>)
    requires |init| == p.stackSize && Given(p) && p.stackSize <= StackTop(p) && a < StackTop(p) - Isize(p)
    requires var o := a - (StackTop(p) - p.stackSize);
             o >= 0 ==> init[o] == OtherByte(s)
    ensures !ReadsAt(p, StackImage(p, host, init), a, s)
  {
    hide StackImage, ReadsAt, Isize, OtherByte;
    InSegment(p, 0);
    var o := a - (StackTop(p) - p.stackSize);
    if o >= 0 {
      InSegment(p, o);
      Unwritten(p, host, init, o);
    }
    NotRead(p, StackImage(p, host, init), a, s);
  }

  lemma Untouched(image: seq<byte>, init: seq<byte>, written: nat, x: nat)
    requires |image| == |init| && written <= x < |image| && image[written..] == init[written..]
    ensures image[x] == init[x]
  {
    assert image[written..][x - written] == init[written..][x - written];
  }

  function Uniform(p: Params, s: seq<byte>): (init: seq<byte>)
    ensures |init| == p.stackSize && forall o :: 0 <= o < |init| ==> init[o] == OtherByte(s)
  {
    seq(p.stackSize, _ => OtherByte(s))
  }

  /** A word that cannot hold an address of the stack points below the stack pointer. */
  lemma CutAddress(p: Params, host: Order, a: nat, s: seq<byte>)
    requires Given(p) && p.stackSize <= StackTop(p) && TWO_32 <= a < StackTop(p) - Isize(p) + TWO_32
    ensures !ReadsAt(p, StackImage(p, host, Uniform(p, s)), U32(a), s)
  {
    var init := Uniform(p, s);
    assert U32(a) <= a - TWO_32;
    hide U32, StackImage, ReadsAt, StackTop, Isize, OtherByte, Uniform;
    NotReadBelow(p, host, init, U32(a), s);
  }

  // ----- two strings or more

  /** The place where the last string should end is past everything that was written. */
  lemma LastSlotMisses(p: Params, host: Order, init: seq<byte>)
    requires |init| == p.stackSize && Given(p) && |p.arg + p.env| >= 2
    requires forall o :: 0 <= o < |init| ==> init[o] != 0
    ensures var k := |p.arg + p.env| - 1;
            !Reads(StackImage(p, host, init), Slot(p, k), (p.arg + p.env)[k])
  {
    hide StackImage, StackWords, Isize;
    var ss := p.arg + p.env;
    var k := |ss| - 1;
    var image, at := StackImage(p, host, init), Slot(p, k);
    var start := p.stackSize - Isize(p) + ArgS(p);
    JoinedFits(ss[..k]);
    PartsAt(p, host, init);
    SlotStart(p, k, start);
    assert |StringBytes(ss)| == |Joined(ss[..k])| + |ss[k]| + 1;
    hide Joined, StringBytes, Room, Slot;
    var end := at + |ss[k]|;
    if end < |image| {
      Untouched(image, init, start + |StringBytes(ss)|, end);
    }
  }

  lemma LastStringMisses(p: Params, host: Order)
    requires Given(p) && Addressable(p) && |p.arg + p.env| >= 2
    ensures var k := |p.arg + p.env| - 1;
            var init := Uniform(p, (p.arg + p.env)[k]);
            !StringReads(p, host, StackImage(p, host, init), k)
  {
    var k := |p.arg + p.env| - 1;
    var s := (p.arg + p.env)[k];
    var init := Uniform(p, s);
    SlotBelow(p, k);
    IsWord(SlotAddress(p, k));
    hide StackImage, StringReads, ReadsAt, Isize, Uniform, Slot, Reads, StackTop, SlotAddress, OtherByte, U32;
    StringThroughWord(p, host, init, k);
    if SlotAddress(p, k) < TWO_32 {
      LastSlotMisses(p, host, init);
      ReadsAtSlot(p, StackImage(p, host, init), k, s);
    } else {
      CutAddress(p, host, SlotAddress(p, k), s);
    }
  }

  // ----- a stack that is not addressable

  /** The first string, and the array it is in. */
  function Head(p: Params): nat {
    if p.arg != [] then 4 else 8
  }

  function Table(p: Params): nat {
    if p.arg != [] then ARG_A else EnvA(p)
  }

  lemma FirstReads(p: Params, host: Order, image: seq<byte>)
    requires p.arg + p.env != []
    ensures StringReads(p, host, image, 0) <==> ReadsThrough(p, host, image, Head(p), 0, (p.arg + p.env)[0])
    ensures Table(p) <= 16 && Table(p) + 4 <= Isize(p) && Head(p) + 4 <= Isize(p)
  {
    hide ReadsThrough;
  }

  /** A stack whose address range wraps is out of the reach of any 32-bit word. */
  lemma WrappedStack(p: Params, host: Order, image: seq<byte>)
    requires Given(p) && StackTop(p) < p.stackSize && |image| == p.stackSize && p.arg + p.env != []
    ensures !StringReads(p, host, image, 0)
  {
    hide StringReads, ReadsAt, Isize, Room, Value;
    FirstReads(p, host, image);
    var v := WordAt(p, host, image, StackPointer(p) + Head(p));
    if v.Ok? {
      WordBelow(p, host, image, StackPointer(p) + Head(p));
      assert Address(p) > TWO_32;
      hide OffsetOf;
      assert WordAt(p, host, image, v.value + 4 * 0).Fail?  by {
        OutOfReach(p, v.value);
      }
    }
  }

  lemma OutOfReach(p: Params, a: nat)
    requires a < Address(p)
    ensures OffsetOf(p, a).Fail?
  {
  }

  lemma WordBelow(p: Params, host: Order, image: seq<byte>, a: nat)
    requires WordAt(p, host, image, a).Ok?
    ensures WordAt(p, host, image, a).value < TWO_32
  {
    hide Value, OffsetOf;
    var o := OffsetOf(p, a).value;
    ValueBound(host, image[o..o + 4]);
    Bits.Shl32(1);
  }

  /** The words in front of the first string. */
  lemma FirstWords(p: Params, host: Order, init: seq<byte>)
    requires |init| == p.stackSize && Given(p) && p.stackSize <= StackTop(p) && p.arg + p.env != []
    ensures var (image, sp) := (StackImage(p, host, init), StackTop(p) - Isize(p));
            && StackPointer(p) == sp
            && WordAt(p, host, image, sp + Head(p)) == Ok(U32(sp + Table(p)))
            && WordAt(p, host, image, sp + Table(p)) == Ok(U32(sp + ArgS(p)))
  {
    hide StackImage, WordAt, Isize, Load;
    HeadLayout(p, host, init);
    WordAtStack(p, host, init, 4);
    WordAtStack(p, host, init, 8);
    if p.arg != [] {
      ArgvLayout(p, host, init, 0);
      WordAtStack(p, host, init, ARG_A);
      assert p.arg[..0] == [];
    } else {
      EnvpLayout(p, host, init, 0);
      WordAtStack(p, host, init, EnvA(p));
      assert p.env[..0] == [] && Room(p.arg) == 0;
    }
  }

  lemma WordsBelow(p: Params)
    requires p.arg + p.env != []
    ensures Table(p) <= 16 && ArgS(p) < Isize(p)
  {
    assert Room(p.arg) + Room(p.env) > 0;
    hide Room;
  }

  /** The first string is read through the word that the head points to. */
  lemma ThroughTable(p: Params, host: Order, init: seq<byte>, sp: nat)
    requires |init| == p.stackSize && Given(p) && p.stackSize <= StackTop(p) && p.arg + p.env != []
    requires sp == StackTop(p) - Isize(p)
    ensures var image := StackImage(p, host, init);
            var w := WordAt(p, host, image, U32(sp + Table(p)));
            StringReads(p, host, image, 0) <==> w.Ok? && ReadsAt(p, image, w.value, (p.arg + p.env)[0])
  {
    hide Room, StackImage, WordAt, U32, Isize, StackTop, StringReads, ReadsThrough, ReadsAt, Table, Head, StackPointer;
    var image := StackImage(p, host, init);
    FirstReads(p, host, image);
    FirstWords(p, host, init);
    ThroughHead(p, host, image, Head(p), 0, U32(sp + Table(p)), (p.arg + p.env)[0]);
    hide *;
  }

  /** The array can be reached, but not the string. */
  lemma FarString(p: Params, host: Order, sp: nat)
    requires Given(p) && p.stackSize <= StackTop(p) && p.arg + p.env != [] && sp == StackTop(p) - Isize(p)
    requires sp + Table(p) < TWO_32 <= sp + ArgS(p)
    ensures !StringReads(p, host, StackImage(p, host, Uniform(p, (p.arg + p.env)[0])), 0)
  {
    var s := (p.arg + p.env)[0];
    FarSlot(p, host, sp);
    NearTable(p, host, Uniform(p, s), sp);
    hide StackImage, StringReads, ReadsAt, Uniform, StackTop, WordAt, U32, Isize, ArgS, Table;
    ThroughTable(p, host, Uniform(p, s), sp);
  }

  lemma FarSlot(p: Params, host: Order, sp: nat)
    requires Given(p) && p.stackSize <= StackTop(p) && p.arg + p.env != [] && sp == StackTop(p) - Isize(p)
    requires TWO_32 <= sp + ArgS(p)
    ensures var s := (p.arg + p.env)[0];
            !ReadsAt(p, StackImage(p, host, Uniform(p, s)), U32(sp + ArgS(p)), s)
  {
    WordsBelow(p);
    hide StackImage, ReadsAt, Uniform, StackTop, U32, Isize, ArgS;
    CutAddress(p, host, sp + ArgS(p), (p.arg + p.env)[0]);
  }

  lemma NearTable(p: Params, host: Order, init: seq<byte>, sp: nat)
    requires |init| == p.stackSize && Given(p) && p.stackSize <= StackTop(p) && p.arg + p.env != []
    requires sp == StackTop(p) - Isize(p) && sp + Table(p) < TWO_32
    ensures WordAt(p, host, StackImage(p, host, init), U32(sp + Table(p))) == Ok(U32(sp + ArgS(p)))
  {
    hide Room, StackImage, WordAt, StackTop, U32, Isize, ArgS, Table, Head, StackPointer;
    IsWord(sp + Table(p));
    FirstWords(p, host, init);
  }

  /** Memory that holds one word, and elsewhere the same byte. */
  function Planted(size: nat, b: byte, at: nat, word: seq<byte>): (init: seq<byte>)
    requires at + |word| <= size
    ensures |init| == size && init[at..at + |word|] == word
    ensures forall o :: 0 <= o < size && !(at <= o < at + |word|) ==> init[o] == b
  {
    seq(at, _ => b) + word + seq(size - at - |word|, _ => b)
  }

  /** An address to plant, near the one it is read at. */
  function Decoy(p: Params, v: nat): (w: nat)
    ensures w < TWO_32
  {
    if Address(p) > 0 || v >= 4 then 0 else 8
  }

  /** Not even the array can be reached: the word that should point to it points to v. */
  lemma FarTable(p: Params, host: Order, sp: nat, v: nat) returns (init: seq<byte>)
    requires Given(p) && p.stackSize <= StackTop(p) && p.arg + p.env != [] && sp == StackTop(p) - Isize(p)
    requires v == U32(sp + Table(p)) && v + 16 <= sp
    ensures |init| == p.stackSize && !StringReads(p, host, StackImage(p, host, init), 0)
  {
    var s := (p.arg + p.env)[0];
    hide StackImage, StringReads, ReadsAt, Uniform, WordAt, U32, ArgS, Table, OtherByte, Isize, OffsetOf, Planted, Decoy;
    InSegment(p, 0);
    if v < Address(p) {
      init := Uniform(p, s);
      ThroughTable(p, host, init, sp);
      OutOfReach(p, v);
      NoWord(p, host, StackImage(p, host, init), v);
    } else {
      hide StackTop, Address;
      init := Planted(p.stackSize, OtherByte(s), v - Address(p), BytesOf(host, Decoy(p, v), 4));
      ThroughTable(p, host, init, sp);
      DecoyRead(p, host, init, v, v - Address(p), s);
    }
  }

  lemma NoWord(p: Params, host: Order, image: seq<byte>, a: nat)
    ensures OffsetOf(p, a).Fail? ==> WordAt(p, host, image, a).Fail?
  {
  }

  /** The planted word is read, and where it points no string starts. */
  lemma DecoyRead(p: Params, host: Order, init: seq<byte>, v: nat, o: nat, s: seq<byte>)
    requires |init| == p.stackSize && Given(p) && p.stackSize <= StackTop(p)
    requires o == v - Address(p) && v + 16 <= StackTop(p) - Isize(p)
    requires o + 4 <= |init| && init[o..o + 4] == BytesOf(host, Decoy(p, v), 4)
    requires forall x :: 0 <= x < |init| && !(o <= x < o + 4) ==> init[x] == OtherByte(s)
    ensures WordAt(p, host, StackImage(p, host, init), v) == Ok(Decoy(p, v))
    ensures !ReadsAt(p, StackImage(p, host, init), Decoy(p, v), s)
  {
    InSegment(p, o);
    hide StackImage, ReadsAt, OtherByte, Isize, OffsetOf;
    UnwrittenWord(p, host, init, o);
    PlantedWord(p, host, StackImage(p, host, init), v, o);
    assert var w := Decoy(p, v); w < Address(p) || !(o <= w - Address(p) < o + 4);
    hide Decoy, WordAt, BytesOf, StackTop;
    DecoyBelow(p, v);
    NotReadBelow(p, host, init, Decoy(p, v), s);
  }

  lemma DecoyBelow(p: Params, v: nat)
    requires Given(p) && p.stackSize <= StackTop(p) && Address(p) <= v && v + 16 <= StackTop(p) - Isize(p)
    ensures Decoy(p, v) < StackTop(p) - Isize(p)
  {
    hide Isize;
  }

  lemma PlantedWord(p: Params, host: Order, image: seq<byte>, v: nat, o: nat)
    requires OffsetOf(p, v) == Ok(o) && o + 4 <= |image| && image[o..o + 4] == BytesOf(host, Decoy(p, v), 4)
    ensures WordAt(p, host, image, v) == Ok(Decoy(p, v))
  {
    Bits.Shl32(1);
    ValueOfBytes(host, Decoy(p, v), 4);
    hide Value, BytesOf, OffsetOf, Decoy;
  }

  lemma UnwrittenWord(p: Params, host: Order, init: seq<byte>, o: nat)
    requires |init| == p.stackSize && Given(p) && o + 4 <= p.stackSize - Isize(p)
    ensures StackImage(p, host, init)[o..o + 4] == init[o..o + 4]
  {
    var image := StackImage(p, host, init);
    hide StackImage, Isize;
    forall x | o <= x < o + 4 ensures image[x] == init[x] {
      Unwritten(p, host, init, x);
    }
  }

  // ----- when the strings can be read

  lemma FirstStringMisses(p: Params, host: Order) returns (init: seq<byte>)
    requires Given(p) && !Addressable(p) && p.arg + p.env != []
    ensures |init| == p.stackSize && !StringReads(p, host, StackImage(p, host, init), 0)
  {
    WordsBelow(p);
    hide StackImage, StringReads, Isize, Table, ArgS;
    init := Uniform(p, (p.arg + p.env)[0]);
    if StackTop(p) < p.stackSize {
      WrappedStack(p, host, StackImage(p, host, init));
    } else if StackTop(p) - Isize(p) + Table(p) < TWO_32 {
      FarString(p, host, StackTop(p) - Isize(p));
    } else {
      var sp := StackTop(p) - Isize(p);
      init := FarTable(p, host, sp, U32(sp + Table(p)));
    }
  }

  /** The strings are read through argv and envp, whatever the memory held before, exactly when
      there is none, or a single one in a stack that is addressable. */
  lemma StringsReadable(p: Params, host: Order)
    requires Given(p) && NoNul(p)
    ensures (forall init: seq<byte> :: |init| == p.stackSize ==> AllRead(p, host, StackImage(p, host, init))) <==>
            |p.arg + p.env| == 0 || (|p.arg + p.env| == 1 && Addressable(p))
  {
    hide StackImage, StringReads, Isize, AllRead, Addressable;
    forall init: seq<byte> | |init| == p.stackSize
      ensures AllRead(p, host, StackImage(p, host, init)) <==>
              forall k :: 0 <= k < |p.arg + p.env| ==> StringReads(p, host, StackImage(p, host, init), k)
    {
      AllReadIsEach(p, host, StackImage(p, host, init));
    }
    if |p.arg + p.env| == 1 && Addressable(p) {
      forall init: seq<byte> | |init| == p.stackSize ensures AllRead(p, host, StackImage(p, host, init)) {
        OneStringReads(p, host, init);
      }
    } else if |p.arg + p.env| >= 1 && !Addressable(p) {
      var init := FirstStringMisses(p, host);
      assert !AllRead(p, host, StackImage(p, host, init));
    } else if |p.arg + p.env| >= 2 {
      LastStringMisses(p, host);
      assert !AllRead(p, host, StackImage(p, host, Uniform(p, (p.arg + p.env)[|p.arg + p.env| - 1])));
    }
  }
}