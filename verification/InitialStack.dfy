/** The initial stack: a sizing pass, then a writing pass. */
module InitialStack {
  import opened Words
  import opened ByteOrder
  import opened Cursors
  import Images

  datatype Auxiliary = Auxiliary(typ: nat, val: nat)

  /** The parameters of the builder. Arguments and variables are C strings: no NUL inside. */
  datatype Params = Params(
    stackAlloc: bool, stackAt: bool, stackAddr: nat, stackSize: nat,
    arg: seq<seq<byte>>, env: seq<seq<byte>>, auxv: seq<Auxiliary>)

  // ----- sizing

  /** The bytes of the strings, each with its NUL. */
  function Room(ss: seq<seq<byte>>): nat {
    if ss == [] then 0 else Room(ss[..|ss| - 1]) + |ss[|ss| - 1]| + 1
  }

  const ARG_A: nat := 12

  function EnvA(p: Params): nat {
    ARG_A + 4 * (|p.arg| + 1)
  }

  function ArgS(p: Params): nat {
    EnvA(p) + 4 * (|p.env| + 1) + 4 * (2 * |p.auxv| + 1)
  }

  function EnvS(p: Params): nat {
    ArgS(p) + Room(p.arg)
  }

  /** `roundup(s, 4)`. */
  function Isize(p: Params): (n: nat)
    ensures EnvS(p) + Room(p.env) <= n < EnvS(p) + Room(p.env) + 4 && n % 4 == 0
  {
    (EnvS(p) + Room(p.env) + 3) / 4 * 4
  }

  /** The address the stack ends at. */
  function StackTop(p: Params): nat {
    if p.stackAt then p.stackAddr else TWO_31
  }

  /** The address of the segment, and the stack pointer. */
  function Address(p: Params): nat {
    U64(StackTop(p) - p.stackSize)
  }

  function StackPointer(p: Params): nat {
    U64(Address(p) + p.stackSize - Isize(p))
  }

  /** The characters of some strings. */
  function Characters(ss: seq<seq<byte>>): nat {
    if ss == [] then 0 else Characters(ss[..|ss| - 1]) + |ss[|ss| - 1]|
  }

  lemma {:induction false} RoomOf(ss: seq<seq<byte>>)
    ensures Room(ss) == Characters(ss) + |ss|
  {
    if ss != [] {
      RoomOf(ss[..|ss| - 1]);
    }
  }

  /** What the contents take: the words, and the strings with their NUL, rounded up to words. */
  lemma ContentsRounded(p: Params)
    ensures var words := 3 + (|p.arg| + 1) + (|p.env| + 1) + (2 * |p.auxv| + 1);
            var c := 4 * words + Characters(p.arg) + |p.arg| + Characters(p.env) + |p.env|;
            c <= Isize(p) < c + 4 && Isize(p) % 4 == 0
  {
    RoomOf(p.arg);
    RoomOf(p.env);
  }

  /** The stack ends at the address asked for, or at 0x80000000, and the stack pointer is the
      rounded contents below that end. */
  lemma StackEnds(p: Params, end: nat)
    requires end == if p.stackAt then p.stackAddr else 0x8000_0000
    requires Isize(p) <= p.stackSize <= end < TWO_64
    ensures Address(p) + p.stackSize == end && StackPointer(p) + Isize(p) == end
  {
    hide Isize;
  }

  // ----- what the writing pass should leave

  /** The pointers to strings laid out one after the other from an address. */
  function Pointers(start: nat, ss: seq<seq<byte>>): (ps: seq<nat>)
    ensures |ps| == |ss|
  {
    if ss == [] then []
    else Pointers(start, ss[..|ss| - 1]) + [U32(start + Room(ss[..|ss| - 1]))]
  }

  function AuxWords(auxv: seq<Auxiliary>): (ws: seq<nat>)
    ensures |ws| == 2 * |auxv|
  {
    if auxv == [] then []
    else AuxWords(auxv[..|auxv| - 1]) + [U32(auxv[|auxv| - 1].typ), U32(auxv[|auxv| - 1].val)]
  }

  /** The words of the stack, from the stack pointer up to the strings. */
  function StackWords(p: Params): (ws: seq<nat>)
    ensures 4 * |ws| == ArgS(p)
  {
    var sp := StackPointer(p);
    [U32(|p.arg|), U32(sp + ARG_A), U32(sp + EnvA(p))]
    + Pointers(sp + ArgS(p), p.arg) + [0]
    + Pointers(sp + EnvS(p), p.env) + [0]
    + AuxWords(p.auxv) + [0]
  }

  function WordBytes(host: Order, ws: seq<nat>): (s: seq<byte>)
    ensures |s| == 4 * |ws|
  {
    if ws == [] then [] else WordBytes(host, ws[..|ws| - 1]) + BytesOf(host, ws[|ws| - 1], 4)
  }

  /** The strings as they are written: the cursor does not step over the NUL, so the next
      string starts on it. */
  function Joined(ss: seq<seq<byte>>): seq<byte> {
    if ss == [] then [] else Joined(ss[..|ss| - 1]) + ss[|ss| - 1]
  }

  function StringBytes(ss: seq<seq<byte>>): seq<byte> {
    if ss == [] then [] else Joined(ss) + [0]
  }

  lemma {:induction false} JoinedFits(ss: seq<seq<byte>>)
    ensures |Joined(ss)| + |ss| == Room(ss)
  {
    if ss != [] {
      JoinedFits(ss[..|ss| - 1]);
    }
  }

  lemma {:induction false} RoomConcat(a: seq<seq<byte>>, b: seq<seq<byte>>)
    ensures Room(a + b) == Room(a) + Room(b)
  {
    if b == [] {
      assert a + b == a;
    } else {
      assert (a + b)[..|a + b| - 1] == a + b[..|b| - 1];
      RoomConcat(a, b[..|b| - 1]);
    }
  }

  /** The whole segment, over the memory as it was allocated. */
  function StackImage(p: Params, host: Order, init: seq<byte>): (s: seq<byte>)
    requires |init| == p.stackSize >= Isize(p)
    ensures |s| == p.stackSize
  {
    var base := p.stackSize - Isize(p);
    var strings := StringBytes(p.arg + p.env);
    JoinedFits(p.arg + p.env);
    RoomConcat(p.arg, p.env);
    init[..base] + WordBytes(host, StackWords(p)) + strings + init[base + ArgS(p) + |strings|..]
  }

  // ----- the writing pass

  /** The cursor has written these words, and nothing else, from `base` on. */
  ghost predicate Wrote(c: Cursor, host: Order, base: nat, init: seq<byte>, ws: seq<nat>)
    reads c, c.data
  {
    && c.Valid() && c.decoder.host == host && c.off == base + 4 * |ws| <= |init|
    && c.data[..] == init[..base] + WordBytes(host, ws) + init[c.off..]
  }

  method WriteWord(c: Cursor, v: nat, ghost host: Order, ghost base: nat, ghost init: seq<byte>, ghost ws: seq<nat>)
    requires Wrote(c, host, base, init, ws) && c.off + 4 <= |init|
    modifies c`off, c.data
    ensures Wrote(c, host, base, init, ws + [U32(v)])
  {
    var off := c.off;
    ghost var a, b := init[..base], WordBytes(host, ws);
    assert |c.data[..]| == |init|;
    assert c.data[..off] == a + b && c.data[off + 4..] == init[off + 4..];
    var ok := c.Write(4, U32(v));
    assert (ws + [U32(v)])[..|ws|] == ws;
    assert WordBytes(host, ws + [U32(v)]) == b + BytesOf(host, U32(v), 4);
    assert a + b + BytesOf(host, U32(v), 4) == a + (b + BytesOf(host, U32(v), 4));
  }

  /** The pointer array of some strings, null-terminated. */
  method WritePointers(c: Cursor, start: nat, ss: seq<seq<byte>>,
                       ghost host: Order, ghost base: nat, ghost init: seq<byte>, ghost ws: seq<nat>)
    requires Wrote(c, host, base, init, ws) && c.off + 4 * (|ss| + 1) <= |init|
    modifies c`off, c.data
    ensures Wrote(c, host, base, init, ws + Pointers(start, ss) + [0])
  {
    hide Wrote;
    WroteAt(c, host, base, init, ws);
    ghost var n := 4 * (|ss| + 1);
    ghost var at := c.off;
    var p := U32(start);
    assert ws + [] == ws;
    for i := 0 to |ss|
      invariant p == U32(start + Room(ss[..i]))
      invariant Wrote(c, host, base, init, ws + Pointers(start, ss[..i]))
    {
      WroteAt(c, host, base, init, ws + Pointers(start, ss[..i]));
      WriteWord(c, p, host, base, init, ws + Pointers(start, ss[..i]));
      assert ss[..i + 1][..i] == ss[..i];
      assert ws + Pointers(start, ss[..i]) + [p] == ws + Pointers(start, ss[..i + 1]);
      PointerStep(start, Room(ss[..i]), |ss[i]| + 1);
      p := U32(p + |ss[i]| + 1);
    }
    assert ss[..|ss|] == ss;
    WroteAt(c, host, base, init, ws + Pointers(start, ss));
    WriteWord(c, 0, host, base, init, ws + Pointers(start, ss));
  }

  lemma PointerStep(start: nat, room: nat, len: nat)
    ensures U32(U32(start + room)) == U32(start + room)
    ensures U32(U32(start + room) + len) == U32(start + room + len)
  {
  }

  lemma WroteAt(c: Cursor, host: Order, base: nat, init: seq<byte>, ws: seq<nat>)
    requires Wrote(c, host, base, init, ws)
    ensures c.off == base + 4 * |ws| <= |init|
  {
  }

  method WriteAuxiliaries(c: Cursor, auxv: seq<Auxiliary>,
                          ghost host: Order, ghost base: nat, ghost init: seq<byte>, ghost ws: seq<nat>)
    requires Wrote(c, host, base, init, ws) && c.off + 4 * (2 * |auxv| + 1) <= |init|
    modifies c`off, c.data
    ensures Wrote(c, host, base, init, ws + AuxWords(auxv) + [0])
  {
    hide Wrote;
    WroteAt(c, host, base, init, ws);
    assert ws + [] == ws;
    for i := 0 to |auxv|
      invariant Wrote(c, host, base, init, ws + AuxWords(auxv[..i]))
    {
      ghost var w := ws + AuxWords(auxv[..i]);
      WroteAt(c, host, base, init, w);
      WriteWord(c, auxv[i].typ, host, base, init, w);
      WroteAt(c, host, base, init, w + [U32(auxv[i].typ)]);
      WriteWord(c, auxv[i].val, host, base, init, w + [U32(auxv[i].typ)]);
      assert auxv[..i + 1][..i] == auxv[..i];
      assert w + [U32(auxv[i].typ)] + [U32(auxv[i].val)] == ws + AuxWords(auxv[..i + 1]);
    }
    assert auxv[..|auxv|] == auxv;
    WroteAt(c, host, base, init, ws + AuxWords(auxv));
    WriteWord(c, 0, host, base, init, ws + AuxWords(auxv));
  }

  /** The cursor has written these strings, as they are written, from `start` on. */
  ghost predicate WroteStrings(c: Cursor, start: nat, before: seq<byte>, ss: seq<seq<byte>>)
    reads c, c.data
  {
    && c.Valid() && start + |StringBytes(ss)| <= |before| && c.off == start + |Joined(ss)|
    && c.data[..] == before[..start] + StringBytes(ss) + before[start + |StringBytes(ss)|..]
  }

  method WriteStrings(c: Cursor, ss: seq<seq<byte>>,
                      ghost start: nat, ghost before: seq<byte>, ghost done: seq<seq<byte>>)
    requires WroteStrings(c, start, before, done) && start + Room(done + ss) <= |before|
    modifies c`off, c.data
    ensures WroteStrings(c, start, before, done + ss)
  {
    hide WroteStrings;
    assert done + ss[..0] == done;
    for i := 0 to |ss|
      invariant WroteStrings(c, start, before, done + ss[..i])
    {
      RoomPrefix(done + ss, |done| + i + 1);
      assert (done + ss)[..|done| + i + 1] == done + ss[..i] + [ss[i]];
      assert done + ss[..i] + [ss[i]] == done + ss[..i + 1];
      WriteOne(c, ss[i], start, before, done + ss[..i]);
    }
    assert ss[..|ss|] == ss;
  }

  lemma {:induction false} RoomPrefix(ss: seq<seq<byte>>, n: nat)
    requires n <= |ss|
    ensures Room(ss[..n]) <= Room(ss)
  {
    assert ss == ss[..n] + ss[n..];
    RoomConcat(ss[..n], ss[n..]);
  }

  /** One string: its characters over the NUL of the one before, then a NUL. */
  method WriteOne(c: Cursor, s: seq<byte>, ghost start: nat, ghost before: seq<byte>, ghost done: seq<seq<byte>>)
    requires WroteStrings(c, start, before, done) && start + Room(done + [s]) <= |before|
    modifies c`off, c.data
    ensures WroteStrings(c, start, before, done + [s])
  {
    ghost var was, j := c.data[..], Joined(done);
    assert (done + [s])[..|done|] == done;
    JoinedFits(done + [s]);
    assert StringBytes(done + [s]) == j + s + [0];
    assert |was| == |before|;
    assert was[..c.off] == before[..start] + j;
    assert was[c.off + |s| + 1..] == before[c.off + |s| + 1..];
    var ok := c.WriteString(s);
    assert before[..start] + j + (s + [0]) == before[..start] + (j + s + [0]);
  }

  /** The segment of the stack and its initial pointer, or why there is none. */
  datatype Built = NoStack | TooSmall | Stack(seg: Images.ImageSegment, sp: nat)

  /** `buildStack`: no write fails, and every part lands where the sizing pass put it. */
  method BuildStack(im: Images.Image, p: Params, d: Decoder) returns (r: Built, ghost init: seq<byte>)
    requires p.stackSize < TWO_63
    modifies im
    ensures !p.stackAlloc ==> r == NoStack
    ensures p.stackAlloc && p.stackSize < Isize(p) ==> r == TooSmall
    ensures p.stackAlloc && p.stackSize >= Isize(p) ==>
              && r.Stack? && fresh(r.seg) && fresh(r.seg.buf)
              && r.seg.base == Address(p) && r.sp == StackPointer(p) && |init| == p.stackSize
              && r.seg.writable && !r.seg.executable
              && r.seg.buf[..] == StackImage(p, d.host, init)
    ensures r.Stack? ==>
              var end := if p.stackAt then p.stackAddr else 0x8000_0000;
              p.stackSize <= end < TWO_64 ==> r.seg.base + r.seg.buf.Length == end && r.sp + Isize(p) == end
    ensures im.segs == if r.Stack? then old(im.segs) + [r.seg] else old(im.segs)
  {
    init := [];
    if !p.stackAlloc {
      return NoStack, init;
    }
    if p.stackSize < Isize(p) {
      return TooSmall, init;
    }
    var data := new byte[p.stackSize];
    init := data[..];
    var seg := new Images.ImageSegment.FromBuffer(data, Address(p), true, false);
    im.Add(seg);
    WriteStack(data, p, d, init);
    ghost var end := if p.stackAt then p.stackAddr else 0x8000_0000;
    if p.stackSize <= end < TWO_64 {
      StackEnds(p, end);
    }
    return Stack(seg, StackPointer(p)), init;
  }

  /** The writing pass. */
  method WriteStack(data: array<byte>, p: Params, d: Decoder, ghost init: seq<byte>)
    requires Isize(p) <= p.stackSize == data.Length < TWO_63 && init == data[..]
    modifies data
    ensures data[..] == StackImage(p, d.host, init)
  {
    hide Wrote, WroteStrings, StackImage, StackWords, StackPointer;
    ghost var base := p.stackSize - Isize(p);
    var c := new Cursor(data, d);
    var skipped := c.Skip(p.stackSize - Isize(p));
    NothingWritten(c, base, init);
    ghost var ws := WriteWords(c, p, StackPointer(p), base, init);
    ghost var before := data[..];
    WordsThenStrings(c, p, base, init, before);
    WriteAll(c, p, base + ArgS(p), before);
    StackParts(c, p, base, init, before);
  }

  lemma NothingWritten(c: Cursor, base: nat, init: seq<byte>)
    requires c.Valid() && c.off == base <= |init| && init == c.data[..]
    ensures Wrote(c, c.decoder.host, base, init, [])
  {
    assert init == init[..base] + WordBytes(c.decoder.host, []) + init[base..];
  }

  lemma WordsThenStrings(c: Cursor, p: Params, base: nat, init: seq<byte>, before: seq<byte>)
    requires Wrote(c, c.decoder.host, base, init, StackWords(p)) && before == c.data[..]
    requires base + ArgS(p) + Room(p.arg) + Room(p.env) <= |init|
    ensures WroteStrings(c, base + ArgS(p), before, [])
    ensures |before| == |init| && before[..base + ArgS(p)] == init[..base] + WordBytes(c.decoder.host, StackWords(p))
    ensures base + ArgS(p) + Room(p.arg + p.env) <= |before|
    ensures before[base + ArgS(p)..] == init[base + ArgS(p)..]
  {
    hide StackWords;
    RoomConcat(p.arg, p.env);
    var at := base + ArgS(p);
    assert before == before[..at] + [] + before[at..];
  }

  lemma StackParts(c: Cursor, p: Params, base: nat, init: seq<byte>, before: seq<byte>)
    requires |init| == p.stackSize >= Isize(p) && base == p.stackSize - Isize(p) && |before| == |init|
    requires WroteStrings(c, base + ArgS(p), before, p.arg + p.env)
    requires before[..base + ArgS(p)] == init[..base] + WordBytes(c.decoder.host, StackWords(p))
    requires before[base + ArgS(p)..] == init[base + ArgS(p)..]
    ensures c.data[..] == StackImage(p, c.decoder.host, init)
  {
    hide StackWords, StringBytes, Isize;
    var at, n := base + ArgS(p), |StringBytes(p.arg + p.env)|;
    assert before[at + n..] == before[at..][n..];
    assert init[at + n..] == init[at..][n..];
  }

  method WriteAll(c: Cursor, p: Params, ghost start: nat, ghost before: seq<byte>)
    requires WroteStrings(c, start, before, []) && start + Room(p.arg + p.env) <= |before|
    modifies c`off, c.data
    ensures WroteStrings(c, start, before, p.arg + p.env)
  {
    hide WroteStrings;
    assert [] + p.arg == p.arg;
    assert (p.arg + p.env)[..|p.arg|] == p.arg;
    RoomPrefix(p.arg + p.env, |p.arg|);
    WriteStrings(c, p.arg, start, before, []);
    WriteStrings(c, p.env, start, before, p.arg);
  }

  /** argc, and the addresses of the two pointer arrays. */
  method WriteHead(c: Cursor, p: Params, sp: nat, ghost base: nat, ghost init: seq<byte>)
    requires Wrote(c, c.decoder.host, base, init, []) && base + 12 <= |init|
    modifies c`off, c.data
    ensures Wrote(c, c.decoder.host, base, init, [U32(|p.arg|), U32(sp + ARG_A), U32(sp + EnvA(p))])
  {
    hide Wrote;
    ghost var host := c.decoder.host;
    WroteAt(c, host, base, init, []);
    WriteWord(c, |p.arg|, host, base, init, []);
    ghost var ws := [U32(|p.arg|)];
    assert [] + ws == ws;
    WroteAt(c, host, base, init, ws);
    WriteWord(c, sp + ARG_A, host, base, init, ws);
    ws := ws + [U32(sp + ARG_A)];
    WroteAt(c, host, base, init, ws);
    WriteWord(c, sp + EnvA(p), host, base, init, ws);
    assert ws + [U32(sp + EnvA(p))] == [U32(|p.arg|), U32(sp + ARG_A), U32(sp + EnvA(p))];
  }

  /** The word part of the writing pass. */
  method WriteWords(c: Cursor, p: Params, sp: nat, ghost base: nat, ghost init: seq<byte>)
    returns (ghost ws: seq<nat>)
    requires sp == StackPointer(p) && Wrote(c, c.decoder.host, base, init, []) && base + ArgS(p) <= |init|
    modifies c`off, c.data
    ensures ws == StackWords(p) && Wrote(c, c.decoder.host, base, init, ws)
  {
    hide Wrote, StackPointer, Isize, Pointers, AuxWords, U32;
    ghost var host := c.decoder.host;
    WroteAt(c, host, base, init, []);
    WriteHead(c, p, sp, base, init);
    ws := [U32(|p.arg|), U32(sp + ARG_A), U32(sp + EnvA(p))];
    WroteAt(c, host, base, init, ws);
    WritePointers(c, sp + ArgS(p), p.arg, host, base, init, ws);
    ws := ws + Pointers(sp + ArgS(p), p.arg) + [0];
    WroteAt(c, host, base, init, ws);
    WritePointers(c, sp + EnvS(p), p.env, host, base, init, ws);
    ws := ws + Pointers(sp + EnvS(p), p.env) + [0];
    WroteAt(c, host, base, init, ws);
    WriteAuxiliaries(c, p.auxv, host, base, init, ws);
    ws := ws + AuxWords(p.auxv) + [0];
  }
}
