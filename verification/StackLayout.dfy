/** What the initial stack holds. */
module StackLayout {
  import opened Words
  import Bits
  import opened ByteOrder
  import Cursors
  import opened InitialStack

  /** The native word at an offset from the stack pointer. */
  function Load(p: Params, host: Order, init: seq<byte>, off: nat): nat
    requires |init| == p.stackSize >= Isize(p) && off + 4 <= Isize(p)
  {
    Cursors.Word(host, StackImage(p, host, init), p.stackSize - Isize(p) + off, 4)
  }

  lemma {:induction false} WordBytesAt(host: Order, ws: seq<nat>, k: nat)
    requires k < |ws|
    ensures WordBytes(host, ws)[4 * k..4 * k + 4] == BytesOf(host, ws[k], 4)
  {
    var n := |ws| - 1;
    var front := WordBytes(host, ws[..n]);
    if k < n {
      WordBytesAt(host, ws[..n], k);
      assert WordBytes(host, ws)[4 * k..4 * k + 4] == front[4 * k..4 * k + 4];
    }
  }

  /** The bytes of a word, in the order of the host. */
  lemma BytesAt(p: Params, host: Order, init: seq<byte>, k: nat, at: nat)
    requires |init| == p.stackSize >= Isize(p) && k < |StackWords(p)| && at == p.stackSize - Isize(p) + 4 * k
    ensures at + 4 <= p.stackSize
    ensures StackImage(p, host, init)[at..at + 4] == BytesOf(host, StackWords(p)[k], 4)
  {
    hide StackWords, Isize, WordBytes, BytesOf, StackImage, StringBytes;
    var base, ws := p.stackSize - Isize(p), StackWords(p);
    WordBytesAt(host, ws, k);
    PartsAt(p, host, init);
    Within(StackImage(p, host, init), base, WordBytes(host, ws), 4 * k, 4);
  }

  lemma LoadIsWord(p: Params, host: Order, init: seq<byte>, k: nat)
    requires |init| == p.stackSize >= Isize(p) && k < |StackWords(p)| && StackWords(p)[k] < TWO_32
    ensures Load(p, host, init, 4 * k) == StackWords(p)[k]
  {
    hide StackWords, Isize, BytesOf, Value, StackImage;
    BytesAt(p, host, init, k, p.stackSize - Isize(p) + 4 * k);
    Bits.Shl32(1);
    ValueOfBytes(host, StackWords(p)[k], 4);
  }

  /** The words and the strings of the image, by position. */
  lemma PartsAt(p: Params, host: Order, init: seq<byte>)
    requires |init| == p.stackSize >= Isize(p)
    ensures var image, base := StackImage(p, host, init), p.stackSize - Isize(p);
            var n := |StringBytes(p.arg + p.env)|;
            && base + ArgS(p) + n <= |image|
            && image[base..base + ArgS(p)] == WordBytes(host, StackWords(p))
            && image[base + ArgS(p)..base + ArgS(p) + n] == StringBytes(p.arg + p.env)
            && image[base + ArgS(p) + n..] == init[base + ArgS(p) + n..]
  {
    hide StackWords, StringBytes;
  }

  lemma {:induction false} PointerAt(start: nat, ss: seq<seq<byte>>, i: nat)
    requires i < |ss|
    ensures Pointers(start, ss)[i] == U32(start + Room(ss[..i]))
  {
    var n := |ss| - 1;
    if i < n {
      PointerAt(start, ss[..n], i);
      assert ss[..n][..i] == ss[..i];
    }
  }

  lemma {:induction false} AuxAt(auxv: seq<Auxiliary>, i: nat)
    requires i < |auxv|
    ensures AuxWords(auxv)[2 * i] == U32(auxv[i].typ) && AuxWords(auxv)[2 * i + 1] == U32(auxv[i].val)
  {
    var n := |auxv| - 1;
    if i < n {
      AuxAt(auxv[..n], i);
    }
  }

  /** Which words are where. */
  lemma ArgvWord(p: Params, i: nat)
    requires i <= |p.arg|
    ensures StackWords(p)[3 + i] ==
            if i < |p.arg| then U32(StackPointer(p) + ArgS(p) + Room(p.arg[..i])) else 0
  {
    hide Pointers, AuxWords, U32, StackPointer, Room;
    if i < |p.arg| {
      PointerAt(StackPointer(p) + ArgS(p), p.arg, i);
    }
  }

  lemma EnvpWord(p: Params, i: nat)
    requires i <= |p.env|
    ensures StackWords(p)[4 + |p.arg| + i] ==
            if i < |p.env| then U32(StackPointer(p) + EnvS(p) + Room(p.env[..i])) else 0
  {
    hide Pointers, AuxWords, U32, StackPointer, Room;
    if i < |p.env| {
      PointerAt(StackPointer(p) + EnvS(p), p.env, i);
    }
  }

  lemma AuxvWord(p: Params, i: nat)
    requires i <= |p.auxv|
    ensures var k := 5 + |p.arg| + |p.env| + 2 * i;
            if i < |p.auxv| then StackWords(p)[k] == U32(p.auxv[i].typ) && StackWords(p)[k + 1] == U32(p.auxv[i].val)
            else StackWords(p)[k] == 0
  {
    hide Pointers, AuxWords, U32, StackPointer, Room;
    if i < |p.auxv| {
      AuxAt(p.auxv, i);
    }
  }

  lemma IsWord(x: nat)
    ensures U32(x) == x <==> x < TWO_32
  {
  }

  /** The head of the stack: argc, then the addresses of argv and envp. The two arrays stand at
      those addresses, counted from the stack pointer. */
  lemma HeadLayout(p: Params, host: Order, init: seq<byte>)
    requires |init| == p.stackSize >= Isize(p)
    ensures Load(p, host, init, 0) == U32(|p.arg|)
    ensures Load(p, host, init, 4) == U32(StackPointer(p) + ARG_A)
    ensures Load(p, host, init, 8) == U32(StackPointer(p) + EnvA(p))
  {
    HeadWords(p);
    hide StackWords, Load, Isize, U32, StackPointer, EnvA;
    LoadIsWord(p, host, init, 0);
    LoadIsWord(p, host, init, 1);
    LoadIsWord(p, host, init, 2);
  }

  lemma HeadWords(p: Params)
    ensures |StackWords(p)| > 2 && StackWords(p)[0] == U32(|p.arg|)
    ensures StackWords(p)[1] == U32(StackPointer(p) + ARG_A) && StackWords(p)[2] == U32(StackPointer(p) + EnvA(p))
  {
    hide U32, StackPointer, Pointers, AuxWords;
  }

  /** argv: word i is the address of the slot of argument i; a null word ends it. */
  lemma ArgvLayout(p: Params, host: Order, init: seq<byte>, i: nat)
    requires |init| == p.stackSize >= Isize(p) && i <= |p.arg|
    ensures Load(p, host, init, ARG_A + 4 * i) ==
            if i < |p.arg| then U32(StackPointer(p) + ArgS(p) + Room(p.arg[..i])) else 0
  {
    hide StackWords, Load, Isize, U32, StackPointer, Room;
    ArgvWord(p, i);
    LoadIsWord(p, host, init, 3 + i);
  }

  /** envp, the same. */
  lemma EnvpLayout(p: Params, host: Order, init: seq<byte>, i: nat)
    requires |init| == p.stackSize >= Isize(p) && i <= |p.env|
    ensures Load(p, host, init, EnvA(p) + 4 * i) ==
            if i < |p.env| then U32(StackPointer(p) + EnvS(p) + Room(p.env[..i])) else 0
  {
    hide StackWords, Load, Isize, U32, StackPointer, Room;
    EnvpWord(p, i);
    LoadIsWord(p, host, init, 4 + |p.arg| + i);
  }

  /** A word of the stack is the address it is made from exactly when this is below 2^32: the
      words at 4 and 8, and those of argv and envp. */
  lemma PointersExact(p: Params, host: Order, init: seq<byte>, off: nat, a: nat)
    requires |init| == p.stackSize >= Isize(p) && off + 4 <= Isize(p)
    requires || (off == 4 && a == StackPointer(p) + ARG_A)
             || (off == 8 && a == StackPointer(p) + EnvA(p))
             || IsArgvWord(p, off, a) || IsEnvpWord(p, off, a)
    ensures Load(p, host, init, off) == a <==> a < TWO_32
  {
    IsWord(a);
    hide Load, Isize, U32, StackPointer;
    if off == 4 || off == 8 {
      HeadLayout(p, host, init);
    } else if IsArgvWord(p, off, a) {
      ArgvLayout(p, host, init, (off - ARG_A) / 4);
    } else {
      EnvpLayout(p, host, init, (off - EnvA(p)) / 4);
    }
  }

  predicate IsArgvWord(p: Params, off: nat, a: nat) {
    && off >= ARG_A && (off - ARG_A) % 4 == 0 && (off - ARG_A) / 4 < |p.arg|
    && a == StackPointer(p) + ArgS(p) + Room(p.arg[..(off - ARG_A) / 4])
  }

  predicate IsEnvpWord(p: Params, off: nat, a: nat) {
    && off >= EnvA(p) && (off - EnvA(p)) % 4 == 0 && (off - EnvA(p)) / 4 < |p.env|
    && a == StackPointer(p) + EnvS(p) + Room(p.env[..(off - EnvA(p)) / 4])
  }

  /** The auxiliary vector follows envp, and its null type stands just below the strings. */
  lemma AuxvLayout(p: Params, host: Order, init: seq<byte>, i: nat)
    requires |init| == p.stackSize >= Isize(p) && i <= |p.auxv|
    ensures var at := EnvA(p) + 4 * (|p.env| + 1) + 8 * i;
            && (i < |p.auxv| ==> Load(p, host, init, at) == U32(p.auxv[i].typ))
            && (i < |p.auxv| ==> Load(p, host, init, at + 4) == U32(p.auxv[i].val))
            && (i == |p.auxv| ==> Load(p, host, init, at) == 0 && at + 4 == ArgS(p))
  {
    hide StackWords, Load, Isize, U32, StackPointer, Room;
    var k := 5 + |p.arg| + |p.env| + 2 * i;
    AuxvWord(p, i);
    LoadIsWord(p, host, init, k);
    if i < |p.auxv| {
      LoadIsWord(p, host, init, k + 1);
    }
  }

  /** The words are stored in the order of the host: read in the order of the file, a word is
      right exactly when the file has the order of the host or the bytes of the word are a
      palindrome. */
  lemma WordInFileOrder(p: Params, d: Decoder, init: seq<byte>, k: nat, at: nat)
    requires |init| == p.stackSize >= Isize(p) && k < |StackWords(p)| && StackWords(p)[k] < TWO_32
    requires at == p.stackSize - Isize(p) + 4 * k
    ensures at + 4 <= p.stackSize
    ensures var v := StackWords(p)[k];
            Cursors.Word(d.FileOrder(), StackImage(p, d.host, init), at, 4) == v <==>
            d.Native() || Reverse(BytesOf(d.host, v, 4)) == BytesOf(d.host, v, 4)
  {
    BytesAt(p, d.host, init, k, at);
    hide StackWords, Isize, StackImage;
    var v := StackWords(p)[k];
    Bits.Shl32(1);
    hide BytesOf, Value, Decoder.Native, Decoder.FileOrder, Decoder.Get, Bits.Shl;
    SetThenGet(d, 4, v);
    GetIsPositional(d, BytesOf(d.host, v, 4));
  }

  /** The number of arguments, for 1 to 255 of them, is none. */
  lemma SmallCountIsNoPalindrome(o: Order, v: nat)
    requires 0 < v < TWO_8
    ensures Reverse(BytesOf(o, v, 4)) != BytesOf(o, v, 4)
  {
    BytesExtend(o, v, 0, v, 3);
    BytesExtend(o, 0, 0, 0, 2);
    BytesExtend(o, 0, 0, 0, 1);
    BytesExtend(o, 0, 0, 0, 0);
    var s := BytesOf(o, v, 4);
    assert s == if o == Little then [v, 0, 0, 0] else [0, 0, 0, v];
    assert Reverse(s)[0] == s[3];
  }

  // ----- the slots of the strings

  /** The slots that argv and envp point at are contiguous from the end of the words, each as
      long as its string with its NUL, and they end inside the segment. */
  lemma SlotsTile(p: Params, i: nat, j: nat)
    requires i < j <= |p.arg + p.env|
    ensures var ss := p.arg + p.env;
            && Room(ss[..i]) + |ss[i]| + 1 == Room(ss[..i + 1]) <= Room(ss[..j])
            && ArgS(p) + Room(ss[..j]) <= Isize(p)
  {
    var ss := p.arg + p.env;
    assert ss[..i + 1][..i] == ss[..i];
    hide Isize;
    assert ss[..j][..i + 1] == ss[..i + 1];
    RoomPrefix(ss[..j], i + 1);
    RoomPrefix(ss, j);
    RoomConcat(p.arg, p.env);
  }

  /** The slots of the variables follow those of the arguments. */
  lemma EnvSlotsFollow(p: Params, k: nat)
    requires k <= |p.env|
    ensures EnvS(p) + Room(p.env[..k]) == ArgS(p) + Room((p.arg + p.env)[..|p.arg| + k])
  {
    hide Room;
    assert (p.arg + p.env)[..|p.arg| + k] == p.arg + p.env[..k];
    RoomConcat(p.arg, p.env[..k]);
  }

  // ----- the strings themselves

  /** Where the slot of string i starts in the segment. */
  function Slot(p: Params, i: nat): nat
    requires i <= |p.arg + p.env| && p.stackSize >= Isize(p)
  {
    p.stackSize - Isize(p) + ArgS(p) + Room((p.arg + p.env)[..i])
  }

  lemma {:induction false} JoinedPrefix(ss: seq<seq<byte>>, i: nat)
    requires i < |ss|
    ensures |Joined(ss[..i])| + |ss[i]| <= |Joined(ss)|
    ensures Joined(ss)[|Joined(ss[..i])|..|Joined(ss[..i])| + |ss[i]|] == ss[i]
  {
    var n := |ss| - 1;
    if i < n {
      JoinedPrefix(ss[..n], i);
      assert ss[..n][..i] == ss[..i];
      var (a, b) := (|Joined(ss[..i])|, |Joined(ss[..i])| + |ss[i]|);
      assert Joined(ss)[a..b] == Joined(ss[..n])[a..b];
    } else {
      assert ss[..n] == ss[..i];
    }
  }

  /** As written, string i lands i bytes below its slot. */
  lemma StringLandsBelow(p: Params, host: Order, init: seq<byte>, i: nat)
    requires |init| == p.stackSize >= Isize(p) && i < |p.arg + p.env|
    ensures var (image, at) := (StackImage(p, host, init), Slot(p, i) - i);
            0 <= at && at + |(p.arg + p.env)[i]| <= |image|
            && image[at..at + |(p.arg + p.env)[i]|] == (p.arg + p.env)[i]
  {
    hide StackImage, StackWords, Isize, Room;
    var ss := p.arg + p.env;
    PartsAt(p, host, init);
    JoinedFits(ss[..i]);
    JoinedPrefix(ss, i);
    hide Joined;
    var image, start, j := StackImage(p, host, init), p.stackSize - Isize(p) + ArgS(p), Joined(ss);
    var a, n := |Joined(ss[..i])|, |ss[i]|;
    assert StringBytes(ss) == j + [0];
    hide StringBytes, Slot;
    SlotStart(p, i, start);
    Within(image, start, j + [0], a, n);
    assert (j + [0])[a..a + n] == j[a..a + n];
  }

  lemma SlotStart(p: Params, i: nat, start: nat)
    requires i <= |p.arg + p.env| && p.stackSize >= Isize(p) && start == p.stackSize - Isize(p) + ArgS(p)
    ensures Slot(p, i) == start + Room((p.arg + p.env)[..i])
  {
  }

  lemma Within(image: seq<byte>, start: nat, s: seq<byte>, a: nat, n: nat)
    requires start + |s| <= |image| && image[start..start + |s|] == s && a + n <= |s|
    ensures image[start + a..start + a + n] == s[a..a + n]
  {
    var w := image[start + a..start + a + n];
    forall x | 0 <= x < n ensures w[x] == s[a..a + n][x] {
      assert image[start..start + |s|][a + x] == image[start + (a + x)];
      assert w[x] == image[start + (a + x)];
    }
    assert |w| == n;
  }

  /** The C string at an offset. */
  predicate Reads(image: seq<byte>, at: nat, s: seq<byte>) {
    at + |s| < |image| && image[at..at + |s|] == s && Cursors.StringEnd(image, at) == at + |s|
  }
}
