/** Symbol tables: the in-place byte conversion of the entries, and the map from names. */
module SymbolTables {
  import opened Words
  import opened Arithmetic
  import opened ByteOrder
  import opened Cursors

  datatype Class = Elf32 | Elf64

  /** sizeof(Elf32_Sym), sizeof(Elf64_Sym). */
  function EntrySize(k: Class): nat {
    match k case Elf32 => 16 case Elf64 => 24
  }

  /** st_name, st_value, st_size, st_shndx as offset and width, in the order they are fixed. */
  function Fields(k: Class): seq<(nat, nat)> {
    match k
    case Elf32 => [(0, 4), (4, 4), (8, 4), (14, 2)]
    case Elf64 => [(0, 4), (8, 8), (16, 8), (6, 2)]
  }

  datatype TableFault = GarbageAtEnd | StrtabOutOfBound | NotDefined

  /** A symbol keeps its name and its entry, here the offset of the entry in the table. */
  datatype Symbol = Symbol(name: seq<byte>, entry: nat)

  datatype Filled = Table(symbols: map<seq<byte>, Symbol>) | Failed(fault: TableFault)

  // ----- what the conversion does, byte by byte

  /** Where a byte of an entry comes from when every multi-byte field is reversed: st_info,
      st_other and anything after the structure stay. */
  function Mirror(k: Class, o: nat): nat {
    match k
    case Elf32 =>
      if o < 4 then 3 - o
      else if o < 8 then 11 - o
      else if o < 12 then 19 - o
      else if 14 <= o < 16 then 29 - o
      else o
    case Elf64 =>
      if o < 4 then 3 - o
      else if 6 <= o < 8 then 13 - o
      else if 8 <= o < 16 then 23 - o
      else if 16 <= o < 24 then 39 - o
      else o
  }

  /** The same for a byte of a table, the entry being found by division. */
  function Origin(k: Class, entsize: nat, i: nat): nat
    requires entsize > 0
  {
    entsize * Div(i, entsize) + Mirror(k, Mod(i, entsize))
  }

  /** The converted table. */
  predicate Converted(d: Decoder, k: Class, entsize: nat, before: seq<byte>, after: seq<byte>)
    requires entsize >= EntrySize(k)
  {
    |before| == |after| &&
    forall i :: 0 <= i < |before| ==>
      Origin(k, entsize, i) < |before| &&
      after[i] == if d.Native() then before[i] else before[Origin(k, entsize, i)]
  }

  lemma MirrorStays(k: Class, o: nat, entsize: nat)
    requires EntrySize(k) <= entsize && o < entsize
    ensures Mirror(k, o) < entsize && Mirror(k, Mirror(k, o)) == o
  {
  }

  lemma OriginInvolutive(k: Class, entsize: nat, i: nat)
    requires EntrySize(k) <= entsize
    ensures Origin(k, entsize, Origin(k, entsize, i)) == i
  {
    var e, o := Div(i, entsize), Mod(i, entsize);
    MirrorStays(k, o, entsize);
    DivMod(i, entsize);
    Nonnegative(e, entsize);
    DivModSplit(entsize * e + Mirror(k, o), entsize, e, Mirror(k, o));
  }

  /** Converting twice restores the table. */
  lemma ConvertTwice(d: Decoder, k: Class, entsize: nat, a: seq<byte>, b: seq<byte>, c: seq<byte>)
    requires entsize >= EntrySize(k) && Converted(d, k, entsize, a, b) && Converted(d, k, entsize, b, c)
    ensures c == a
  {
    forall i | 0 <= i < |a| ensures c[i] == a[i] {
      OriginInvolutive(k, entsize, i);
      if !d.Native() {
        assert c[i] == b[Origin(k, entsize, i)];
      }
    }
  }

  // ----- the conversion in place

  /** A field of n bytes is reversed for a foreign file, and left for a native one. */
  predicate FieldFixed(d: Decoder, before: seq<byte>, after: seq<byte>, off: nat, n: nat) {
    |after| == |before| && off + n <= |before| &&
    forall i {:trigger after[i]} :: 0 <= i < |before| ==>
      after[i] == if !d.Native() && off <= i < off + n then before[2 * off + n - 1 - i] else before[i]
  }

  /** `c.decoder()->fix(field)` on a field of the entry under the cursor. */
  method FixField(data: array<byte>, d: Decoder, off: nat, n: nat)
    requires Width(n) && off + n <= data.Length
    modifies data
    ensures FieldFixed(d, old(data[..]), data[..], off, n)
  {
    hide Value, Swap, BytesOf;
    ghost var before := data[..];
    var s := d.Set(n, d.Get(data[off..off + n]));
    FixInPlace(d, before[off..off + n]);
    assert before[off..off + n] == data[off..off + n];
    CopyInto(data, off, s);
    Spliced(d, before, off, n, s);
    assert data[..] == before[..off] + s + before[off + n..];
  }

  lemma Spliced(d: Decoder, before: seq<byte>, off: nat, n: nat, s: seq<byte>)
    requires off + n <= |before| && |s| == n
    requires s == if d.Native() then before[off..off + n] else Reverse(before[off..off + n])
    ensures FieldFixed(d, before, before[..off] + s + before[off + n..], off, n)
  {
  }

  /** The fields of the entry at `base` are reversed for a foreign file. */
  predicate EntryFixed(d: Decoder, k: Class, before: seq<byte>, after: seq<byte>, base: nat) {
    |after| == |before| && base + EntrySize(k) <= |before| &&
    forall i {:trigger after[i]} :: 0 <= i < |before| ==>
      after[i] == if !d.Native() && base <= i < base + EntrySize(k) then before[base + Mirror(k, i - base)]
                  else before[i]
  }

  /** The four fields of an entry. */
  method FixEntry(data: array<byte>, d: Decoder, k: Class, base: nat)
    requires base + EntrySize(k) <= data.Length
    modifies data
    ensures EntryFixed(d, k, old(data[..]), data[..], base)
  {
    hide FieldFixed, EntryFixed;
    ghost var f := Fields(k);
    FixField(data, d, base, 4);
    ghost var b1 := data[..];
    if k == Elf32 {
      FixField(data, d, base + 4, 4);
    } else {
      FixField(data, d, base + 8, 8);
    }
    ghost var b2 := data[..];
    if k == Elf32 {
      FixField(data, d, base + 8, 4);
    } else {
      FixField(data, d, base + 16, 8);
    }
    ghost var b3 := data[..];
    if k == Elf32 {
      FixField(data, d, base + 14, 2);
    } else {
      FixField(data, d, base + 6, 2);
    }
    FieldsMakeEntry(d, k, old(data[..]), b1, b2, b3, data[..], base);
  }

  lemma FieldsMakeEntry(d: Decoder, k: Class, b0: seq<byte>, b1: seq<byte>, b2: seq<byte>, b3: seq<byte>,
                        b4: seq<byte>, base: nat)
    requires base + EntrySize(k) <= |b0|
    requires FieldFixed(d, b0, b1, base + Fields(k)[0].0, Fields(k)[0].1)
    requires FieldFixed(d, b1, b2, base + Fields(k)[1].0, Fields(k)[1].1)
    requires FieldFixed(d, b2, b3, base + Fields(k)[2].0, Fields(k)[2].1)
    requires FieldFixed(d, b3, b4, base + Fields(k)[3].0, Fields(k)[3].1)
    ensures EntryFixed(d, k, b0, b4, base)
  {
    if d.Native() {
      return;
    }
    forall i | 0 <= i < |b0|
      ensures b4[i] == if base <= i < base + EntrySize(k) then b0[base + Mirror(k, i - base)] else b0[i]
    {
      var m := if base <= i < base + EntrySize(k) then base + Mirror(k, i - base) else i;
      var f := Fields(k);
      // the byte is moved by at most one of the four steps, and its source by none before it
      assert b4[i] == if base + f[3].0 <= i < base + f[3].0 + f[3].1 then b3[m] else b3[i];
      assert b3[i] == if base + f[2].0 <= i < base + f[2].0 + f[2].1 then b2[m] else b2[i];
      assert b2[i] == if base + f[1].0 <= i < base + f[1].0 + f[1].1 then b1[m] else b1[i];
      assert b1[i] == if base + f[0].0 <= i < base + f[0].0 + f[0].1 then b0[m] else b0[i];
      assert base + f[3].0 <= i < base + f[3].0 + f[3].1 ==> b3[m] == b2[m] == b1[m] == b0[m];
      assert base + f[2].0 <= i < base + f[2].0 + f[2].1 ==> b2[m] == b1[m] == b0[m];
      assert base + f[1].0 <= i < base + f[1].0 + f[1].1 ==> b1[m] == b0[m];
    }
  }

  /** The first `off` bytes of the table are converted, the others are as in the file. */
  predicate ConvertedTo(d: Decoder, k: Class, entsize: nat, file: seq<byte>, now: seq<byte>, off: nat)
    requires entsize > 0
  {
    && |now| == |file| && off <= |file|
    && (forall i :: 0 <= i < off ==> Origin(k, entsize, i) < |file|)
    && (forall i :: 0 <= i < off ==> now[i] == if d.Native() then file[i] else file[Origin(k, entsize, i)])
    && (forall i :: off <= i < |file| ==> now[i] == file[i])
  }

  lemma OriginInEntry(k: Class, entsize: nat, n: nat, o: nat)
    requires EntrySize(k) <= entsize && o < entsize
    ensures Origin(k, entsize, entsize * n + o) == entsize * n + Mirror(k, o)
  {
    Nonnegative(n, entsize);
    DivModSplit(entsize * n + o, entsize, n, o);
  }

  lemma EntryConverted(d: Decoder, k: Class, entsize: nat, file: seq<byte>, was: seq<byte>, now: seq<byte>, base: nat)
    requires EntrySize(k) <= entsize && Mod(base, entsize) == 0 && base + entsize <= |file|
    requires ConvertedTo(d, k, entsize, file, was, base) && EntryFixed(d, k, was, now, base)
    ensures ConvertedTo(d, k, entsize, file, now, base + entsize)
  {
    hide Origin, Mirror, Div, Mod;
    DivMod(base, entsize);
    forall i | 0 <= i < base + entsize
      ensures Origin(k, entsize, i) < |file|
      ensures now[i] == if d.Native() then file[i] else file[Origin(k, entsize, i)]
    {
      if i >= base {
        OriginOf(k, entsize, Div(base, entsize), base, i);
      } else {
        assert now[i] == was[i];
      }
    }
  }

  lemma OriginOf(k: Class, entsize: nat, n: nat, base: nat, i: nat)
    requires EntrySize(k) <= entsize && base == entsize * n && base <= i < base + entsize
    ensures base <= Origin(k, entsize, i) < base + entsize
    ensures Origin(k, entsize, i) == if i < base + EntrySize(k) then base + Mirror(k, i - base) else i
  {
    OriginInEntry(k, entsize, n, i - base);
    MirrorStays(k, i - base, entsize);
  }

  /** A byte of a converted entry. */
  lemma ConvertedByte(d: Decoder, k: Class, entsize: nat, before: seq<byte>, after: seq<byte>, e: nat, y: nat)
    requires entsize >= EntrySize(k) && Converted(d, k, entsize, before, after)
    requires entsize * e + entsize <= |before| && y < EntrySize(k)
    ensures var b := entsize * e;
            && 0 <= b && Mirror(k, y) < entsize
            && after[b + y] == if d.Native() then before[b + y] else before[b + Mirror(k, y)]
  {
    Nonnegative(e, entsize);
    MirrorStays(k, y, entsize);
    OriginOf(k, entsize, e, entsize * e, entsize * e + y);
    hide Origin, Mirror;
  }

  /** A field of a converted entry: its native value is the value it has in the file. */
  lemma FieldIsNative(d: Decoder, k: Class, entsize: nat, before: seq<byte>, after: seq<byte>,
                      e: nat, b: nat, o: nat, n: nat)
    requires entsize >= EntrySize(k) && Converted(d, k, entsize, before, after) && b == entsize * e
    requires b + entsize <= |before| && o + n <= EntrySize(k)
    requires forall y :: o <= y < o + n ==> Mirror(k, y) == 2 * o + n - 1 - y
    ensures |after| == |before|
    ensures Value(d.host, after[b + o..b + o + n]) == Value(d.FileOrder(), before[b + o..b + o + n])
  {
    var (s, t) := (before[b + o..b + o + n], after[b + o..b + o + n]);
    hide Value, Origin, Mirror;
    forall x | 0 <= x < n ensures t[x] == if d.Native() then s[x] else Reverse(s)[x] {
      ConvertedByte(d, k, entsize, before, after, e, o + x);
    }
    assert t == if d.Native() then s else Reverse(s);
    ValueReverse(s);
  }

  /** st_name, st_value, st_size and st_shndx of a converted entry, at their offsets in the
      32-bit and the 64-bit structure. */
  lemma FieldsAreNative(d: Decoder, entsize: nat, before: seq<byte>, after: seq<byte>, e: nat, b: nat)
    requires b == entsize * e && b + entsize <= |before| == |after|
    ensures entsize >= 16 && Converted(d, Elf32, entsize, before, after) ==>
              && Value(d.host, after[b..b + 4]) == Value(d.FileOrder(), before[b..b + 4])
              && Value(d.host, after[b + 4..b + 8]) == Value(d.FileOrder(), before[b + 4..b + 8])
              && Value(d.host, after[b + 8..b + 12]) == Value(d.FileOrder(), before[b + 8..b + 12])
              && Value(d.host, after[b + 14..b + 16]) == Value(d.FileOrder(), before[b + 14..b + 16])
    ensures entsize >= 24 && Converted(d, Elf64, entsize, before, after) ==>
              && Value(d.host, after[b..b + 4]) == Value(d.FileOrder(), before[b..b + 4])
              && Value(d.host, after[b + 6..b + 8]) == Value(d.FileOrder(), before[b + 6..b + 8])
              && Value(d.host, after[b + 8..b + 16]) == Value(d.FileOrder(), before[b + 8..b + 16])
              && Value(d.host, after[b + 16..b + 24]) == Value(d.FileOrder(), before[b + 16..b + 24])
  {
    hide Converted, Value, Decoder.FileOrder, Decoder.Native;
    if entsize >= 16 && Converted(d, Elf32, entsize, before, after) {
      FieldIsNative(d, Elf32, entsize, before, after, e, b, 0, 4);
      FieldIsNative(d, Elf32, entsize, before, after, e, b, 4, 4);
      FieldIsNative(d, Elf32, entsize, before, after, e, b, 8, 4);
      FieldIsNative(d, Elf32, entsize, before, after, e, b, 14, 2);
    }
    if entsize >= 24 && Converted(d, Elf64, entsize, before, after) {
      FieldIsNative(d, Elf64, entsize, before, after, e, b, 0, 4);
      FieldIsNative(d, Elf64, entsize, before, after, e, b, 6, 2);
      FieldIsNative(d, Elf64, entsize, before, after, e, b, 8, 8);
      FieldIsNative(d, Elf64, entsize, before, after, e, b, 16, 8);
    }
  }

  // ----- names

  /** `stringAt`: the string of a section, given the section if there is one of that index. */
  function StringAt(strtab: seq<byte>, offset: nat): Result<seq<byte>> {
    if offset >= |strtab| then Fail(Undefined) // ASSERT in Buffer::get
    else if StringEnd(strtab, offset) == |strtab| then Fail(Undefined) // no NUL in the section
    else Ok(strtab[offset..StringEnd(strtab, offset)])
  }

  /** The name of the entry at an offset of the table as it is in the file. */
  function NameAt(d: Decoder, file: seq<byte>, base: nat, strtab: seq<byte>): Result<seq<byte>>
    requires base + 4 <= |file|
  {
    StringAt(strtab, Word(d.FileOrder(), file, base, 4))
  }

  /** The table after the first n entries, in the order of the loop. */
  function FilledBy(d: Decoder, file: seq<byte>, entsize: nat, strtab: seq<byte>,
                    symtab: map<seq<byte>, Symbol>, n: nat): Filled
    requires entsize >= 4 && entsize * n <= |file|
  {
    if n == 0 then Table(symtab)
    else
      NextEntry(n - 1, n, entsize);
      var before := FilledBy(d, file, entsize, strtab, symtab, n - 1);
      var name := NameAt(d, file, entsize * (n - 1), strtab);
      if before.Failed? then before
      else if name.Fail? then Failed(NotDefined)
      else Table(before.symbols[name.value := Symbol(name.value, entsize * (n - 1))])
  }

  /** What `fillSymbolTable` makes of a section. */
  function FilledFrom(d: Decoder, k: Class, file: seq<byte>, entsize: nat, strtab: Result<seq<byte>>,
                      symtab: map<seq<byte>, Symbol>): Filled
  {
    if entsize == 0 then Failed(NotDefined) // division by zero
    else if Mod(|file|, entsize) != 0 then Failed(GarbageAtEnd)
    else if file == [] then Table(symtab)
    else if |file| < EntrySize(k) then Failed(NotDefined) // the first entry passes the buffer
    else if strtab.Fail? then Failed(StrtabOutOfBound)
    else if entsize < EntrySize(k) then Failed(NotDefined) // the last entry does, if none before fails
    else
      EntryCount(file, entsize);
      FilledBy(d, file, entsize, strtab.value, symtab, Div(|file|, entsize))
  }

  lemma EntryCount(file: seq<byte>, entsize: nat)
    requires entsize > 0 && Mod(|file|, entsize) == 0
    ensures entsize * Div(|file|, entsize) == |file|
    ensures file != [] ==> entsize <= |file|
  {
    DivMod(|file|, entsize);
    hide Div;
    MulAtLeast(entsize, Div(|file|, entsize));
  }

  class SymbolTable {
    var symbols: map<seq<byte>, Symbol>

    constructor ()
      ensures symbols == map[]
    {
      symbols := map[];
    }

    method Put(name: seq<byte>, s: Symbol)
      modifies this
      ensures symbols == old(symbols)[name := s]
    {
      symbols := symbols[name := s];
    }
  }

  /** One turn of the loop: an entry is fixed, and its symbol is put under its name. */
  method FillEntry(c: Cursor, k: Class, entsize: nat, strtab: seq<byte>, symtab: SymbolTable)
    returns (res: Result<()>)
    requires c.Valid() && EntrySize(k) <= entsize && c.off + entsize <= c.data.Length
    modifies c`off, c.data, symtab
    ensures c.Valid() && c.off == old(c.off) + entsize
    ensures EntryFixed(c.decoder, k, old(c.data[..]), c.data[..], old(c.off))
    ensures var name := NameAt(c.decoder, old(c.data[..]), old(c.off), strtab);
            match res
            case Ok(_) => name.Ok? && symtab.symbols == old(symtab.symbols)[name.value := Symbol(name.value, old(c.off))]
            case Fail(_) => name.Fail?
  {
    hide Value, StringAt;
    var base := c.off;
    ghost var was := c.data[..];
    FixEntry(c.data, c.decoder, k, base);
    var skipped := c.Skip(entsize);
    var offset := Value(c.decoder.host, c.data[base..base + 4]);
    FixedName(c.decoder, k, was, c.data[..], base);
    assert c.data[..][base..base + 4] == c.data[base..base + 4];
    var name := StringAt(strtab, offset);
    if name.Fail? {
      return Fail(Undefined);
    }
    symtab.Put(name.value, Symbol(name.value, base));
    return Ok(());
  }

  /** A native load of the converted st_name gives the word the file means. */
  lemma FixedName(d: Decoder, k: Class, was: seq<byte>, now: seq<byte>, base: nat)
    requires EntryFixed(d, k, was, now, base)
    ensures Value(d.host, now[base..base + 4]) == Word(d.FileOrder(), was, base, 4)
  {
    hide Value;
    var a, b := was[base..base + 4], now[base..base + 4];
    assert forall i :: 0 <= i < 4 ==> b[i] == now[base + i];
    if d.Native() {
      assert b == a;
    } else {
      assert b == Reverse(a);
      ValueReverse(a);
    }
  }

  /** The names of the entries from an offset on, as the loop meets them. */
  function Walk(d: Decoder, file: seq<byte>, entsize: nat, strtab: seq<byte>,
                symtab: map<seq<byte>, Symbol>, off: nat): Filled
    requires entsize >= 4
    decreases |file| - off
  {
    if off + entsize > |file| then Table(symtab)
    else
      var name := NameAt(d, file, off, strtab);
      if name.Fail? then Failed(NotDefined)
      else Walk(d, file, entsize, strtab, symtab[name.value := Symbol(name.value, off)], off + entsize)
  }

  /** The loop stands at an entry; the bytes before it are converted, and the table holds the
      names of the entries before it. */
  predicate StandsAt(d: Decoder, k: Class, file: seq<byte>, entsize: nat, strtab: seq<byte>, all: Filled,
                     now: seq<byte>, symtab: map<seq<byte>, Symbol>, off: nat)
    requires EntrySize(k) <= entsize
  {
    && ConvertedTo(d, k, entsize, file, now, off) && Mod(off, entsize) == 0
    && all == Walk(d, file, entsize, strtab, symtab, off)
  }

  /** The loop of `fillSymbolTable`. */
  method FillEntries(data: array<byte>, d: Decoder, k: Class, entsize: nat, strtab: seq<byte>, symtab: SymbolTable)
    returns (res: Result<()>)
    requires EntrySize(k) <= entsize <= data.Length < TWO_63 && Mod(data.Length, entsize) == 0
    modifies data, symtab
    ensures var f := Walk(d, old(data[..]), entsize, strtab, old(symtab.symbols), 0);
            match res
            case Ok(_) => f == Table(symtab.symbols) && Converted(d, k, entsize, old(data[..]), data[..])
            case Fail(_) => f == Failed(NotDefined)
  {
    hide NameAt, StandsAt, Converted, EntryFixed, Mod, Walk, ConvertedTo;
    ghost var file := data[..];
    ghost var all := Walk(d, file, entsize, strtab, symtab.symbols, 0);
    hide EntrySize;
    var c := new Cursor(data, d);
    FirstEntry(d, k, file, entsize, strtab, symtab.symbols);
    while c.Avail(entsize)
      invariant c.Valid() && c.data == data && c.decoder == d
      invariant StandsAt(d, k, file, entsize, strtab, all, data[..], symtab.symbols, c.off)
      decreases data.Length - c.off
    {
      ghost var was, m, base := data[..], symtab.symbols, c.off;
      var r := FillEntry(c, k, entsize, strtab, symtab);
      EntryDone(d, k, file, entsize, strtab, all, was, data[..], m, base);
      if r.Fail? {
        return Fail(Undefined);
      }
    }
    TableDone(d, k, file, entsize, strtab, all, data[..], symtab.symbols, c.off);
    return Ok(());
  }

  lemma FirstEntry(d: Decoder, k: Class, file: seq<byte>, entsize: nat, strtab: seq<byte>, m: map<seq<byte>, Symbol>)
    requires EntrySize(k) <= entsize
    ensures StandsAt(d, k, file, entsize, strtab, Walk(d, file, entsize, strtab, m, 0), file, m, 0)
  {
    hide Walk;
    NothingConverted(d, k, entsize, file);
    AlignedAtZero(entsize);
  }

  lemma EntryDone(d: Decoder, k: Class, file: seq<byte>, entsize: nat, strtab: seq<byte>, all: Filled,
                  was: seq<byte>, now: seq<byte>, m: map<seq<byte>, Symbol>, off: nat)
    requires EntrySize(k) <= entsize && off + entsize <= |file| == |was| && Mod(|file|, entsize) == 0
    requires StandsAt(d, k, file, entsize, strtab, all, was, m, off) && EntryFixed(d, k, was, now, off)
    ensures var name := NameAt(d, was, off, strtab);
            if name.Fail? then all == Failed(NotDefined)
            else StandsAt(d, k, file, entsize, strtab, all, now, m[name.value := Symbol(name.value, off)], off + entsize)
  {
    hide NameAt, EntryFixed, Mod, Walk, ConvertedTo;
    SameName(d, k, entsize, file, was, off, strtab);
    WalkStep(d, file, entsize, strtab, m, off);
    EntryConverted(d, k, entsize, file, was, now, off);
    Aligned(off, |file|, entsize);
  }

  lemma TableDone(d: Decoder, k: Class, file: seq<byte>, entsize: nat, strtab: seq<byte>, all: Filled,
                  now: seq<byte>, m: map<seq<byte>, Symbol>, off: nat)
    requires EntrySize(k) <= entsize && off <= |file| < off + entsize && Mod(|file|, entsize) == 0
    requires StandsAt(d, k, file, entsize, strtab, all, now, m, off)
    ensures all == Table(m) && Converted(d, k, entsize, file, now)
  {
    hide NameAt, Mod, Walk, ConvertedTo, Converted;
    Aligned(off, |file|, entsize);
    WalkStep(d, file, entsize, strtab, m, off);
    AllConverted(d, k, entsize, file, now);
  }

  lemma WalkStep(d: Decoder, file: seq<byte>, entsize: nat, strtab: seq<byte>, m: map<seq<byte>, Symbol>, off: nat)
    requires entsize >= 4
    ensures Walk(d, file, entsize, strtab, m, off) ==
            if off + entsize > |file| then Table(m)
            else
              var name := NameAt(d, file, off, strtab);
              if name.Fail? then Failed(NotDefined)
              else Walk(d, file, entsize, strtab, m[name.value := Symbol(name.value, off)], off + entsize)
  {
  }

  lemma AlignedAtZero(entsize: nat)
    requires entsize > 0
    ensures Mod(0, entsize) == 0
  {
  }

  /** Multiples of the entry size are an entry apart. */
  lemma Aligned(off: nat, size: nat, entsize: nat)
    requires entsize > 0 && Mod(off, entsize) == 0 && Mod(size, entsize) == 0 && off <= size
    ensures Mod(off + entsize, entsize) == 0
    ensures off + entsize > size ==> off == size
  {
    var a, b := Div(off, entsize), Div(size, entsize);
    DivMod(off, entsize);
    DivMod(size, entsize);
    hide Div, Mod;
    Distribute(a, 1, entsize);
    DivModSplit(off + entsize, entsize, a + 1, 0);
    if off + entsize > size {
      LastEntry(a, b, entsize);
    }
  }

  /** The loop ends in the table of all the entries. */
  lemma {:induction false} WalkFills(d: Decoder, file: seq<byte>, entsize: nat, strtab: seq<byte>,
                                     s0: map<seq<byte>, Symbol>, n: nat, count: nat)
    requires entsize >= 4 && n <= count && entsize * n <= |file| == entsize * count
    requires FilledBy(d, file, entsize, strtab, s0, n).Table?
    ensures Walk(d, file, entsize, strtab, FilledBy(d, file, entsize, strtab, s0, n).symbols, entsize * n) ==
            FilledBy(d, file, entsize, strtab, s0, count)
    decreases count - n
  {
    hide NameAt, FilledBy;
    if n < count {
      NextEntry(n, count, entsize);
      Room(n, count, entsize);
      OneFilled(d, file, entsize, strtab, s0, n);
      if NameAt(d, file, entsize * n, strtab).Ok? {
        WalkFills(d, file, entsize, strtab, s0, n + 1, count);
      } else {
        FailedStays(d, file, entsize, strtab, s0, n + 1, count);
      }
    }
  }

  lemma Room(n: nat, count: nat, entsize: nat)
    requires n < count
    ensures entsize * n + entsize <= entsize * count
  {
    Distribute(n + 1, count - n - 1, entsize);
    Distribute(n, 1, entsize);
    Nonnegative(count - n - 1, entsize);
  }

  /** `fillSymbolTable` on the bytes of the section. The loop visits every entry, fixes each of
      its multi-byte fields once and touches no other byte. */
  method FillSymbolTable(data: array<byte>, d: Decoder, k: Class, entsize: nat, strtab: Result<seq<byte>>,
                         symtab: SymbolTable)
    returns (res: Filled)
    requires data.Length < TWO_63
    modifies data, symtab
    ensures res == FilledFrom(d, k, old(data[..]), entsize, strtab, old(symtab.symbols))
    ensures res.Table? ==> symtab.symbols == res.symbols
    ensures res.Table? && data.Length > 0 ==>
              EntrySize(k) <= entsize && Converted(d, k, entsize, old(data[..]), data[..])
  {
    hide Converted, FilledBy;
    if entsize == 0 {
      return Failed(NotDefined);
    }
    if Mod(data.Length, entsize) != 0 {
      return Failed(GarbageAtEnd);
    }
    if data.Length == 0 {
      return Table(symtab.symbols);
    }
    if data.Length < EntrySize(k) {
      return Failed(NotDefined);
    }
    if strtab.Fail? {
      return Failed(StrtabOutOfBound);
    }
    if entsize < EntrySize(k) {
      return Failed(NotDefined);
    }
    EntryCount(data[..], entsize);
    NoneFilled(d, data[..], entsize, strtab.value, symtab.symbols);
    WalkFills(d, data[..], entsize, strtab.value, symtab.symbols, 0, Div(data.Length, entsize));
    var r := FillEntries(data, d, k, entsize, strtab.value, symtab);
    return if r.Ok? then Table(symtab.symbols) else Failed(NotDefined);
  }

  lemma NoneFilled(d: Decoder, file: seq<byte>, entsize: nat, strtab: seq<byte>, s0: map<seq<byte>, Symbol>)
    requires entsize >= 4
    ensures entsize * 0 <= |file| && FilledBy(d, file, entsize, strtab, s0, 0) == Table(s0)
  {
  }

  lemma OneFilled(d: Decoder, file: seq<byte>, entsize: nat, strtab: seq<byte>, s0: map<seq<byte>, Symbol>, n: nat)
    requires entsize >= 4 && entsize * n + entsize <= |file| && entsize * (n + 1) == entsize * n + entsize
    requires FilledBy(d, file, entsize, strtab, s0, n).Table?
    ensures var name := NameAt(d, file, entsize * n, strtab);
            FilledBy(d, file, entsize, strtab, s0, n + 1) ==
            if name.Fail? then Failed(NotDefined)
            else Table(FilledBy(d, file, entsize, strtab, s0, n).symbols[name.value := Symbol(name.value, entsize * n)])
  {
    hide NameAt;
  }

  lemma NothingConverted(d: Decoder, k: Class, entsize: nat, file: seq<byte>)
    requires entsize > 0
    ensures ConvertedTo(d, k, entsize, file, file, 0)
  {
  }

  lemma AllConverted(d: Decoder, k: Class, entsize: nat, file: seq<byte>, now: seq<byte>)
    requires EntrySize(k) <= entsize && ConvertedTo(d, k, entsize, file, now, |file|)
    ensures Converted(d, k, entsize, file, now)
  {
    hide Origin;
  }

  lemma SameName(d: Decoder, k: Class, entsize: nat, file: seq<byte>, now: seq<byte>, off: nat, strtab: seq<byte>)
    requires entsize > 0 && ConvertedTo(d, k, entsize, file, now, off) && off + 4 <= |file|
    ensures NameAt(d, now, off, strtab) == NameAt(d, file, off, strtab)
  {
    assert now[off..off + 4] == file[off..off + 4];
  }

  lemma {:induction false} FailedStays(d: Decoder, file: seq<byte>, entsize: nat, strtab: seq<byte>,
                                       s0: map<seq<byte>, Symbol>, n: nat, m: nat)
    requires entsize >= 4 && n <= m && entsize * m <= |file| && entsize * n <= |file|
    requires FilledBy(d, file, entsize, strtab, s0, n).Failed?
    ensures FilledBy(d, file, entsize, strtab, s0, m) == Failed(NotDefined)
    decreases m
  {
    hide NameAt;
    if n < m {
      NextEntry(m - 1, m, entsize);
      FailedStays(d, file, entsize, strtab, s0, n, m - 1);
    } else if m > 0 {
      NextEntry(m - 1, m, entsize);
      if FilledBy(d, file, entsize, strtab, s0, m - 1).Failed? {
        FailedStays(d, file, entsize, strtab, s0, m - 1, m - 1);
      }
    }
  }

  lemma NextEntry(n: nat, count: nat, entsize: nat)
    requires entsize > 0
    ensures entsize * (n + 1) == entsize * n + entsize
    ensures entsize * n + entsize <= entsize * count ==> n < count
  {
    MulAtLeast(entsize, n - count);
  }

  lemma LastEntry(n: nat, count: nat, entsize: nat)
    requires entsize > 0 && n <= count && entsize * n + entsize > entsize * count
    ensures n == count
  {
    MulAtLeast(entsize, count - n);
    assert entsize * (count - n) == entsize * count - entsize * n;
  }

  // ----- which entry a name leads to

  predicate Named(d: Decoder, file: seq<byte>, entsize: nat, strtab: seq<byte>, e: nat, name: seq<byte>) {
    entsize * e + 4 <= |file| && NameAt(d, file, entsize * e, strtab) == Ok(name)
  }

  /** The last of the first n entries that has a name, or -1. */
  function LastNamed(d: Decoder, file: seq<byte>, entsize: nat, strtab: seq<byte>, n: nat, name: seq<byte>): (e: int)
    ensures -1 <= e < n
    ensures e >= 0 ==> Named(d, file, entsize, strtab, e, name)
    ensures forall j :: e < j < n ==> !Named(d, file, entsize, strtab, j, name)
  {
    if n == 0 then -1
    else if Named(d, file, entsize, strtab, n - 1, name) then n - 1
    else LastNamed(d, file, entsize, strtab, n - 1, name)
  }

  /** Each name is left mapped to its last entry; a name of no entry keeps what it had. */
  lemma {:induction false} NamesLeadToLast(d: Decoder, file: seq<byte>, entsize: nat, strtab: seq<byte>,
                                           s0: map<seq<byte>, Symbol>, n: nat, name: seq<byte>)
    requires entsize >= 4 && entsize * n <= |file| && FilledBy(d, file, entsize, strtab, s0, n).Table?
    ensures var s := FilledBy(d, file, entsize, strtab, s0, n).symbols;
            var e := LastNamed(d, file, entsize, strtab, n, name);
            if e >= 0 then name in s && s[name] == Symbol(name, entsize * e)
            else (name in s <==> name in s0) && (name in s0 ==> s[name] == s0[name])
  {
    hide NameAt;
    if n > 0 {
      NextEntry(n - 1, n, entsize);
      NamesLeadToLast(d, file, entsize, strtab, s0, n - 1, name);
    }
  }

  // ----- names and entries, in bytes

  /** The string table holds the name, with its NUL, at the offset that the first word of entry e
      gives. */
  predicate NamedBy(d: Decoder, file: seq<byte>, entsize: nat, strtab: seq<byte>, e: nat, name: seq<byte>) {
    && entsize * e + 4 <= |file|
    && Holds(strtab, Value(d.FileOrder(), file[entsize * e..entsize * e + 4]), name + [0])
  }

  lemma StringHeld(strtab: seq<byte>, offset: nat, name: seq<byte>)
    requires 0 !in name
    ensures StringAt(strtab, offset) == Ok(name) <==> Holds(strtab, offset, name + [0])
  {
    if Holds(strtab, offset, name + [0]) {
      var w := strtab[offset..offset + |name| + 1];
      assert w[..|name|] == name == strtab[offset..offset + |name|];
      assert w[|name|] == 0 == strtab[offset + |name|];
      StringEndUnique(strtab, offset, offset + |name|);
    }
    if StringAt(strtab, offset) == Ok(name) {
      var end := StringEnd(strtab, offset);
      assert strtab[offset..end + 1] == strtab[offset..end] + [0];
    }
  }

  lemma NamedIsHeld(d: Decoder, file: seq<byte>, entsize: nat, strtab: seq<byte>, e: nat, name: seq<byte>)
    requires 0 !in name
    ensures Named(d, file, entsize, strtab, e, name) <==> NamedBy(d, file, entsize, strtab, e, name)
  {
    if entsize * e + 4 <= |file| {
      StringHeld(strtab, Word(d.FileOrder(), file, entsize * e, 4), name);
    }
    hide Holds, StringAt, Value;
  }

  /** After the table is filled, a name that the string table holds for an entry, and for no later
      one, leads to that entry. */
  lemma SymbolFound(d: Decoder, k: Class, file: seq<byte>, entsize: nat, strtab: seq<byte>,
                    s0: map<seq<byte>, Symbol>, e: nat, name: seq<byte>)
    requires FilledFrom(d, k, file, entsize, Ok(strtab), s0).Table? && 0 !in name
    requires entsize * e + entsize <= |file| && NamedBy(d, file, entsize, strtab, e, name)
    requires forall x: nat :: x > e && entsize * x + entsize <= |file| ==> !NamedBy(d, file, entsize, strtab, x, name)
    ensures var s := FilledFrom(d, k, file, entsize, Ok(strtab), s0).symbols;
            name in s && s[name] == Symbol(name, entsize * e)
  {
    var n := FilledCount(d, k, file, entsize, strtab, s0);
    hide FilledFrom, FilledBy, NamedBy, NameAt, Named, Div, Mod;
    NextEntry(e, n, entsize);
    NamesLeadToLast(d, file, entsize, strtab, s0, n, name);
    var l := LastNamed(d, file, entsize, strtab, n, name);
    NamedIsHeld(d, file, entsize, strtab, e, name);
    NamedIsHeld(d, file, entsize, strtab, if l < 0 then 0 else l, name);
    if l > e {
      Room(l, n, entsize);
    }
  }

  /** How many entries a table that is filled has. */
  lemma FilledCount(d: Decoder, k: Class, file: seq<byte>, entsize: nat, strtab: seq<byte>, s0: map<seq<byte>, Symbol>)
    returns (n: nat)
    requires FilledFrom(d, k, file, entsize, Ok(strtab), s0).Table? && file != []
    ensures entsize >= EntrySize(k) && entsize * n == |file|
    ensures FilledFrom(d, k, file, entsize, Ok(strtab), s0) == FilledBy(d, file, entsize, strtab, s0, n)
  {
    EntryCount(file, entsize);
    n := Div(|file|, entsize);
    hide FilledBy, Div, Mod;
  }

  /** The entries do not fill the table exactly when its size is no multiple of theirs. */
  lemma GarbageExactly(d: Decoder, k: Class, file: seq<byte>, entsize: nat, strtab: Result<seq<byte>>,
                       s0: map<seq<byte>, Symbol>)
    ensures FilledFrom(d, k, file, entsize, strtab, s0) == Failed(GarbageAtEnd) <==>
            entsize > 0 && forall n: nat :: entsize * n != |file|
  {
    if entsize > 0 {
      if Mod(|file|, entsize) == 0 {
        EntryCount(file, entsize);
      } else if n: nat :| entsize * n == |file| {
        DivModSplit(|file|, entsize, n, 0);
      }
    }
    hide Div, Mod;
    if entsize > 0 && Mod(|file|, entsize) == 0 && file != [] && strtab.Ok? && entsize >= 4 {
      NotGarbage(d, file, entsize, strtab.value, s0);
    }
  }

  lemma NotGarbage(d: Decoder, file: seq<byte>, entsize: nat, strtab: seq<byte>, s0: map<seq<byte>, Symbol>)
    requires entsize >= 4
    ensures forall n: nat :: entsize * n <= |file| ==> FilledBy(d, file, entsize, strtab, s0, n) != Failed(GarbageAtEnd)
  {
    forall n: nat | entsize * n <= |file|
      ensures FilledBy(d, file, entsize, strtab, s0, n) != Failed(GarbageAtEnd)
    {
      FaultOfFilled(d, file, entsize, strtab, s0, n);
    }
  }

  lemma {:induction false} FaultOfFilled(d: Decoder, file: seq<byte>, entsize: nat, strtab: seq<byte>,
                                         s0: map<seq<byte>, Symbol>, n: nat)
    requires entsize >= 4 && entsize * n <= |file|
    ensures FilledBy(d, file, entsize, strtab, s0, n) != Failed(GarbageAtEnd)
  {
    hide NameAt;
    if n > 0 {
      NextEntry(n - 1, n, entsize);
      FaultOfFilled(d, file, entsize, strtab, s0, n - 1);
    }
  }
}
