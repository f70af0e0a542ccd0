/** Encoding whole units, and reading the section they make. */
module LineUnitEncoding {
  import opened Words
  import opened Bits
  import opened ByteOrder
  import opened Cursors
  import opened Leb128
  import LineTable
  import opened LineProgram
  import opened LineEncoding
  import opened LineUnit

  /** What a producer writes: the header fields, the tables, the program, and the padding
      that the header length and the unit length cover. */
  datatype Source = Source(
    version: nat, h: LineTable.Header, isStmt: byte, lengths: seq<byte>, dirs: seq<seq<byte>>,
    entries: seq<EntryItem>, headPad: seq<byte>, program: seq<Item>, unitPad: seq<byte>)

  /** A file-table entry, and how many groups its numbers have more than they need. */
  datatype EntryItem = EntryItem(entry: FileEntry, dirMore: nat, dateMore: nat, sizeMore: nat)

  function Entries(items: seq<EntryItem>): (entries: seq<FileEntry>)
    ensures |entries| == |items|
  {
    if items == [] then [] else [items[0].entry] + Entries(items[1..])
  }

  predicate Name(s: seq<byte>) {
    s != [] && 0 !in s
  }

  predicate GoodEntry(it: EntryItem, dirs: nat) {
    && Name(it.entry.name) && it.entry.dir <= dirs
    && FitsU(it.entry.dir, it.dirMore) && FitsU(it.entry.date, it.dateMore) && FitsU(it.entry.size, it.sizeMore)
  }

  predicate Good(u: Source) {
    GoodTables(u) && Sequence(u.h, u.program)
  }

  predicate GoodTables(u: Source) {
    && u.version <= 4 && (u.version < 4 ==> u.h.maxOps == 1)
    && -TWO_7 <= u.h.lineBase < TWO_7
    && u.h.opcodeBase >= 1 && |u.lengths| == u.h.opcodeBase - 1
    && (forall d :: d in u.dirs ==> Name(d)) && |u.dirs| < TWO_31
    && (forall it :: it in u.entries ==> GoodEntry(it, |u.dirs|))
  }

  function EncodeDirs(dirs: seq<seq<byte>>): seq<byte> {
    if dirs == [] then [0] else dirs[0] + ([0] + EncodeDirs(dirs[1..]))
  }

  function EncodeEntry(it: EntryItem): seq<byte> {
    PaddedU(it.entry.dir, it.dirMore) + (PaddedU(it.entry.date, it.dateMore) + PaddedU(it.entry.size, it.sizeMore))
  }

  function EncodeFiles(items: seq<EntryItem>): seq<byte> {
    if items == [] then [0]
    else items[0].entry.name + ([0] + (EncodeEntry(items[0]) + EncodeFiles(items[1..])))
  }

  function EncodeParams(u: Source): seq<byte> {
    [u.h.minInst] + (if u.version >= 4 then [u.h.maxOps] else []) +
    [u.isStmt, U8(u.h.lineBase), u.h.lineRange, u.h.opcodeBase] + u.lengths
  }

  /** What header_length covers. */
  function EncodeTables(u: Source): seq<byte> {
    EncodeParams(u) + (EncodeDirs(u.dirs) + (EncodeFiles(u.entries) + u.headPad))
  }

  /** A header, and whatever comes after it. */
  function EncodeFramed(u: Source, rest: seq<byte>): seq<byte> {
    BytesOf(u.h.order, u.version, 2) +
    (BytesOf(u.h.order, |EncodeTables(u)|, AddressWidth(u.h.is64)) + (EncodeTables(u) + rest))
  }

  /** What unit_length covers. */
  function EncodeBody(u: Source): seq<byte> {
    EncodeFramed(u, EncodeProgram(u.h, u.program) + u.unitPad)
  }

  function EncodeLength(order: Order, is64: bool, len: nat): seq<byte> {
    if is64 then BytesOf(order, 0xffff_ffff, 4) + BytesOf(order, len, 8) else BytesOf(order, len, 4)
  }

  function EncodeUnit(u: Source): seq<byte> {
    EncodeLength(u.h.order, u.h.is64, |EncodeBody(u)|) + EncodeBody(u)
  }

  function EncodeSection(us: seq<Source>): seq<byte> {
    if us == [] then [] else EncodeUnit(us[0]) + EncodeSection(us[1..])
  }

  /** A length that its format can hold. */
  predicate LengthFits(is64: bool, len: nat) {
    is64 || len < 0xffff_ff00
  }

  /** Where the program of a unit starts. */
  function ProgramStart(u: Source, off: nat): nat {
    off + (if u.h.is64 then 12 else 4) + 2 + AddressWidth(u.h.is64) + |EncodeTables(u)|
  }

  /** The lengths fit their formats, and the extended instructions of every unit land. */
  predicate SectionLands(us: seq<Source>, size: nat, off: nat)
    decreases |us|
  {
    us == [] ||
    (UnitLands(us[0], size, off) && SectionLands(us[1..], size, off + |EncodeUnit(us[0])|))
  }

  predicate UnitLands(u: Source, size: nat, off: nat) {
    LengthFits(u.h.is64, |EncodeBody(u)|) && AllLand(u.h, size, ProgramStart(u, off), u.program)
  }

  /** The unit a source stands for, given the state its program ends in. */
  function Meaning(u: Source): Result<Unit> {
    var s :- LineTable.Exec(u.h, |u.entries|, InitialState(u.isStmt != 0), Instrs(u.program));
    Ok(Unit(Head(u.h, u.isStmt != 0, [DOT] + u.dirs, Entries(u.entries), 0), s.rows))
  }

  /** Equal up to the offset of the program. */
  predicate SameUnit(a: Unit, b: Unit) {
    a.rows == b.rows && a.head.(program := 0) == b.head.(program := 0)
  }

  // ----- the parts

  lemma SignedByte(x: int)
    requires -TWO_7 <= x < TWO_7
    ensures I8(U8(x)) == x
  {
  }

  /** The bytes of the parameters. */
  lemma ParamBytes(u: Source, bytes: seq<byte>, off: nat, k: nat)
    requires GoodTables(u) && Holds(bytes, off, EncodeParams(u)) && k == if u.version >= 4 then 2 else 1
    ensures |EncodeParams(u)| == k + 3 + u.h.opcodeBase && off + k + 4 <= |bytes|
    ensures bytes[off] == u.h.minInst && (u.version >= 4 ==> bytes[off + 1] == u.h.maxOps)
    ensures bytes[off + k] == u.isStmt && bytes[off + k + 1] == U8(u.h.lineBase)
    ensures bytes[off + k + 2] == u.h.lineRange && bytes[off + k + 3] == u.h.opcodeBase
  {
    var s := EncodeParams(u);
    assert s[0] == u.h.minInst && (u.version >= 4 ==> s[1] == u.h.maxOps);
    assert s[k] == u.isStmt && s[k + 1] == U8(u.h.lineBase);
    assert s[k + 2] == u.h.lineRange && s[k + 3] == u.h.opcodeBase;
    hide Holds, U8, EncodeParams;
    HoldsByte(bytes, off, s, 0);
    HoldsByte(bytes, off, s, 1);
    HoldsByte(bytes, off, s, k);
    HoldsByte(bytes, off, s, k + 1);
    HoldsByte(bytes, off, s, k + 2);
    HoldsByte(bytes, off, s, k + 3);
  }

  lemma ParamsRoundTrip(u: Source, bytes: seq<byte>, off: nat)
    requires GoodTables(u) && Holds(bytes, off, EncodeParams(u)) && off + |EncodeParams(u)| < |bytes| < TWO_63
    ensures ParseParams(u.h.order, u.h.is64, u.version, bytes, off) ==
            Ok((u.h, u.isStmt != 0, off + |EncodeParams(u)|))
  {
    hide Holds, I8, U8, EncodeParams;
    var k := if u.version >= 4 then 2 else 1;
    ParamBytes(u, bytes, off, k);
    SignedByte(u.h.lineBase);
    assert ParseOps(u.version, bytes, off) == Ok((u.h.minInst, u.h.maxOps, u.isStmt != 0, off + k + 1));
    assert ParseOpcodes(bytes, off + k + 1) ==
           Ok((u.h.lineBase, u.h.lineRange, u.h.opcodeBase, off + k + 3 + u.h.opcodeBase));
  }

  /** A NUL-terminated name, whatever follows it. */
  lemma NameEnd(bytes: seq<byte>, off: nat, s: seq<byte>, rest: seq<byte>)
    requires 0 !in s && Holds(bytes, off, s + ([0] + rest))
    ensures off <= |bytes| && StringEnd(bytes, off) == off + |s| < |bytes|
    ensures bytes[off..off + |s|] == s && Holds(bytes, off + |s| + 1, rest)
  {
    HoldsConcat(bytes, off, s, [0] + rest);
    HoldsHead(bytes, off + |s|, 0, rest);
    StringEndUnique(bytes, off, off + |s|);
  }

  lemma {:induction false} DirsRoundTrip(bytes: seq<byte>, off: nat, dirs: seq<seq<byte>>)
    requires (forall d :: d in dirs ==> Name(d)) && Holds(bytes, off, EncodeDirs(dirs))
    ensures off <= |bytes| && ParseDirs(bytes, off) == Ok((dirs, off + |EncodeDirs(dirs)|))
    decreases |dirs|
  {
    hide Holds;
    if dirs == [] {
      assert [0] == [] + ([0] + []);
      NameEnd(bytes, off, [], []);
    } else {
      assert Name(dirs[0]);
      NameEnd(bytes, off, dirs[0], EncodeDirs(dirs[1..]));
      DirsRoundTrip(bytes, off + |dirs[0]| + 1, dirs[1..]);
      assert dirs == [dirs[0]] + dirs[1..];
    }
  }

  lemma EntryRoundTrip(bytes: seq<byte>, off: nat, it: EntryItem, dirs: nat)
    requires dirs < TWO_31 && GoodEntry(it, dirs) && Holds(bytes, off, EncodeEntry(it))
    ensures ParseEntry(it.entry.name, bytes, off, dirs + 1) == Ok((it.entry, off + |EncodeEntry(it)|))
  {
    hide Leb128.DecodeU, Holds, PaddedU, FitsU;
    var e := it.entry;
    var a, b, c := PaddedU(e.dir, it.dirMore), PaddedU(e.date, it.dateMore), PaddedU(e.size, it.sizeMore);
    HoldsConcat(bytes, off, a, b + c);
    HoldsConcat(bytes, off + |a|, b, c);
    PaddedRoundTripU(bytes, off, e.dir, it.dirMore);
    PaddedRoundTripU(bytes, off + |a|, e.date, it.dateMore);
    PaddedRoundTripU(bytes, off + |a| + |b|, e.size, it.sizeMore);
  }

  /** One entry of the file table. */
  lemma FilesStep(bytes: seq<byte>, off: nat, it: EntryItem, rest: seq<byte>, dirs: nat)
    requires dirs < TWO_31 && GoodEntry(it, dirs)
    requires Holds(bytes, off, it.entry.name + ([0] + (EncodeEntry(it) + rest)))
    ensures var next := off + |it.entry.name| + 1 + |EncodeEntry(it)|;
            && off <= |bytes| && next <= |bytes| && Holds(bytes, next, rest)
            && var f := ParseFiles(bytes, next, dirs + 1);
               ParseFiles(bytes, off, dirs + 1) == if f.Ok? then Ok(([it.entry] + f.value.0, f.value.1)) else f
  {
    hide Holds, ParseEntry, EncodeEntry, FitsU;
    NameEnd(bytes, off, it.entry.name, EncodeEntry(it) + rest);
    var at := off + |it.entry.name| + 1;
    HoldsConcat(bytes, at, EncodeEntry(it), rest);
    HoldsWithin(bytes, at, EncodeEntry(it));
    EntryRoundTrip(bytes, at, it, dirs);
  }

  lemma FilesEnd(bytes: seq<byte>, off: nat, dirs: nat)
    requires Holds(bytes, off, [0])
    ensures off <= |bytes| && ParseFiles(bytes, off, dirs) == Ok(([], off + 1))
  {
    hide Holds, DecodeU;
    assert [0] == [] + ([0] + []);
    NameEnd(bytes, off, [], []);
  }

  lemma {:induction false} FilesRoundTrip(bytes: seq<byte>, off: nat, items: seq<EntryItem>, dirs: nat)
    requires dirs < TWO_31 && (forall it :: it in items ==> GoodEntry(it, dirs))
    requires Holds(bytes, off, EncodeFiles(items))
    ensures off <= |bytes| && ParseFiles(bytes, off, dirs + 1) == Ok((Entries(items), off + |EncodeFiles(items)|))
    decreases |items|
  {
    hide Holds, EncodeEntry, ParseFiles, GoodEntry;
    if items == [] {
      FilesEnd(bytes, off, dirs + 1);
    } else {
      var it := items[0];
      assert it in items;
      FilesStep(bytes, off, it, EncodeFiles(items[1..]), dirs);
      FilesRoundTrip(bytes, off + |it.entry.name| + 1 + |EncodeEntry(it)|, items[1..], dirs);
    }
  }

  lemma TablesRoundTrip(u: Source, bytes: seq<byte>, off: nat)
    requires GoodTables(u) && Holds(bytes, off, EncodeTables(u)) && |bytes| < TWO_63
    ensures off <= |bytes|
    ensures var o1 := off + |EncodeParams(u)|;
            var o2 := o1 + |EncodeDirs(u.dirs)|;
            && ParseParams(u.h.order, u.h.is64, u.version, bytes, off) == Ok((u.h, u.isStmt != 0, o1))
            && o1 <= |bytes| && ParseDirs(bytes, o1) == Ok((u.dirs, o2))
            && o2 <= |bytes|
            && ParseFiles(bytes, o2, |u.dirs| + 1) == Ok((Entries(u.entries), o2 + |EncodeFiles(u.entries)|))
  {
    hide Holds, ParseParams, ParseDirs, ParseFiles, EncodeParams, EncodeDirs, EncodeFiles;
    var a, b, c := EncodeParams(u), EncodeDirs(u.dirs), EncodeFiles(u.entries);
    HoldsConcat(bytes, off, a, b + (c + u.headPad));
    HoldsConcat(bytes, off + |a|, b, c + u.headPad);
    HoldsConcat(bytes, off + |a| + |b|, c, u.headPad);
    DirsRoundTrip(bytes, off + |a|, u.dirs);
    ParamsRoundTrip(u, bytes, off);
    FilesRoundTrip(bytes, off + |a| + |b|, u.entries, |u.dirs|);
  }

  lemma FramedParts(u: Source, rest: seq<byte>, bytes: seq<byte>, off: nat)
    requires GoodTables(u) && Holds(bytes, off, EncodeFramed(u, rest)) && |bytes| < TWO_63
    requires u.h.is64 || |EncodeTables(u)| < TWO_32
    ensures var (w, t) := (AddressWidth(u.h.is64), EncodeTables(u));
            && off + 2 + w <= |bytes|
            && Word(u.h.order, bytes, off, 2) == u.version
            && Word(u.h.order, bytes, off + 2, w) == |t|
            && Holds(bytes, off + 2 + w, t) && Holds(bytes, off + 2 + w + |t|, rest)
            && off + 2 + w + |t| + |rest| == off + |EncodeFramed(u, rest)| <= |bytes|
  {
    hide Holds, EncodeTables, Word, BytesOf;
    var (o, w, t) := (u.h.order, AddressWidth(u.h.is64), EncodeTables(u));
    HoldsConcat(bytes, off, BytesOf(o, u.version, 2), BytesOf(o, |t|, w) + (t + rest));
    HoldsConcat(bytes, off + 2, BytesOf(o, |t|, w), t + rest);
    HoldsConcat(bytes, off + 2 + w, t, rest);
    HoldsWithin(bytes, off, EncodeFramed(u, rest));
    WordFits(u.version, 2);
    WordFits(|t|, w);
    HoldsWord(o, bytes, off, u.version, 2);
    HoldsWord(o, bytes, off + 2, |t|, w);
  }

  /** The header comes back, and the program starts where header_length says, past the
      padding. */
  lemma HeaderRoundTrip(u: Source, rest: seq<byte>, bytes: seq<byte>, off: nat)
    requires GoodTables(u) && Holds(bytes, off, EncodeFramed(u, rest)) && |bytes| < TWO_63
    requires u.h.is64 || |EncodeTables(u)| < TWO_32
    ensures off <= |bytes|
    ensures var program := off + 2 + AddressWidth(u.h.is64) + |EncodeTables(u)|;
            && ParseHeader(u.h.order, u.h.is64, bytes, off) ==
               Ok(Head(u.h, u.isStmt != 0, [DOT] + u.dirs, Entries(u.entries), program))
            && Holds(bytes, program, rest)
            && program + |rest| == off + |EncodeFramed(u, rest)| <= |bytes|
  {
    hide Holds, EncodeTables, EncodeFramed, EncodeParams, EncodeDirs, EncodeFiles;
    hide ParseParams, ParseDirs, ParseFiles, Word, GoodTables;
    FramedParts(u, rest, bytes, off);
    TablesRoundTrip(u, bytes, off + 2 + AddressWidth(u.h.is64));
    VersionKnown(u);
  }

  lemma VersionKnown(u: Source)
    requires GoodTables(u)
    ensures u.version <= 4
  {
  }

  lemma WordFits(v: nat, n: nat)
    requires n == 2 || n == 4 || n == 8
    requires v < TWO_63 && (n == 2 ==> v < TWO_16) && (n == 4 ==> v < TWO_32)
    ensures v < Pow2(8 * n)
  {
    ShlConstants(1);
    Shl32(1);
    PowBelow(64);
  }

  lemma LengthRoundTrip(order: Order, is64: bool, len: nat, bytes: seq<byte>, off: nat)
    requires len < TWO_63 && LengthFits(is64, len) && Holds(bytes, off, EncodeLength(order, is64, len))
    ensures ParseLength(order, bytes, off) == Ok((is64, len, off + |EncodeLength(order, is64, len)|))
  {
    hide Holds, Word, BytesOf;
    if is64 {
      HoldsConcat(bytes, off, BytesOf(order, 0xffff_ffff, 4), BytesOf(order, len, 8));
      WordFits(0xffff_ffff, 4);
      HoldsWord(order, bytes, off, 0xffff_ffff, 4);
      WordFits(len, 8);
      HoldsWord(order, bytes, off + 4, len, 8);
    } else {
      WordFits(len, 4);
      HoldsWord(order, bytes, off, len, 4);
    }
  }

  /** A header after its length: where it is, and where it ends. */
  lemma LengthThenHeader(u: Source, rest: seq<byte>, bytes: seq<byte>, off: nat)
    requires GoodTables(u) && |bytes| < TWO_63
    requires LengthFits(u.h.is64, |EncodeFramed(u, rest)|)
    requires Holds(bytes, off, EncodeLength(u.h.order, u.h.is64, |EncodeFramed(u, rest)|) + EncodeFramed(u, rest))
    ensures var (len, start) := (|EncodeFramed(u, rest)|, ProgramStart(u, off));
            var at := off + if u.h.is64 then 12 else 4;
            && ParseLength(u.h.order, bytes, off) == Ok((u.h.is64, len, at)) && at + len <= |bytes|
            && ParseHeader(u.h.order, u.h.is64, bytes, at) ==
               Ok(Head(u.h, u.isStmt != 0, [DOT] + u.dirs, Entries(u.entries), start))
            && Holds(bytes, start, rest) && start + |rest| == at + len
  {
    hide Holds, ParseLength, ParseHeader, EncodeTables, GoodTables, EncodeLength;
    var len := |EncodeFramed(u, rest)|;
    assert |EncodeTables(u)| <= len;
    LengthOfLength(u.h.order, u.h.is64, len);
    hide EncodeFramed;
    HoldsConcat(bytes, off, EncodeLength(u.h.order, u.h.is64, len), EncodeFramed(u, rest));
    HoldsWithin(bytes, off + if u.h.is64 then 12 else 4, EncodeFramed(u, rest));
    HeaderRoundTrip(u, rest, bytes, off + if u.h.is64 then 12 else 4);
    LengthRoundTrip(u.h.order, u.h.is64, len, bytes, off);
  }

  lemma LengthOfLength(order: Order, is64: bool, len: nat)
    ensures |EncodeLength(order, is64, len)| == if is64 then 12 else 4
  {
  }

  /** Reading an encoded unit at any offset of a section gives its meaning and moves past it,
      paddings included; it fails exactly as the instruction semantics does. */
  lemma UnitRoundTrip(u: Source, bytes: seq<byte>, off: nat)
    requires Good(u) && Holds(bytes, off, EncodeUnit(u)) && |bytes| < TWO_63 && UnitLands(u, |bytes|, off)
    ensures var (m, r) := (Meaning(u), ParseUnit(u.h.order, bytes, off));
            match m
            case Ok(unit) => r.Ok? && SameUnit(r.value.0, unit) && r.value.1 == off + |EncodeUnit(u)|
            case Fail(f) => r == Fail(f)
  {
    hide Holds, ParseLength, ParseHeader, EncodeLength, EncodeFramed, EncodeTables, EncodeProgram, Run, LineTable.Exec;
    hide GoodTables, Sequence, Encodable, AllLand;
    var program := EncodeProgram(u.h, u.program);
    LengthThenHeader(u, program + u.unitPad, bytes, off);
    LengthOfLength(u.h.order, u.h.is64, |EncodeBody(u)|);
    var start := ProgramStart(u, off);
    HoldsConcat(bytes, start, program, u.unitPad);
    ProgramNotEmpty(u);
    var end := start + |program + u.unitPad|;
    RunEncoded(u.h, |u.entries|, bytes, end, InitialState(u.isStmt != 0), start, u.program);
  }

  lemma ProgramNotEmpty(u: Source)
    requires Good(u)
    ensures |EncodeProgram(u.h, u.program)| > 0
  {
    hide PaddedU, PaddedS, Encodable, BytesOf;
    assert u.program[0] in u.program;
  }

  predicate Matches(units: seq<Unit>, us: seq<Source>) {
    |units| == |us| && forall k :: 0 <= k < |us| ==> Meaning(us[k]).Ok? && SameUnit(units[k], Meaning(us[k]).value)
  }

  lemma {:induction false} SectionTail(order: Order, us: seq<Source>, bytes: seq<byte>, off: nat, k: nat)
    requires forall u :: u in us ==> Good(u) && u.h.order == order && Meaning(u).Ok?
    requires Holds(bytes, off, EncodeSection(us)) && off + |EncodeSection(us)| == |bytes| < TWO_63
    requires SectionLands(us, |bytes|, off) && k >= |us|
    ensures var r := SectionTurns(order, bytes, off, k);
            r.Ok? && r.value.1 == |bytes| && Matches(r.value.0, us)
    decreases |us|
  {
    hide Holds, ParseUnit, EncodeUnit, Meaning, SameUnit, Good, UnitLands;
    if us != [] {
      var enc, rest := EncodeUnit(us[0]), EncodeSection(us[1..]);
      HoldsConcat(bytes, off, enc, rest);
      UnitRoundTrip(us[0], bytes, off);
      UnitNotEmpty(us[0]);
      SectionTail(order, us[1..], bytes, off + |enc|, k - 1);
      var tail := SectionTurns(order, bytes, off + |enc|, k - 1).value.0;
      var units := SectionTurns(order, bytes, off, k).value.0;
      assert units == [units[0]] + tail;
      forall k | 0 <= k < |us| ensures Meaning(us[k]).Ok? && SameUnit(units[k], Meaning(us[k]).value) {
        if k > 0 {
          assert us[k] == us[1..][k - 1] && units[k] == tail[k - 1];
        }
      }
    }
  }

  lemma UnitNotEmpty(u: Source)
    ensures |EncodeUnit(u)| > 0
  {
    hide EncodeBody;
  }

  lemma {:induction false} UnitsAreBytes(us: seq<Source>)
    ensures |us| <= |EncodeSection(us)|
  {
    hide EncodeUnit;
    if us != [] {
      UnitNotEmpty(us[0]);
      UnitsAreBytes(us[1..]);
    }
  }

  /** Section round trip: for every list of units a producer writes in one byte order, with
      any paddings, reading the section gives each unit's tables and the rows of the
      instruction semantics, in order. */
  lemma SectionRoundTrip(order: Order, us: seq<Source>)
    requires forall u :: u in us ==> Good(u) && u.h.order == order && Meaning(u).Ok?
    requires |EncodeSection(us)| < TWO_63 && SectionLands(us, |EncodeSection(us)|, 0)
    ensures var r := ParseSection(order, EncodeSection(us), 0);
            r.Ok? && Matches(r.value, us)
  {
    hide Good, Meaning, EncodeSection, Matches, SectionLands;
    var bytes := EncodeSection(us);
    assert bytes[0..0 + |bytes|] == bytes;
    UnitsAreBytes(us);
    SectionTail(order, us, bytes, 0, |bytes|);
  }

  /** Below 2 GiB every unit lands. */
  lemma {:induction false} SmallSectionLands(us: seq<Source>, size: nat, off: nat)
    requires off + |EncodeSection(us)| < TWO_31
    ensures SectionLands(us, size, off)
    decreases |us|
  {
    hide EncodeUnit, UnitLands;
    if us != [] {
      SmallUnitLands(us[0], size, off);
      SmallSectionLands(us[1..], size, off + |EncodeUnit(us[0])|);
    }
  }

  lemma SmallUnitLands(u: Source, size: nat, off: nat)
    requires off + |EncodeUnit(u)| < TWO_31
    ensures UnitLands(u, size, off)
  {
    LengthOfLength(u.h.order, u.h.is64, |EncodeBody(u)|);
    hide EncodeLength, EncodeTables, EncodeProgram, AllLand;
    SmallLands(u.h, size, ProgramStart(u, off), u.program);
  }

  // ----- a unit without rows

  /** A section of one unit that its header fills. */
  function EncodeBare(u: Source): seq<byte> {
    EncodeLength(u.h.order, u.h.is64, |EncodeFramed(u, [])|) + EncodeFramed(u, [])
  }

  lemma HoldsAll(bytes: seq<byte>)
    ensures Holds(bytes, 0, bytes)
  {
    assert bytes[0..0 + |bytes|] == bytes;
  }

  function BareHead(u: Source): Head {
    Head(u.h, u.isStmt != 0, [DOT] + u.dirs, Entries(u.entries), |EncodeBare(u)|)
  }

  lemma BareHeader(u: Source)
    requires GoodTables(u) && LengthFits(u.h.is64, |EncodeFramed(u, [])|) && |EncodeBare(u)| < TWO_63
    ensures var (bytes, len, at) := (EncodeBare(u), |EncodeFramed(u, [])|, if u.h.is64 then 12 else 4);
            && at + len == |bytes|
            && ParseLength(u.h.order, bytes, 0) == Ok((u.h.is64, len, at))
            && ParseHeader(u.h.order, u.h.is64, bytes, at) == Ok(BareHead(u))
  {
    hide Holds, ParseLength, ParseHeader, EncodeLength, EncodeFramed, EncodeTables, GoodTables, Entries, ProgramStart;
    hide LengthFits;
    LengthOfLength(u.h.order, u.h.is64, |EncodeFramed(u, [])|);
    HoldsAll(EncodeBare(u));
    LengthThenHeader(u, [], EncodeBare(u), 0);
  }

  /** It is read to a unit without rows. */
  lemma BareUnit(u: Source)
    requires GoodTables(u) && LengthFits(u.h.is64, |EncodeFramed(u, [])|) && |EncodeBare(u)| < TWO_63
    ensures ParseUnit(u.h.order, EncodeBare(u), 0) == Ok((Unit(BareHead(u), []), |EncodeBare(u)|))
  {
    hide Holds, ParseLength, ParseHeader, EncodeBare, EncodeFramed, GoodTables, Run, Entries;
    BareHeader(u);
  }

  lemma BareSection(u: Source)
    requires GoodTables(u) && LengthFits(u.h.is64, |EncodeFramed(u, [])|) && |EncodeBare(u)| < TWO_63
    ensures ParseSection(u.h.order, EncodeBare(u), 0) == Ok([Unit(BareHead(u), [])])
  {
    hide EncodeBare, ParseUnit, GoodTables, LengthFits, EncodeFramed, BareHead;
    BareHeader(u);
    BareUnit(u);
    OneUnit(u.h.order, EncodeBare(u), Unit(BareHead(u), []));
  }

  lemma OneUnit(order: Order, bytes: seq<byte>, unit: Unit)
    requires |bytes| > 0 && ParseUnit(order, bytes, 0) == Ok((unit, |bytes|))
    ensures ParseSection(order, bytes, 0) == Ok([unit])
  {
    hide ParseUnit;
    assert SectionTurns(order, bytes, |bytes|, |bytes| - 1) == Ok(([], |bytes|));
    assert [unit] + [] == [unit];
  }

  // ----- sections that are never read to the end

  /** A section of one unit whose program is SPIN. */
  function EncodeSpin(u: Source): seq<byte> {
    EncodeLength(u.h.order, u.h.is64, |EncodeFramed(u, SPIN)|) + EncodeFramed(u, SPIN)
  }

  lemma SpinHeader(u: Source)
    requires GoodTables(u) && |EncodeSpin(u)| < TWO_31
    ensures var (bytes, start) := (EncodeSpin(u), ProgramStart(u, 0));
            var (len, at) := (|EncodeFramed(u, SPIN)|, if u.h.is64 then 12 else 4);
            && u.h.opcodeBase > 0 && start < at + len == |bytes|
            && ParseLength(u.h.order, bytes, 0) == Ok((u.h.is64, len, at))
            && ParseHeader(u.h.order, u.h.is64, bytes, at) ==
               Ok(Head(u.h, u.isStmt != 0, [DOT] + u.dirs, Entries(u.entries), start))
            && Holds(bytes, start, SPIN)
  {
    var bytes := EncodeSpin(u);
    LengthOfLength(u.h.order, u.h.is64, |EncodeFramed(u, SPIN)|);
    assert u.h.opcodeBase > 0;
    HoldsAll(bytes);
    hide Holds, ParseLength, ParseHeader, EncodeLength, EncodeFramed, EncodeTables, GoodTables;
    LengthThenHeader(u, SPIN, bytes, 0);
  }

  /** Whatever its tables, the loop over its program has not halted after any number of turns. */
  lemma SpinUnitForEver(u: Source, k: nat)
    requires GoodTables(u) && |EncodeSpin(u)| < TWO_31
    ensures var (bytes, start) := (EncodeSpin(u), ProgramStart(u, 0));
            !Halted(Turns(u.h, |u.entries|, bytes, |bytes|, InitialState(u.isStmt != 0), start, k))
  {
    SpinHeader(u);
    hide Holds, EncodeSpin, GoodTables, ProgramStart, Turns, Halted, EncodeFramed, ParseLength, ParseHeader;
    var bytes, start := EncodeSpin(u), ProgramStart(u, 0);
    SpinForEver(u.h, |u.entries|, bytes, |bytes|, InitialState(u.isStmt != 0), start, k);
  }

  /** The constructor does not return from such a section. */
  lemma SpinSection(u: Source)
    requires GoodTables(u) && |EncodeSpin(u)| < TWO_31
    ensures ParseSection(u.h.order, EncodeSpin(u), 0) == Fail(Endless)
  {
    hide EncodeSpin, GoodTables, Holds, ParseLength, ParseHeader, EncodeFramed, ProgramStart, Turns, TurnLimit;
    var bytes := EncodeSpin(u);
    SpinHeader(u);
    SpinUnitForEver(u, TurnLimit(|bytes|));
    assert ParseUnit(u.h.order, bytes, 0) == Fail(Endless);
    hide ParseUnit;
  }

  /** A unit of the 64-bit format whose length, 2^64 - 12, brings its end back to 0. */
  function EncodeWrapped(u: Source): seq<byte> {
    EncodeWrappedLength(u.h.order) + EncodeFramed(u, [])
  }

  function EncodeWrappedLength(order: Order): (s: seq<byte>)
    ensures |s| == 12
  {
    BytesOf(order, 0xffff_ffff, 4) + BytesOf(order, TWO_64 - 12, 8)
  }

  /** Whatever its tables, such a section is read to a unit, and then again from its start: after
      any number of turns there are as many units and the reader is at the start. */
  lemma {:induction false} WrappedUnitForEver(u: Source, k: nat)
    requires GoodTables(u) && u.h.is64 && |EncodeWrapped(u)| < TWO_63
    ensures var r := SectionTurns(u.h.order, EncodeWrapped(u), 0, k);
            r.Ok? && |r.value.0| == k && r.value.1 == 0
    decreases k
  {
    hide EncodeWrapped, GoodTables, ParseUnit;
    WrappedUnit(u);
    if k > 0 {
      WrappedUnitForEver(u, k - 1);
    }
  }

  lemma WrappedSection(u: Source)
    requires GoodTables(u) && u.h.is64 && |EncodeWrapped(u)| < TWO_63
    ensures ParseSection(u.h.order, EncodeWrapped(u), 0) == Fail(Endless)
  {
    hide EncodeWrapped, GoodTables, SectionTurns;
    WrappedUnit(u);
    WrappedUnitForEver(u, |EncodeWrapped(u)|);
  }

  lemma WrappedUnit(u: Source)
    requires GoodTables(u) && u.h.is64 && |EncodeWrapped(u)| < TWO_63
    ensures var r := ParseUnit(u.h.order, EncodeWrapped(u), 0);
            |EncodeWrapped(u)| > 0 && r.Ok? && r.value.1 == 0
  {
    hide ParseHeader, EncodeFramed, GoodTables, EncodeWrappedLength, ParseLength, Run;
    var bytes := EncodeWrapped(u);
    assert bytes[0..0 + |bytes|] == bytes;
    HoldsConcat(bytes, 0, EncodeWrappedLength(u.h.order), EncodeFramed(u, []));
    WrappedLength(u.h.order, bytes);
    HeaderRoundTrip(u, [], bytes, 12);
  }

  lemma WrappedLength(order: Order, bytes: seq<byte>)
    requires Holds(bytes, 0, EncodeWrappedLength(order))
    ensures ParseLength(order, bytes, 0) == Ok((true, TWO_64 - 12, 12))
  {
    hide Holds, Word, BytesOf;
    HoldsConcat(bytes, 0, BytesOf(order, 0xffff_ffff, 4), BytesOf(order, TWO_64 - 12, 8));
    Shl32(1);
    PowBelow(64);
    HoldsWord(order, bytes, 0, 0xffff_ffff, 4);
    HoldsWord(order, bytes, 4, TWO_64 - 12, 8);
  }
}
