/** The reader of a .debug_line section: tables, headers, units, and the objects built. */
module DwarfReader {
  import opened Words
  import ByteOrder
  import opened Cursors
  import Leb128
  import opened LineTable
  import opened LineProgram
  import opened LineUnit
  import opened DebugIndex
  import opened StateMachines

  /** Path joining, `sys::Path / s`: any function. */
  type Join = (seq<byte>, seq<byte>) -> Path

  function DirOf(dirs: seq<seq<byte>>, dir: nat): seq<byte> {
    if dir == 0 then DOT else if 0 <= I32(dir) < |dirs| then dirs[I32(dir)] else []
  }

  function PathOf(join: Join, dirs: seq<seq<byte>>, e: FileEntry): Path {
    join(DirOf(dirs, e.dir), e.name)
  }

  /** The files of the unit are those of the file table, in its order. */
  ghost predicate ShowsFiles(files: seq<File>, join: Join, dirs: seq<seq<byte>>, entries: seq<FileEntry>) {
    |files| == |entries| && forall k :: 0 <= k < |entries| ==> files[k].path == PathOf(join, dirs, entries[k])
  }

  /** The date and the size of each path. */
  type Registry = map<Path, (nat, nat)>

  function RegistryOf(files: map<Path, File>): Registry {
    map p | p in files :: (files[p].date, files[p].size)
  }

  lemma InRegistry(files: map<Path, File>, p: Path)
    ensures p in RegistryOf(files) <==> p in files
  {
  }

  lemma RegistryAdds(files: map<Path, File>, f: File)
    requires f.path !in files
    ensures f.path !in RegistryOf(files)
    ensures RegistryOf(files[f.path := f]) == RegistryOf(files)[f.path := (f.date, f.size)]
  {
  }

  function Entered(reg: Registry, p: Path, date: nat, size: nat): Registry {
    if p in reg then reg else reg[p := (date, size)]
  }

  /** The entries of a file table, entered one after the other. */
  function EnteredAll(reg: Registry, join: Join, dirs: seq<seq<byte>>, entries: seq<FileEntry>): Registry {
    if entries == [] then reg
    else
      var e := entries[|entries| - 1];
      Entered(EnteredAll(reg, join, dirs, entries[..|entries| - 1]), PathOf(join, dirs, e), e.date, e.size)
  }

  /** The file tables of units. */
  function EnteredUnits(join: Join, units: seq<Unit>): Registry {
    if units == [] then map[]
    else
      var head := units[|units| - 1].head;
      EnteredAll(EnteredUnits(join, units[..|units| - 1]), join, head.dirs, head.entries)
  }

  /** A path has the date and the size of the first entry that names it. */
  lemma {:induction false} FirstEntryEnters(reg: Registry, join: Join, dirs: seq<seq<byte>>,
                                            entries: seq<FileEntry>, k: nat)
    requires k < |entries| && PathOf(join, dirs, entries[k]) !in reg
    requires forall j :: 0 <= j < k ==> PathOf(join, dirs, entries[j]) != PathOf(join, dirs, entries[k])
    ensures var p := PathOf(join, dirs, entries[k]);
            var after := EnteredAll(reg, join, dirs, entries);
            p in after && after[p] == (entries[k].date, entries[k].size)
  {
    hide PathOf;
    var n := |entries| - 1;
    if k < n {
      FirstEntryEnters(reg, join, dirs, entries[..n], k);
    } else {
      NotEntered(reg, join, dirs, entries[..n], PathOf(join, dirs, entries[k]));
    }
  }

  lemma {:induction false} NotEntered(reg: Registry, join: Join, dirs: seq<seq<byte>>,
                                      entries: seq<FileEntry>, p: Path)
    requires p !in reg && forall e :: e in entries ==> PathOf(join, dirs, e) != p
    ensures p !in EnteredAll(reg, join, dirs, entries)
  {
    hide PathOf;
    if entries != [] {
      NotEntered(reg, join, dirs, entries[..|entries| - 1], p);
    }
  }

  /** And it keeps them. */
  lemma {:induction false} EnteredStays(reg: Registry, join: Join, dirs: seq<seq<byte>>,
                                        entries: seq<FileEntry>, p: Path)
    requires p in reg
    ensures p in EnteredAll(reg, join, dirs, entries) && EnteredAll(reg, join, dirs, entries)[p] == reg[p]
  {
    hide PathOf;
    if entries != [] {
      EnteredStays(reg, join, dirs, entries[..|entries| - 1], p);
    }
  }

  /** The unit object holds the tables and the rows of a parsed unit. */
  ghost predicate Represents(cu: CompilationUnit, join: Join, u: Unit)
    reads cu
  {
    ShowsFiles(cu.files, join, u.head.dirs, u.head.entries) && Shows(cu, u.rows)
  }

  /** `readDir`: the include directories of a header, added after ".". */
  method ReadDir(c: Cursor, sm: StateMachine) returns (res: Result<()>, ghost dirs: seq<seq<byte>>)
    requires c.Valid()
    modifies c`off, sm`includeDirectories
    ensures c.Valid()
    ensures sm.includeDirectories == old(sm.includeDirectories) + dirs
    ensures var d := ParseDirs(c.data[..], old(c.off));
            match res
            case Ok(_) => d == Ok((dirs, c.off))
            case Fail(f) => d == Fail(f)
  {
    hide ParseDirs, Prepended, StringEnd;
    ghost var bytes := c.data[..];
    ghost var d := ParseDirs(bytes, c.off);
    dirs := [];
    PrependedNone(d);
    var more := true;
    while more
      invariant c.Valid() && sm.includeDirectories == old(sm.includeDirectories) + dirs
      invariant more ==> d == Prepended(dirs, ParseDirs(bytes, c.off))
      invariant !more ==> d == Ok((dirs, c.off))
      decreases more, c.data.Length - c.off
    {
      DirsTurn(bytes, c.off, dirs);
      var ok, s := c.ReadString();
      if !ok {
        return Fail(DebugLineError), dirs;
      }
      if s != [] {
        sm.includeDirectories := sm.includeDirectories + [s];
        dirs := dirs + [s];
      }
      more := s != [];
    }
    return Ok(()), dirs;
  }

  /** What one turn adds to the directories already read. */
  lemma DirsTurn(bytes: seq<byte>, at: nat, dirs: seq<seq<byte>>)
    requires at <= |bytes|
    ensures var end := StringEnd(bytes, at);
            var d := Prepended(dirs, ParseDirs(bytes, at));
            if end == |bytes| then d == Fail(DebugLineError)
            else if end == at then d == Ok((dirs, at + 1))
            else d == Prepended(dirs + [bytes[at..end]], ParseDirs(bytes, end + 1))
  {
    assert dirs + [] == dirs;
    var end := StringEnd(bytes, at);
    if at < end < |bytes| {
      PrependedStep(dirs, bytes[at..end], ParseDirs(bytes, end + 1));
    }
  }

  function Prepended<T>(s: seq<T>, r: Result<(seq<T>, nat)>): Result<(seq<T>, nat)> {
    var (t, next) :- r;
    Ok((s + t, next))
  }

  lemma PrependedNone<T>(r: Result<(seq<T>, nat)>)
    ensures Prepended([], r) == r
  {
    if r.Ok? {
      assert [] + r.value.0 == r.value.0;
    }
  }

  lemma PrependedStep<T>(s: seq<T>, x: T, r: Result<(seq<T>, nat)>)
    ensures Prepended(s, Prepended([x], r)) == Prepended(s + [x], r)
  {
    if r.Ok? {
      assert s + ([x] + r.value.0) == s + [x] + r.value.0;
    }
  }

  /** `dir`, `date` and `size` of a file-table entry. */
  method ReadEntry(c: Cursor, name: seq<byte>, dirs: nat) returns (res: Result<FileEntry>)
    requires c.Valid()
    modifies c`off
    ensures c.Valid()
    ensures var e := ParseEntry(name, c.data[..], old(c.off), dirs);
            match res
            case Ok(v) => e == Ok((v, c.off))
            case Fail(f) => e == Fail(f)
  {
    hide Leb128.DecodeU;
    var dir :- Leb128.ReadLEB128U(c);
    var date :- Leb128.ReadLEB128U(c);
    var size :- Leb128.ReadLEB128U(c);
    if dir != 0 && !(0 <= I32(dir) < dirs) {
      return Fail(Undefined);
    }
    return Ok(FileEntry(name, dir, date, size));
  }

  /** A byte read whose result is not tested. */
  method ReadByteOr0(c: Cursor) returns (b: byte)
    requires c.Valid()
    modifies c`off
    ensures c.Valid()
    ensures b == ByteOr0(c.data[..], old(c.off)) && c.off == After(c.data[..], old(c.off))
  {
    var ok, v := c.Read(1);
    b := if ok then v else 0;
  }

  /** `readHeader` up to the default of is_stmt. */
  method ReadOps(c: Cursor, sm: StateMachine) returns (res: Result<()>)
    requires c.Valid() && sm.View() == INITIAL
    modifies c`off, sm`minInst, sm`maxOps, sm`flags
    ensures c.Valid()
    ensures var p := ParseOps(sm.version, c.data[..], old(c.off));
            match res
            case Ok(_) => p.Ok? && p.value.0 == sm.minInst && p.value.1 == sm.maxOps && p.value.3 == c.off
                          && sm.View() == InitialState(p.value.2).regs
            case Fail(f) => p == Fail(f)
  {
    hide ByteOr0, After, Word;
    sm.minInst := ReadByteOr0(c);
    if sm.version >= 4 {
      sm.maxOps := ReadByteOr0(c);
    } else {
      sm.maxOps := 1;
    }
    var ok, defaultIsStmt := c.Read(1);
    if !ok {
      return Fail(Undefined);
    }
    if defaultIsStmt != 0 {
      sm.flags := sm.flags.(isStmt := true);
    }
    return Ok(());
  }

  /** `readHeader` from line_base to standard_opcode_lengths. */
  method ReadOpcodes(c: Cursor, sm: StateMachine) returns (res: Result<()>)
    requires c.Valid()
    modifies c`off, sm`lineBase, sm`lineRange, sm`opcodeBase
    ensures c.Valid()
    ensures var p := ParseOpcodes(c.data[..], old(c.off));
            match res
            case Ok(_) => p == Ok((sm.lineBase, sm.lineRange, sm.opcodeBase, c.off))
            case Fail(f) => p == Fail(f)
  {
    hide ByteOr0, After, I8;
    var lineBase := ReadByteOr0(c);
    sm.lineBase := I8(lineBase);
    sm.lineRange := ReadByteOr0(c);
    sm.opcodeBase := ReadByteOr0(c);
    if !c.Avail(U64(sm.opcodeBase - 1)) {
      return Fail(DebugLineError);
    }
    if c.off >= c.data.Length {
      return Fail(Undefined); // the ASSERT of c.here()
    }
    var skipped := c.Skip(U64(sm.opcodeBase - 1));
    return Ok(());
  }

  /** The version and the length of the header. */
  method ReadVersion(c: Cursor, sm: StateMachine, is64: bool) returns (res: Result<nat>)
    requires c.Valid()
    modifies c`off, sm`version
    ensures c.Valid()
    ensures var p := ParseVersion(c.decoder.FileOrder(), is64, c.data[..], old(c.off));
            match res
            case Ok(lines) => p == Ok((sm.version, lines, c.off))
            case Fail(f) => p == Fail(f)
  {
    hide Word;
    var ok, version := c.Read(2);
    if !ok {
      return Fail(DebugLineError);
    }
    sm.version := version;
    if version > 5 {
      return Fail(BadVersion);
    }
    if version == 5 {
      return Fail(Unsupported);
    }
    var ok2, headerLength := c.Read(if is64 then 8 else 4);
    if !ok2 {
      return Fail(Undefined);
    }
    return Ok(U64(c.off + headerLength));
  }

  /** `readHeader` up to standard_opcode_lengths; the result is the declared end of the header. */
  method ReadParams(c: Cursor, sm: StateMachine, is64: bool)
    returns (res: Result<nat>, ghost h: Header, ghost isStmt: bool)
    requires c.Valid() && sm.View() == INITIAL
    modifies c`off, sm`version, sm`minInst, sm`maxOps, sm`flags, sm`lineBase, sm`lineRange, sm`opcodeBase
    ensures c.Valid()
    ensures var order := c.decoder.FileOrder();
            var v := ParseVersion(order, is64, c.data[..], old(c.off));
            match res
            case Ok(lines) =>
              && v.Ok? && lines == v.value.1
              && ParseParams(order, is64, v.value.0, c.data[..], v.value.2) == Ok((h, isStmt, c.off))
              && sm.Matches(h) && sm.View() == InitialState(isStmt).regs
            case Fail(f) =>
              v == Fail(f) || (v.Ok? && ParseParams(order, is64, v.value.0, c.data[..], v.value.2) == Fail(f))
  {
    hide ParseVersion, ParseOps, ParseOpcodes;
    h, isStmt := Header(ByteOrder.Little, is64, 0, 0, 0, 0, 0), false;
    var v := ReadVersion(c, sm, is64);
    if v.Fail? {
      return v, h, isStmt;
    }
    ghost var ops := ParseOps(sm.version, c.data[..], c.off);
    var r := ReadOps(c, sm);
    if r.Fail? {
      return Fail(r.fault), h, isStmt;
    }
    r := ReadOpcodes(c, sm);
    if r.Fail? {
      return Fail(r.fault), h, isStmt;
    }
    h := Header(c.decoder.FileOrder(), is64, sm.minInst, sm.maxOps, sm.lineBase, sm.lineRange, sm.opcodeBase);
    return v, h, ops.value.2;
  }

  const NO_HEAD: Head := Head(Header(ByteOrder.Little, false, 0, 0, 0, 0, 0), false, [], [], 0)

  class Reader {
    const index: DebugLine
    const join: Join
    var is64: bool

    constructor (join: Join)
      ensures this.join == join && fresh(index) && index.files == map[] && index.cus == []
    {
      var d := new DebugLine();
      index := d;
      this.join := join;
      is64 := false;
    }

    /** The file registered for a path, or a new one. */
    method Register(p: Path, date: nat, size: nat, ghost units: seq<CompilationUnit>) returns (f: File)
      requires Linked(index.files, units)
      modifies index`files
      ensures Linked(index.files, units)
      ensures p in index.files && f == index.files[p]
      ensures Grown(old(index.files), index.files) && index.files.Keys == old(index.files.Keys) + {p}
      ensures p !in old(index.files) ==> fresh(f)
      ensures RegistryOf(index.files) == Entered(RegistryOf(old(index.files)), p, date, size)
    {
      hide RegistryOf;
      if p in index.files {
        f := index.files[p];
        InRegistry(index.files, p);
      } else {
        f := new File(p, date, size);
        RegistryAdds(index.files, f);
        index.AddFile(f);
        assert forall q :: q in index.files && q != p ==> index.files[q] == old(index.files)[q];
      }
    }

    /** A registered file and a unit are added to each other's list. */
    method Link(cu: CompilationUnit, f: File, ghost units: seq<CompilationUnit>)
      requires Linked(index.files, units) && cu in units
      requires f.path in index.files && index.files[f.path] == f
      modifies cu`files, f`units
      ensures Linked(index.files, units)
      ensures cu.files == old(cu.files) + [f]
    {
      cu.AddFile(f);
      forall q, u | q in index.files && u in units
        ensures multiset(u.files)[index.files[q]] == multiset(index.files[q].units)[u]
      {
        assert old(multiset(u.files)[index.files[q]]) == old(multiset(index.files[q].units)[u]);
      }
    }

    /** One entry of a file table. */
    method LinkEntry(cu: CompilationUnit, p: Path, date: nat, size: nat, ghost units: seq<CompilationUnit>)
      requires Linked(index.files, units) && cu in units
      modifies index`files, cu`files, index.files.Values
      ensures Linked(index.files, units)
      ensures |cu.files| == |old(cu.files)| + 1 && cu.files[..|old(cu.files)|] == old(cu.files)
      ensures cu.files[|old(cu.files)|].path == p
      ensures RegistryOf(index.files) == Entered(RegistryOf(old(index.files)), p, date, size)
      ensures forall f :: f in index.files.Values ==> f in old(index.files.Values) || fresh(f)
    {
      hide Linked, RegistryOf, Entered;
      var f := Register(p, date, size, units);
      Registered(index.files, units, p);
      Link(cu, f, units);
    }

    /** One turn of `readFile`: an entry, and the name of the next. */
    method FileTurn(c: Cursor, sm: StateMachine, cu: CompilationUnit, s: seq<byte>,
                    ghost at: nat, ghost entries: seq<FileEntry>, ghost units: seq<CompilationUnit>)
      returns (res: Result<(bool, seq<byte>)>, ghost e: FileEntry, ghost next: nat)
      requires c.Valid() && Linked(index.files, units) && cu in units
      requires at <= c.data.Length && at < StringEnd(c.data[..], at) < c.data.Length
      requires c.off == StringEnd(c.data[..], at) + 1 && s == c.data[at..StringEnd(c.data[..], at)]
      requires ShowsFiles(cu.files, join, sm.includeDirectories, entries)
      modifies c`off, index`files, cu`files, index.files.Values
      ensures c.Valid()
      ensures var (bytes, n) := (c.data[..], |sm.includeDirectories|);
              var d := Prepended(entries, ParseFiles(bytes, at, n));
              match res
              case Ok((ok, t)) =>
                && at < next <= |bytes| && (ok <==> StringEnd(bytes, next) < |bytes|)
                && d == Prepended(entries + [e], ParseFiles(bytes, next, n)) && Linked(index.files, units)
                && ShowsFiles(cu.files, join, sm.includeDirectories, entries + [e])
                && RegistryOf(index.files) ==
                   Entered(RegistryOf(old(index.files)), PathOf(join, sm.includeDirectories, e), e.date, e.size)
                && (ok ==> c.off == StringEnd(bytes, next) + 1 && t == bytes[next..StringEnd(bytes, next)])
              case Fail(f) => d == Fail(f)
      ensures forall f :: f in index.files.Values ==> f in old(index.files.Values) || fresh(f)
    {
      hide ParseEntry, ParseFiles, Prepended, Linked, DirOf, StringEnd;
      FilesTurn(c.data[..], at, |sm.includeDirectories|, entries);
      assert c.data[..][at..StringEnd(c.data[..], at)] == s;
      var r := ReadEntry(c, s, |sm.includeDirectories|);
      if r.Fail? {
        return Fail(r.fault), FileEntry([], 0, 0, 0), 0;
      }
      var entry := r.value;
      e := entry;
      LinkEntry(cu, PathOf(join, sm.includeDirectories, entry), entry.date, entry.size, units);
      next := c.off;
      var ok, t := c.ReadString();
      res := Ok((ok, t));
    }

    /** `readFile`: the file table of a header. */
    method ReadFile(c: Cursor, sm: StateMachine, cu: CompilationUnit, ghost units: seq<CompilationUnit>)
      returns (res: Result<()>, ghost entries: seq<FileEntry>)
      requires c.Valid() && Linked(index.files, units) && cu in units && cu.files == []
      modifies c`off, index`files, cu`files, index.files.Values
      ensures c.Valid()
      ensures var d := ParseFiles(c.data[..], old(c.off), |sm.includeDirectories|);
              match res
              case Ok(_) => d == Ok((entries, c.off)) && Linked(index.files, units)
                            && ShowsFiles(cu.files, join, sm.includeDirectories, entries)
                            && RegistryOf(index.files) ==
                               EnteredAll(RegistryOf(old(index.files)), join, sm.includeDirectories, entries)
              case Fail(f) => d == Fail(f)
      ensures forall f :: f in index.files.Values ==> f in old(index.files.Values) || fresh(f)
    {
      hide ParseFiles, Prepended, Linked, ShowsFiles, StringEnd;
      ghost var bytes, n, reg := c.data[..], |sm.includeDirectories|, RegistryOf(index.files);
      ghost var d := ParseFiles(bytes, c.off, n);
      ghost var at: nat := c.off;
      entries := [];
      PrependedNone(d);
      NoFiles(join, sm.includeDirectories);
      var ok, s := c.ReadString();
      while ok && s != []
        invariant c.Valid() && Linked(index.files, units)
        invariant forall f :: f in index.files.Values ==> f in old(index.files.Values) || fresh(f)
        invariant at <= |bytes| && (ok <==> StringEnd(bytes, at) < |bytes|)
        invariant ok ==> c.off == StringEnd(bytes, at) + 1 && s == bytes[at..StringEnd(bytes, at)]
        invariant d == Prepended(entries, ParseFiles(bytes, at, n))
        invariant ShowsFiles(cu.files, join, sm.includeDirectories, entries)
        invariant RegistryOf(index.files) == EnteredAll(reg, join, sm.includeDirectories, entries)
        decreases |bytes| - at
      {
        var r, e, next := FileTurn(c, sm, cu, s, at, entries, units);
        if r.Fail? {
          return Fail(r.fault), entries;
        }
        assert (entries + [e])[..|entries|] == entries;
        entries, at := entries + [e], next;
        ok, s := r.value.0, r.value.1;
      }
      FilesTurn(bytes, at, n, entries);
      return if ok then Ok(()) else Fail(DebugLineError), entries;
    }

    /** The include directories and the files of a header. */
    method ReadTables(c: Cursor, sm: StateMachine, cu: CompilationUnit, ghost units: seq<CompilationUnit>)
      returns (res: Result<()>, ghost dirs: seq<seq<byte>>, ghost entries: seq<FileEntry>)
      requires c.Valid() && Linked(index.files, units) && cu in units && cu.files == []
      requires sm.includeDirectories == [DOT]
      modifies c`off, sm`includeDirectories, index`files, cu`files, index.files.Values
      ensures c.Valid()
      ensures var d := ParseDirs(c.data[..], old(c.off));
              var f := if d.Ok? then ParseFiles(c.data[..], d.value.1, |d.value.0| + 1) else Fail(d.fault);
              match res
              case Ok(_) => d.Ok? && d.value.0 == dirs && f == Ok((entries, c.off)) && Linked(index.files, units)
                            && ShowsFiles(cu.files, join, [DOT] + dirs, entries)
                            && RegistryOf(index.files) ==
                               EnteredAll(RegistryOf(old(index.files)), join, [DOT] + dirs, entries)
              case Fail(e) => f == Fail(e)
      ensures forall f :: f in index.files.Values ==> f in old(index.files.Values) || fresh(f)
    {
      hide ParseDirs, ParseFiles, Linked, ShowsFiles;
      entries := [];
      res, dirs := ReadDir(c, sm);
      if res.Ok? {
        res, entries := ReadFile(c, sm, cu, units);
      }
    }

    /** `readHeader`. */
    method ReadHeader(c: Cursor, sm: StateMachine, cu: CompilationUnit, ghost units: seq<CompilationUnit>)
      returns (res: Result<()>, ghost head: Head)
      requires c.Valid() && Linked(index.files, units) && cu in units && cu.files == []
      requires sm.View() == INITIAL && sm.includeDirectories == [DOT]
      modifies c`off, sm, index`files, cu`files, index.files.Values
      ensures c.Valid()
      ensures var p := ParseHeader(c.decoder.FileOrder(), is64, c.data[..], old(c.off));
              match res
              case Ok(_) => p == Ok(head) && c.off == head.program && Linked(index.files, units)
                            && sm.Matches(head.h) && sm.View() == InitialState(head.isStmt).regs
                            && ShowsFiles(cu.files, join, head.dirs, head.entries)
                            && RegistryOf(index.files) ==
                               EnteredAll(RegistryOf(old(index.files)), join, head.dirs, head.entries)
              case Fail(f) => p == Fail(f)
      ensures forall f :: f in index.files.Values ==> f in old(index.files.Values) || fresh(f)
    {
      hide ParseVersion, ParseParams, ParseDirs, ParseFiles, Linked, ShowsFiles, RegistryOf, EnteredAll;
      head := NO_HEAD;
      var v, h, isStmt := ReadParams(c, sm, is64);
      if v.Fail? {
        return Fail(v.fault), head;
      }
      var r, dirs, entries := ReadTables(c, sm, cu, units);
      if r.Ok? {
        var moved := c.Move(v.value);
        head := Head(h, isStmt, [DOT] + dirs, entries, c.off);
      }
      return r, head;
    }

    /** `readUnitLength`. */
    method ReadUnitLength(c: Cursor) returns (res: Result<nat>)
      requires c.Valid()
      modifies c`off, `is64
      ensures c.Valid()
      ensures var p := ParseLength(c.decoder.FileOrder(), c.data[..], old(c.off));
              match res
              case Ok(len) => p == Ok((is64, len, c.off))
              case Fail(f) => p == Fail(f)
    {
      hide Word;
      var ok, l := c.Read(4);
      if !ok {
        return Fail(DebugLineError);
      }
      if l < 0xffff_ff00 {
        is64 := false;
        return Ok(l);
      }
      var ok2, ll := c.Read(8);
      if !ok2 {
        return Fail(DebugLineError);
      }
      is64 := true;
      return Ok(ll);
    }

    /** Running the program of a unit keeps the links: its rows name files of the unit. */
    method RunLinked(c: Cursor, sm: StateMachine, cu: CompilationUnit, end: nat,
                     ghost h: Header, ghost s: State, ghost units: seq<CompilationUnit>)
      returns (res: Result<()>)
      requires c.Valid() && sm.Matches(h) && sm.View() == s.regs && Shows(cu, s.rows)
      requires h.order == c.decoder.FileOrder() && h.is64 == is64
      requires Linked(index.files, units)
      modifies c`off, sm, cu`lines
      ensures c.Valid()
      ensures Reached(c, sm, cu, h, Run(h, |cu.files|, c.data[..], end, s, old(c.off)), res)
      ensures res.Ok? ==> Linked(index.files, units)
    {
      hide Run;
      res := RunSM(c, sm, cu, end, h, is64, s);
    }

    /** The line program of a unit, unless the header reaches its end. */
    method ReadProgram(c: Cursor, sm: StateMachine, cu: CompilationUnit, end: nat,
                       ghost head: Head, ghost units: seq<CompilationUnit>)
      returns (res: Result<()>, ghost unit: Unit)
      requires c.Valid() && sm.Matches(head.h) && sm.View() == InitialState(head.isStmt).regs && cu.lines == []
      requires head.h.order == c.decoder.FileOrder() && head.h.is64 == is64 && |cu.files| == |head.entries|
      requires Linked(index.files, units) && c.off == head.program
      modifies c`off, sm, cu`lines
      ensures c.Valid()
      ensures var run := Run(head.h, |head.entries|, c.data[..], end, InitialState(head.isStmt), head.program);
              if head.program < end then
                match res
                case Ok(_) => run.Ok? && unit == Unit(head, run.value.0.rows) && Shows(cu, unit.rows)
                              && c.off == run.value.1
                case Fail(f) => run == Fail(f)
              else res.Ok? && unit == Unit(head, []) && Shows(cu, []) && c.off == head.program
      ensures res.Ok? ==> Linked(index.files, units)
    {
      hide Run, Linked;
      unit := Unit(head, []);
      if c.off < end {
        ghost var s := InitialState(head.isStmt);
        ghost var run := Run(head.h, |head.entries|, c.data[..], end, s, c.off);
        res := RunLinked(c, sm, cu, end, head.h, s, units);
        unit := if res.Ok? then Unit(head, run.value.0.rows) else unit;
      } else {
        res := Ok(());
      }
    }

    /** `readCU` after the unit length: header, program, and the move to the next unit. */
    method ReadBody(c: Cursor, sm: StateMachine, cu: CompilationUnit, end: nat, ghost units: seq<CompilationUnit>)
      returns (res: Result<()>, ghost unit: Unit)
      requires c.Valid() && Linked(index.files, units) && cu in units && cu.files == [] && cu.lines == []
      requires sm.View() == INITIAL && sm.includeDirectories == [DOT]
      modifies c`off, sm, index`files, cu, index.files.Values
      ensures c.Valid()
      ensures var p := ParseBody(c.decoder.FileOrder(), is64, c.data[..], old(c.off), end);
              match res
              case Ok(_) => p == Ok((unit, c.off)) && Linked(index.files, units) && Represents(cu, join, unit)
                            && RegistryOf(index.files) ==
                               EnteredAll(RegistryOf(old(index.files)), join, unit.head.dirs, unit.head.entries)
              case Fail(f) => p == Fail(f)
      ensures forall f :: f in index.files.Values ==> f in old(index.files.Values) || fresh(f)
    {
      hide ParseHeader, Run, Linked, DirOf, Shows, RegistryOf, EnteredAll;
      unit := Unit(NO_HEAD, []);
      ghost var head;
      res, head := ReadHeader(c, sm, cu, units);
      if res.Ok? {
        res, unit := ReadProgram(c, sm, cu, end, head, units);
        if res.Ok? {
          var moved := c.Move(end);
        }
      }
    }

    /** `readCU`: the unit built is the unit parsed, it is added last, the cursor moves to the
        next one, and the links hold. */
    method ReadCU(c: Cursor) returns (res: Result<()>, ghost unit: Unit)
      requires c.Valid() && Linked(index.files, index.cus)
      modifies c`off, `is64, index, index.files.Values
      ensures c.Valid()
      ensures var p := ParseUnit(c.decoder.FileOrder(), c.data[..], old(c.off));
              match res
              case Ok(_) => p == Ok((unit, c.off)) && Linked(index.files, index.cus)
                            && |index.cus| == |old(index.cus)| + 1 && fresh(index.cus[|old(index.cus)|])
                            && index.cus[..|old(index.cus)|] == old(index.cus)
                            && Represents(index.cus[|old(index.cus)|], join, unit)
                            && RegistryOf(index.files) ==
                               EnteredAll(RegistryOf(old(index.files)), join, unit.head.dirs, unit.head.entries)
              case Fail(f) => p == Fail(f)
      ensures forall f :: f in index.files.Values ==> f in old(index.files.Values) || fresh(f)
    {
      hide ParseLength, ParseBody, Linked, Represents, RegistryOf, EnteredAll;
      unit := Unit(NO_HEAD, []);
      var sm := new StateMachine();
      var r := ReadUnitLength(c);
      if r.Fail? {
        return Fail(r.fault), unit;
      }
      var end := U64(c.off + r.value);
      var cu := new CompilationUnit();
      ghost var units := index.cus + [cu];
      LinkedWithNew(index.files, index.cus, cu);
      res, unit := ReadBody(c, sm, cu, end, units);
      if res.Ok? {
        index.AddUnit(cu);
      }
    }

    /** At most k turns of the constructor's loop: the units read so far, in order. */
    method ReadUnits(c: Cursor, k: nat) returns (res: Result<()>)
      requires c.Valid() && index.files == map[] && index.cus == []
      modifies c`off, `is64, index
      ensures c.Valid()
      ensures var p := SectionTurns(c.decoder.FileOrder(), c.data[..], old(c.off), k);
              match res
              case Ok(_) => p.Ok? && Linked(index.files, index.cus) && |index.cus| == |p.value.0| && c.off == p.value.1
                            && RegistryOf(index.files) == EnteredUnits(join, p.value.0)
                            && forall k :: 0 <= k < |p.value.0| ==> Represents(index.cus[k], join, p.value.0[k])
              case Fail(f) => p == Fail(f)
    {
      hide ParseUnit, Represents;
      ghost var bytes, order := c.data[..], c.decoder.FileOrder();
      ghost var p := SectionTurns(order, bytes, c.off, k);
      ghost var done: seq<Unit> := [];
      SectionNone(p);
      assert Linked(index.files, index.cus);
      hide Linked, SectionTurns;
      var left := k;
      while !c.Ended() && left > 0
        invariant c.Valid() && Linked(index.files, index.cus)
        invariant forall f :: f in index.files.Values ==> fresh(f)
        invariant p == SectionAfter(done, SectionTurns(order, bytes, c.off, left))
        invariant |index.cus| == |done| && RegistryOf(index.files) == EnteredUnits(join, done)
        invariant forall k :: 0 <= k < |done| ==> Represents(index.cus[k], join, done[k])
      {
        ghost var had := index.cus;
        SectionTurn(order, bytes, c.off, left, done);
        var r, unit := ReadCU(c);
        if r.Fail? {
          return r;
        }
        assert (done + [unit])[..|done|] == done;
        done := done + [unit];
        left := left - 1;
      }
      SectionEnd(order, bytes, c.off, left, done);
      return Ok(());
    }

    /** The constructor's loop: every unit of the section is read, in order, into an object
        that represents it; the files and the units are linked; the reader fails exactly
        where parsing does. The limit stops only a loop that would never end. */
    method ReadSection(c: Cursor) returns (res: Result<()>)
      requires c.Valid() && c.off == 0 && index.files == map[] && index.cus == []
      modifies c`off, `is64, index
      ensures c.Valid()
      ensures var p := ParseSection(c.decoder.FileOrder(), c.data[..], 0);
              match res
              case Ok(_) => p.Ok? && Linked(index.files, index.cus) && |index.cus| == |p.value|
                            && RegistryOf(index.files) == EnteredUnits(join, p.value)
                            && forall k :: 0 <= k < |p.value| ==> Represents(index.cus[k], join, p.value[k])
              case Fail(f) => p == Fail(f)
    {
      hide SectionTurns, Represents, Linked;
      res := ReadUnits(c, c.data.Length);
      if res.Ok? && !c.Ended() {
        res := Fail(Endless);
      }
    }
  }

  function SectionAfter(done: seq<Unit>, r: Result<(seq<Unit>, nat)>): Result<(seq<Unit>, nat)> {
    var (units, last) :- r;
    Ok((done + units, last))
  }

  lemma SectionNone(r: Result<(seq<Unit>, nat)>)
    ensures SectionAfter([], r) == r
  {
    if r.Ok? {
      assert [] + r.value.0 == r.value.0;
    }
  }

  lemma SectionTurn(order: ByteOrder.Order, bytes: seq<byte>, off: nat, k: nat, done: seq<Unit>)
    requires off < |bytes| && k > 0
    ensures var u := ParseUnit(order, bytes, off);
            SectionAfter(done, SectionTurns(order, bytes, off, k)) ==
            if u.Fail? then Fail(u.fault)
            else SectionAfter(done + [u.value.0], SectionTurns(order, bytes, u.value.1, k - 1))
  {
    hide ParseUnit;
    var u := ParseUnit(order, bytes, off);
    if u.Ok? {
      var rest := SectionTurns(order, bytes, u.value.1, k - 1);
      if rest.Ok? {
        assert done + ([u.value.0] + rest.value.0) == done + [u.value.0] + rest.value.0;
      }
    }
  }

  lemma SectionEnd(order: ByteOrder.Order, bytes: seq<byte>, off: nat, k: nat, done: seq<Unit>)
    requires off >= |bytes| || k == 0
    ensures SectionAfter(done, SectionTurns(order, bytes, off, k)) == Ok((done, off))
  {
    assert done + [] == done;
  }

  lemma Registered(files: map<Path, File>, units: seq<CompilationUnit>, p: Path)
    requires Linked(files, units) && p in files
    ensures files[p].path == p
  {
  }

  lemma NoFiles(join: Join, dirs: seq<seq<byte>>)
    ensures ShowsFiles([], join, dirs, [])
  {
  }

  /** A unit with no files and no rows changes no link. */
  lemma LinkedWithNew(files: map<Path, File>, units: seq<CompilationUnit>, cu: CompilationUnit)
    requires Linked(files, units) && cu !in units && cu.files == [] && cu.lines == []
    ensures Linked(files, units + [cu])
  {
  }

  /** What one turn over the file table adds to the entries already read. */
  lemma FilesTurn(bytes: seq<byte>, at: nat, n: nat, entries: seq<FileEntry>)
    requires at <= |bytes|
    ensures var end := StringEnd(bytes, at);
            var d := Prepended(entries, ParseFiles(bytes, at, n));
            if end == |bytes| then d == Fail(DebugLineError)
            else if end == at then d == Ok((entries, at + 1))
            else
              var p := ParseEntry(bytes[at..end], bytes, end + 1, n);
              if p.Ok? then d == Prepended(entries + [p.value.0], ParseFiles(bytes, p.value.1, n))
              else d == Fail(p.fault)
  {
    hide ParseEntry;
    assert entries + [] == entries;
    var end := StringEnd(bytes, at);
    if at < end < |bytes| {
      var p := ParseEntry(bytes[at..end], bytes, end + 1, n);
      if p.Ok? {
        PrependedStep(entries, p.value.0, ParseFiles(bytes, p.value.1, n));
      }
    }
  }

  /** The registry only grows. */
  ghost predicate Grown(before: map<Path, File>, after: map<Path, File>) {
    forall p :: p in before ==> p in after && after[p] == before[p]
  }
}
