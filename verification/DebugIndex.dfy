/** The index between addresses and source lines. */
module DebugIndex {
  import Words
  import LineTable

  type Path = seq<Words.byte>

  datatype LineNumber = LineNumber(addr: nat, file: File, line: int, col: int, flags: LineTable.Flags,
                                   isa: nat, disc: nat, opi: nat)

  /** Result of an address lookup: a row of a unit, both by position. Asking an empty unit
      for its base address is not defined. */
  datatype Lookup = NoLine | Found(unit: nat, row: nat) | UndefinedLookup

  class File {
    const path: Path
    const date: nat
    const size: nat
    var units: seq<CompilationUnit>

    constructor (path: Path, date: nat, size: nat)
      ensures this.path == path && this.date == date && this.size == size && units == []
    {
      this.path, this.date, this.size := path, date, size;
      units := [];
    }

    /** The address ranges of a source line, unit by unit. */
    method Find(line: int) returns (addrs: seq<(nat, nat)>)
      ensures addrs == FoundIn(this, units, line)
    {
      addrs := [];
      for k := 0 to |units|
        invariant addrs == FoundIn(this, units[..k], line)
      {
        var lines := units[k].lines;
        ghost var before := addrs;
        var i := 0;
        while i < |lines| - 1
          invariant 0 <= i && (i == 0 || i < |lines|)
          invariant addrs == before + UnitRanges(this, lines, line, i)
        {
          if lines[i].file == this && lines[i].line == line {
            addrs := addrs + [(lines[i].addr, lines[i + 1].addr)];
          }
          i := i + 1;
        }
        assert units[..k + 1][..k] == units[..k];
      }
      assert units[..|units|] == units;
    }
  }

  class CompilationUnit {
    var files: seq<File>
    var lines: seq<LineNumber>

    constructor ()
      ensures files == [] && lines == []
    {
      files, lines := [], [];
    }

    method AddLine(num: LineNumber)
      modifies `lines
      ensures lines == old(lines) + [num]
    {
      lines := lines + [num];
    }

    method AddFile(file: File)
      modifies `files, file`units
      ensures files == old(files) + [file]
      ensures file.units == old(file.units) + [this]
    {
      files := files + [file];
      file.units := file.units + [this];
    }

    /** The first row whose address range holds the address. */
    method LineAt(addr: nat) returns (row: int)
      ensures row >= 0 ==> Crosses(lines, row, addr) && NoCrossing(lines, row, addr)
      ensures row < 0 ==> NoCrossing(lines, |lines|, addr)
    {
      var i := 0;
      while i < |lines| - 1
        invariant 0 <= i && NoCrossing(lines, i, addr)
      {
        if lines[i].addr <= addr < lines[i + 1].addr {
          return i;
        }
        i := i + 1;
      }
      return -1;
    }
  }

  // ----- lookup by line

  /** The ranges of the rows before position i. */
  function UnitRanges(f: File, lines: seq<LineNumber>, line: int, i: nat): seq<(nat, nat)>
    requires i == 0 || i < |lines|
  {
    if i == 0 then []
    else
      UnitRanges(f, lines, line, i - 1) +
      if lines[i - 1].file == f && lines[i - 1].line == line then [(lines[i - 1].addr, lines[i].addr)] else []
  }

  function FoundIn(f: File, units: seq<CompilationUnit>, line: int): seq<(nat, nat)>
    reads units
  {
    if units == [] then []
    else
      var last := units[|units| - 1].lines;
      FoundIn(f, units[..|units| - 1], line) +
      UnitRanges(f, last, line, if last == [] then 0 else |last| - 1)
  }

  /** Row i of the lines is one of file f and the given line, with that range. */
  predicate RangeAt(f: File, lines: seq<LineNumber>, line: int, i: int, r: (nat, nat)) {
    && 0 <= i < |lines| - 1 && lines[i].file == f && lines[i].line == line
    && r == (lines[i].addr, lines[i + 1].addr)
  }

  lemma {:induction false} UnitRangesMembers(f: File, lines: seq<LineNumber>, line: int, n: nat, r: (nat, nat))
    requires n == 0 || n < |lines|
    ensures r in UnitRanges(f, lines, line, n) <==> exists i :: i < n && RangeAt(f, lines, line, i, r)
  {
    if n > 0 {
      UnitRangesMembers(f, lines, line, n - 1, r);
      if RangeAt(f, lines, line, n - 1, r) {
        assert r in UnitRanges(f, lines, line, n);
      }
    }
  }

  /** `find` reports the ranges of the matching rows of the file's units and no others. */
  lemma {:induction false} FoundMembers(f: File, units: seq<CompilationUnit>, line: int, r: (nat, nat))
    ensures r in FoundIn(f, units, line) <==>
            exists u, i :: u in units && RangeAt(f, u.lines, line, i, r)
  {
    if units != [] {
      var k := |units| - 1;
      var last := units[k];
      var n := if last.lines == [] then 0 else |last.lines| - 1;
      FoundMembers(f, units[..k], line, r);
      UnitRangesMembers(f, last.lines, line, n, r);
      assert units == units[..k] + [last];
    }
  }

  /** Row i of unit k is one of file f and the line. */
  predicate MatchAt(f: File, units: seq<CompilationUnit>, line: int, at: (nat, nat))
    reads units
  {
    && at.0 < |units| && at.1 + 1 < |units[at.0].lines|
    && units[at.0].lines[at.1].file == f && units[at.0].lines[at.1].line == line
  }

  /** Before, by unit and then by row. */
  predicate Precedes(a: (nat, nat), b: (nat, nat)) {
    a.0 < b.0 || (a.0 == b.0 && a.1 < b.1)
  }

  /** The matching rows, each once, in order, and the ranges from each to the next row. */
  ghost predicate Reports(f: File, units: seq<CompilationUnit>, line: int, places: seq<(nat, nat)>,
                          ranges: seq<(nat, nat)>)
    reads units
  {
    && |places| == |ranges|
    && (forall m :: 0 <= m < |places| ==>
          MatchAt(f, units, line, places[m]) &&
          var (k, i) := places[m];
          ranges[m] == (units[k].lines[i].addr, units[k].lines[i + 1].addr))
    && (forall m, n :: 0 <= m < n < |places| ==> Precedes(places[m], places[n]))
    && (forall at: (nat, nat) :: MatchAt(f, units, line, at) ==> at in places)
  }

  /** The same for the rows of the last unit before row n. */
  ghost predicate UnitReports(f: File, units: seq<CompilationUnit>, line: int, n: int, places: seq<(nat, nat)>,
                              ranges: seq<(nat, nat)>)
    requires units != []
    reads units
  {
    var k := |units| - 1;
    && |places| == |ranges|
    && (forall m :: 0 <= m < |places| ==>
          places[m].0 == k && places[m].1 < n && MatchAt(f, units, line, places[m]) &&
          var i := places[m].1;
          ranges[m] == (units[k].lines[i].addr, units[k].lines[i + 1].addr))
    && (forall m, p :: 0 <= m < p < |places| ==> places[m].1 < places[p].1)
    && (forall i: nat :: i < n && MatchAt(f, units, line, (k, i)) ==> (k, i) in places)
  }

  lemma {:induction false} UnitPlaces(f: File, units: seq<CompilationUnit>, line: int, n: nat)
    returns (places: seq<(nat, nat)>)
    requires units != [] && var lines := units[|units| - 1].lines; n == 0 || n < |lines|
    ensures UnitReports(f, units, line, n, places, UnitRanges(f, units[|units| - 1].lines, line, n))
  {
    if n == 0 {
      places := [];
    } else {
      var (k, lines) := (|units| - 1, units[|units| - 1].lines);
      places := UnitPlaces(f, units, line, n - 1);
      var ranges := UnitRanges(f, lines, line, n - 1);
      if lines[n - 1].file == f && lines[n - 1].line == line {
        assert UnitRanges(f, lines, line, n) == ranges + [(lines[n - 1].addr, lines[n].addr)];
        hide UnitRanges, UnitReports;
        OneMore(f, units, line, n, places, ranges);
        places := places + [(k, n - 1)];
      } else {
        assert UnitRanges(f, lines, line, n) == ranges;
        hide UnitRanges, UnitReports;
        NoMore(f, units, line, n, places, ranges);
      }
    }
  }

  lemma OneMore(f: File, units: seq<CompilationUnit>, line: int, n: nat, places: seq<(nat, nat)>, ranges: seq<(nat, nat)>)
    requires units != [] && 0 < n < |units[|units| - 1].lines| && UnitReports(f, units, line, n - 1, places, ranges)
    requires MatchAt(f, units, line, (|units| - 1, n - 1))
    ensures var (k, lines) := (|units| - 1, units[|units| - 1].lines);
            UnitReports(f, units, line, n, places + [(k, n - 1)], ranges + [(lines[n - 1].addr, lines[n].addr)])
  {
    var k := |units| - 1;
    var after := places + [(k, n - 1)];
    forall i: nat | i < n && MatchAt(f, units, line, (k, i)) ensures (k, i) in after {
      if i == n - 1 {
        assert after[|places|] == (k, i);
      } else {
        assert (k, i) in places;
      }
    }
    forall m, p | 0 <= m < p < |after| ensures after[m].1 < after[p].1 {
      assert m < |places| && after[m] == places[m];
    }
    forall m | 0 <= m < |after| ensures after[m].0 == k && after[m].1 < n && MatchAt(f, units, line, after[m]) {
    }
  }

  lemma NoMore(f: File, units: seq<CompilationUnit>, line: int, n: nat, places: seq<(nat, nat)>, ranges: seq<(nat, nat)>)
    requires units != [] && 0 < n < |units[|units| - 1].lines| && UnitReports(f, units, line, n - 1, places, ranges)
    requires !MatchAt(f, units, line, (|units| - 1, n - 1))
    ensures UnitReports(f, units, line, n, places, ranges)
  {
  }

  /** The rows of the last unit, after those of the units before. */
  lemma JoinReports(f: File, units: seq<CompilationUnit>, line: int, before: seq<(nat, nat)>, r1: seq<(nat, nat)>,
                    last: seq<(nat, nat)>, r2: seq<(nat, nat)>)
    requires units != [] && Reports(f, units[..|units| - 1], line, before, r1)
    requires UnitReports(f, units, line, |units[|units| - 1].lines| - 1, last, r2)
    ensures Reports(f, units, line, before + last, r1 + r2)
  {
    var k := |units| - 1;
    var places := before + last;
    forall m | 0 <= m < |places|
      ensures MatchAt(f, units, line, places[m])
      ensures (r1 + r2)[m] == (units[places[m].0].lines[places[m].1].addr, units[places[m].0].lines[places[m].1 + 1].addr)
      ensures m < |before| ==> places[m].0 < k
    {
      if m < |before| {
        assert MatchAt(f, units[..k], line, before[m]);
      }
    }
    forall at: (nat, nat) | MatchAt(f, units, line, at) ensures at in places {
      AllPlaces(f, units, line, before, r1, last, r2, at);
    }
    forall m, n | 0 <= m < n < |places| ensures Precedes(places[m], places[n]) {
      if m >= |before| {
        assert last[m - |before|].1 < last[n - |before|].1;
      }
    }
  }

  lemma AllPlaces(f: File, units: seq<CompilationUnit>, line: int, before: seq<(nat, nat)>, r1: seq<(nat, nat)>,
                  last: seq<(nat, nat)>, r2: seq<(nat, nat)>, at: (nat, nat))
    requires units != [] && Reports(f, units[..|units| - 1], line, before, r1)
    requires UnitReports(f, units, line, |units[|units| - 1].lines| - 1, last, r2)
    requires MatchAt(f, units, line, at)
    ensures at in before || at in last
  {
    var k := |units| - 1;
    if at.0 < k {
      assert MatchAt(f, units[..k], line, at);
    } else {
      assert at == (k, at.1);
    }
  }

  /** `find` reports each matching row of the file's units once, unit by unit and row by row. */
  lemma {:induction false} FoundInOrder(f: File, units: seq<CompilationUnit>, line: int)
    returns (places: seq<(nat, nat)>)
    ensures Reports(f, units, line, places, FoundIn(f, units, line))
  {
    if units == [] {
      places := [];
    } else {
      hide Reports, UnitReports, UnitRanges;
      var k := |units| - 1;
      var n := if units[k].lines == [] then 0 else |units[k].lines| - 1;
      var before := FoundInOrder(f, units[..k], line);
      var last := UnitPlaces(f, units, line, n);
      NoneAfter(f, units, line, n, last);
      JoinReports(f, units, line, before, FoundIn(f, units[..k], line), last, UnitRanges(f, units[k].lines, line, n));
      places := before + last;
    }
  }

  lemma NoneAfter(f: File, units: seq<CompilationUnit>, line: int, n: nat, places: seq<(nat, nat)>)
    requires units != [] && n == if units[|units| - 1].lines == [] then 0 else |units[|units| - 1].lines| - 1
    requires UnitReports(f, units, line, n, places, UnitRanges(f, units[|units| - 1].lines, line, n))
    ensures UnitReports(f, units, line, |units[|units| - 1].lines| - 1, places,
                        UnitRanges(f, units[|units| - 1].lines, line, n))
  {
  }

  // ----- lookup by address

  predicate Crosses(lines: seq<LineNumber>, i: int, addr: nat) {
    0 <= i < |lines| - 1 && lines[i].addr <= addr < lines[i + 1].addr
  }

  predicate NoCrossing(lines: seq<LineNumber>, n: int, addr: nat) {
    forall i :: 0 <= i < n ==> !Crosses(lines, i, addr)
  }

  /** Between the base and the top of a unit, `[baseAddress, topAddress)`. */
  predicate Spans(lines: seq<LineNumber>, addr: nat) {
    lines != [] && lines[0].addr <= addr < lines[|lines| - 1].addr
  }

  /** A row crosses every address a unit spans, whether or not its rows are sorted. */
  lemma {:induction false} LookupIsTotal(lines: seq<LineNumber>, addr: nat) returns (i: nat)
    requires Spans(lines, addr)
    ensures Crosses(lines, i, addr)
    decreases |lines|
  {
    var k := |lines| - 2;
    if lines[k].addr <= addr {
      i := k;
    } else {
      i := LookupIsTotal(lines[..k + 1], addr);
      assert lines[..k + 1][i] == lines[i] && lines[..k + 1][i + 1] == lines[i + 1];
    }
  }

  predicate Ordered(lines: seq<LineNumber>) {
    forall i, j :: 0 <= i <= j < |lines| ==> lines[i].addr <= lines[j].addr
  }

  lemma CrossingIsUnique(lines: seq<LineNumber>, i: int, j: int, addr: nat)
    requires Ordered(lines) && Crosses(lines, i, addr) && Crosses(lines, j, addr)
    ensures i == j && Spans(lines, addr)
  {
  }

  class DebugLine {
    var files: map<Path, File>
    var cus: seq<CompilationUnit>

    constructor ()
      ensures files == map[] && cus == []
    {
      files, cus := map[], [];
    }

    method AddUnit(cu: CompilationUnit)
      modifies `cus
      ensures cus == old(cus) + [cu]
    {
      cus := cus + [cu];
    }

    method AddFile(file: File)
      modifies `files
      ensures files == old(files)[file.path := file]
    {
      files := files[file.path := file];
    }

    method LineAt(addr: nat) returns (r: Lookup)
      ensures r == LookupFrom(cus, 0, addr)
    {
      for k := 0 to |cus|
        invariant LookupFrom(cus, 0, addr) == LookupFrom(cus, k, addr)
      {
        var lines := cus[k].lines;
        if lines == [] {
          return UndefinedLookup;
        }
        if lines[0].addr <= addr < lines[|lines| - 1].addr {
          var row := cus[k].LineAt(addr);
          ghost var i := LookupIsTotal(lines, addr);
          FirstIsRow(lines, addr, row);
          return Found(k, row);
        }
      }
      return NoLine;
    }
  }

  /** The first crossing from row i on, or |lines|. */
  function FirstCrossing(lines: seq<LineNumber>, i: nat, addr: nat): (row: nat)
    decreases |lines| - i
  {
    if i >= |lines| || Crosses(lines, i, addr) then i else FirstCrossing(lines, i + 1, addr)
  }

  lemma FirstIsRow(lines: seq<LineNumber>, addr: nat, row: nat)
    requires Crosses(lines, row, addr) && NoCrossing(lines, row, addr)
    ensures FirstCrossing(lines, 0, addr) == row
  {
    FirstFrom(lines, 0, addr, row);
  }

  lemma {:induction false} FirstFrom(lines: seq<LineNumber>, i: nat, addr: nat, row: nat)
    requires i <= row && Crosses(lines, row, addr) && NoCrossing(lines, row, addr)
    ensures FirstCrossing(lines, i, addr) == row
    decreases row - i
  {
    if i < row {
      FirstFrom(lines, i + 1, addr, row);
    }
  }

  /** The units are asked in order; the first that spans the address answers. */
  function LookupFrom(cus: seq<CompilationUnit>, k: nat, addr: nat): Lookup
    reads cus
    decreases |cus| - k
  {
    if k >= |cus| then NoLine
    else if cus[k].lines == [] then UndefinedLookup
    else if Spans(cus[k].lines, addr) then Found(k, FirstCrossing(cus[k].lines, 0, addr))
    else LookupFrom(cus, k + 1, addr)
  }

  /** What an address lookup finds: nothing exactly when no unit spans the address, over
      non-empty units; otherwise the first crossing of the first unit that spans it. It is
      undefined exactly when an empty unit comes first. */
  lemma {:induction false} LookupMeans(cus: seq<CompilationUnit>, k: nat, addr: nat)
    requires k <= |cus|
    ensures match LookupFrom(cus, k, addr)
            case NoLine => forall u :: k <= u < |cus| ==> cus[u].lines != [] && !Spans(cus[u].lines, addr)
            case UndefinedLookup =>
              exists u :: k <= u < |cus| && cus[u].lines == [] && SkippedUntil(cus, k, u, addr)
            case Found(u, i) =>
              && k <= u < |cus| && Spans(cus[u].lines, addr) && SkippedUntil(cus, k, u, addr)
              && Crosses(cus[u].lines, i, addr) && NoCrossing(cus[u].lines, i, addr)
    decreases |cus| - k
  {
    if k < |cus| {
      var lines := cus[k].lines;
      if lines == [] {
        assert SkippedUntil(cus, k, k, addr);
      } else if Spans(lines, addr) {
        var i := LookupIsTotal(lines, addr);
        FirstExists(lines, 0, addr, i);
      } else {
        LookupMeans(cus, k + 1, addr);
        if LookupFrom(cus, k, addr).UndefinedLookup? {
          var u :| k + 1 <= u < |cus| && cus[u].lines == [] && SkippedUntil(cus, k + 1, u, addr);
          assert SkippedUntil(cus, k, u, addr);
        }
      }
    }
  }

  /** The units from k on and before u have rows and do not span the address. */
  ghost predicate SkippedUntil(cus: seq<CompilationUnit>, k: nat, u: nat, addr: nat)
    reads cus
  {
    forall v :: k <= v < u && v < |cus| ==> cus[v].lines != [] && !Spans(cus[v].lines, addr)
  }

  lemma {:induction false} FirstExists(lines: seq<LineNumber>, i: nat, addr: nat, j: nat)
    requires i <= j && Crosses(lines, j, addr) && NoCrossing(lines, i, addr)
    ensures var row := FirstCrossing(lines, i, addr);
            Crosses(lines, row, addr) && NoCrossing(lines, row, addr)
    decreases j - i
  {
    if !Crosses(lines, i, addr) {
      FirstExists(lines, i + 1, addr, j);
    }
  }

  // ----- the links between files and units

  /** Each path has one registered file, stored under its own path; a file occurs in a unit
      as often as the unit occurs in the file; the rows of a unit belong to its files.
      The units are the registered ones and one that is being read. */
  ghost predicate Linked(files: map<Path, File>, units: seq<CompilationUnit>)
    reads files.Values, units
  {
    && (forall p :: p in files ==> files[p].path == p)
    && (forall u, f :: u in units && f in u.files ==> f.path in files && files[f.path] == f)
    && (forall p, u :: p in files && u in files[p].units ==> u in units)
    && (forall p, u :: p in files && u in units ==>
          multiset(u.files)[files[p]] == multiset(files[p].units)[u])
    && (forall u, i :: u in units && 0 <= i < |u.lines| ==> u.lines[i].file in u.files)
  }

  /** Every unit is sorted and has rows, and no two units span the same address. */
  ghost predicate Disjoint(cus: seq<CompilationUnit>)
    reads cus
  {
    && (forall u :: u in cus ==> u.lines != [] && Ordered(u.lines))
    && (forall u, v, addr: nat :: 0 <= u < v < |cus| ==>
          !(Spans(cus[u].lines, addr) && Spans(cus[v].lines, addr)))
  }

  /** The lookup gives a row of the file and line. */
  predicate GivesLine(cus: seq<CompilationUnit>, l: Lookup, f: File, line: int)
    reads cus
  {
    && l.Found? && l.unit < |cus| && l.row < |cus[l.unit].lines|
    && cus[l.unit].lines[l.row].file == f && cus[l.unit].lines[l.row].line == line
  }

  /** Duality of the two lookups: an address lies in a range that `find` reports for a line of
      a file exactly when the address lookup gives a row of that file and line. */
  lemma LookupsAreDual(d: DebugLine, f: File, line: int, addr: nat)
    requires Linked(d.files, d.cus) && Disjoint(d.cus)
    requires f.path in d.files && d.files[f.path] == f
    ensures (exists r :: r in FoundIn(f, f.units, line) && r.0 <= addr < r.1) <==>
            GivesLine(d.cus, LookupFrom(d.cus, 0, addr), f, line)
  {
    LookupMeans(d.cus, 0, addr);
    var l := LookupFrom(d.cus, 0, addr);
    if r :| r in FoundIn(f, f.units, line) && r.0 <= addr < r.1 {
      FoundMembers(f, f.units, line, r);
      var u, i :| u in f.units && RangeAt(f, u.lines, line, i, r);
      assert u in d.cus;
      var k :| 0 <= k < |d.cus| && d.cus[k] == u;
      SpannedIsFound(d.cus, k, i, addr);
    }
    if GivesLine(d.cus, l, f, line) {
      var u := d.cus[l.unit];
      var r := (u.lines[l.row].addr, u.lines[l.row + 1].addr);
      assert f in u.files;
      assert multiset(u.files)[f] > 0;
      assert u in f.units;
      assert RangeAt(f, u.lines, line, l.row, r);
      FoundMembers(f, f.units, line, r);
    }
  }

  lemma SpannedIsFound(cus: seq<CompilationUnit>, k: nat, i: int, addr: nat)
    requires Disjoint(cus) && k < |cus| && Crosses(cus[k].lines, i, addr)
    ensures LookupFrom(cus, 0, addr) == Found(k, i)
  {
    LookupMeans(cus, 0, addr);
    CrossingIsUnique(cus[k].lines, i, i, addr);
    var l := LookupFrom(cus, 0, addr);
    assert l.Found?;
    assert l.unit == k;
    CrossingIsUnique(cus[k].lines, i, l.row, addr);
  }
}
