/** Placement of the program and its libraries: each unit is loaded at the page-rounded top of
    the one before. */
module UnitPlacement {
  import opened Words
  import opened Arithmetic
  import Bits

  const PT_LOAD: nat := 1
  const PF_X: nat := 1
  const PF_W: nat := 2
  const PF_R: nat := 4

  /** A program header and the memory that its content was read to, `memsz` bytes. */
  datatype ProgramHeader = ProgramHeader(typ: nat, vaddr: nat, filesz: nat, flags: nat, content: array<byte>) {
    function Memsz(): nat {
      content.Length
    }
  }

  /** An image segment on the memory of a program header. */
  datatype Loaded = Loaded(base: nat, buf: array<byte>, executable: bool, writable: bool, readable: bool, content: bool)

  type Unit = seq<ProgramHeader>

  /** `roundup`: the least multiple of m that is not below v. */
  function RoundUp(v: nat, m: nat): nat
    requires m > 0
  {
    m * Div(v + m - 1, m)
  }

  lemma RoundUpIsLeast(v: nat, m: nat)
    requires m > 0
    ensures v <= RoundUp(v, m) < v + m && Mod(RoundUp(v, m), m) == 0
  {
    var q := Div(v + m - 1, m);
    DivMod(v + m - 1, m);
    Nonnegative(q, m);
    DivModSplit(m * q, m, q, 0);
  }

  // ----- the code, in 32 and 64 bits

  function LoadedAt(h: ProgramHeader, base: nat): Loaded {
    Loaded(U64(base + h.vaddr), h.content, Bits.BitAnd(h.flags, PF_X) != 0, Bits.BitAnd(h.flags, PF_W) != 0,
           Bits.BitAnd(h.flags, PF_R) != 0, h.filesz != 0)
  }

  /** The segments that `load` adds to the image. */
  function Segments(u: Unit, base: nat): seq<Loaded> {
    if u == [] then []
    else
      var h := u[|u| - 1];
      Segments(u[..|u| - 1], base) + if h.typ == PT_LOAD then [LoadedAt(h, base)] else []
  }

  function Top(u: Unit, base: nat): nat {
    if u == [] then base
    else
      var h := u[|u| - 1];
      var top := Top(u[..|u| - 1], base);
      if h.typ == PT_LOAD && U64(base + h.vaddr + h.Memsz()) > top then U64(base + h.vaddr + h.Memsz()) else top
  }

  /** The base that unit i is given. */
  function BaseOf(units: seq<Unit>, page: nat, i: nat): nat
    requires page > 0 && i <= |units|
  {
    if i == 0 then 0 else RoundUp(U32(Top(units[i - 1], U32(BaseOf(units, page, i - 1)))), page)
  }

  /** `Unit::load`. */
  method Load(im: seq<Loaded>, u: Unit, base: nat) returns (im': seq<Loaded>, top: nat)
    requires base < TWO_32
    ensures im' == im + Segments(u, base) && top == U32(Top(u, base))
  {
    im', top := im, base;
    for i := 0 to |u|
      invariant im' == im + Segments(u[..i], base) && top == Top(u[..i], base)
    {
      assert u[..i + 1][..i] == u[..i];
      if u[i].typ == PT_LOAD {
        var (x, w, r) := (Bits.BitAnd(u[i].flags, PF_X) != 0, Bits.BitAnd(u[i].flags, PF_W) != 0,
                          Bits.BitAnd(u[i].flags, PF_R) != 0);
        im' := im' + [Loaded(U64(base + u[i].vaddr), u[i].content, x, w, r, u[i].filesz != 0)];
        top := if U64(base + u[i].vaddr + u[i].Memsz()) > top then U64(base + u[i].vaddr + u[i].Memsz()) else top;
      }
    }
    assert u[..|u|] == u;
    top := U32(top);
  }

  /** The segments of the first n units. */
  function Placed(units: seq<Unit>, page: nat, n: nat): seq<Loaded>
    requires page > 0 && n <= |units|
  {
    if n == 0 then []
    else Placed(units, page, n - 1) + Segments(units[n - 1], U32(BaseOf(units, page, n - 1)))
  }

  /** The loop of `build` over its worklist. */
  method BuildUnits(units: seq<Unit>, page: nat) returns (im: seq<Loaded>)
    requires page > 0
    ensures im == Placed(units, page, |units|)
  {
    var base := 0;
    im := [];
    var i := 0;
    while i < |units|
      invariant i <= |units| && base == BaseOf(units, page, i) && im == Placed(units, page, i)
    {
      var top;
      im, top := Load(im, units[i], U32(base));
      base := RoundUp(top, page);
      i := i + 1;
    }
  }

  // ----- what the placement guarantees

  /** The top of a unit is the highest end of its segments, or its base. */
  lemma {:induction false} TopIsHighest(u: Unit, base: nat)
    ensures base <= Top(u, base)
    ensures forall h :: h in u && h.typ == 1 ==> (base + h.vaddr + h.content.Length) % TWO_64 <= Top(u, base)
    ensures Top(u, base) == base ||
            exists h :: h in u && h.typ == 1 && Top(u, base) == (base + h.vaddr + h.content.Length) % TWO_64
  {
    if u != [] {
      var n := |u| - 1;
      TopIsHighest(u[..n], base);
      assert u == u[..n] + [u[n]];
      assert forall h :: h in u <==> h in u[..n] || h == u[n];
    }
  }

  /** The first base is 0, and each later one the least multiple of the page size that is not
      below the 32-bit top of the unit before. */
  lemma BasesLeast(units: seq<Unit>, page: nat, i: nat)
    requires page > 0 && i < |units|
    ensures BaseOf(units, page, 0) == 0
    ensures var top := Top(units[i], BaseOf(units, page, i) % TWO_32) % TWO_32;
            top <= BaseOf(units, page, i + 1) < top + page && Mod(BaseOf(units, page, i + 1), page) == 0
  {
    RoundUpIsLeast(U32(Top(units[i], U32(BaseOf(units, page, i)))), page);
    hide Top, RoundUp;
  }

  /** Bases are multiples of the page size. */
  lemma BasesAligned(units: seq<Unit>, page: nat, i: nat)
    requires page > 0 && i <= |units|
    ensures Mod(BaseOf(units, page, i), page) == 0
  {
    if i == 0 {
      DivModSplit(0, page, 0, 0);
    } else {
      RoundUpIsLeast(U32(Top(units[i - 1], U32(BaseOf(units, page, i - 1)))), page);
    }
  }

  /** The unit ends, at a base, within the 32-bit addresses: no sum of `load` wraps. */
  predicate Fits(u: Unit, base: nat) {
    base < TWO_32 && forall h :: h in u && h.typ == PT_LOAD ==> base + h.vaddr + h.Memsz() < TWO_32
  }

  predicate AllFit(units: seq<Unit>, page: nat)
    requires page > 0
  {
    forall i :: 0 <= i < |units| ==> Fits(units[i], BaseOf(units, page, i))
  }

  /** How many headers of a unit are loadable: type 1. */
  function Loadable(u: Unit): nat {
    if u == [] then 0 else Loadable(u[..|u| - 1]) + if u[|u| - 1].typ == 1 then 1 else 0
  }

  /** The segment of each of them: at the base plus its virtual address, in 64 bits, on its own
      memory, executable, writable and readable by bits 0, 1 and 2 of its flags, with content if it
      has bytes in the file. There are no others. */
  lemma {:induction false} SegmentOf(u: Unit, base: nat, j: nat)
    requires j < |u|
    ensures |Segments(u, base)| == Loadable(u)
    ensures u[j].typ == 1 ==>
              && Loadable(u[..j]) < |Segments(u, base)|
              && var (s, f) := (Segments(u, base)[Loadable(u[..j])], u[j].flags);
              && s.base == (base + u[j].vaddr) % TWO_64 && s.buf == u[j].content
              && (s.executable <==> f % 2 == 1) && (s.writable <==> f / 2 % 2 == 1) && (s.readable <==> f / 4 % 2 == 1)
              && (s.content <==> u[j].filesz > 0)
    decreases |u|
  {
    var n := |u| - 1;
    if n > 0 {
      SegmentOf(u[..n], base, if j < n then j else 0);
    }
    if j < n {
      assert u[..n][..j] == u[..j];
    } else {
      FlagBits(u[j].flags);
    }
    hide Bits.BitAnd;
  }

  lemma FlagBits(f: nat)
    ensures (Bits.BitAnd(f, 1) != 0 <==> f % 2 == 1) && (Bits.BitAnd(f, 2) != 0 <==> f / 2 % 2 == 1)
    ensures Bits.BitAnd(f, 4) != 0 <==> f / 4 % 2 == 1
  {
    BitsZero(f / 2);
    BitsZero(f / 4);
    BitsZero(f / 8);
    assert f / 2 / 2 == f / 4 && f / 4 / 2 == f / 8;
  }

  lemma BitsZero(x: nat)
    ensures Bits.BitAnd(x, 0) == 0
  {
  }

  /** A unit that fits lies between its base and its top. */
  lemma {:induction false} SegmentsWithin(u: Unit, base: nat)
    requires Fits(u, base)
    ensures base <= Top(u, base) < TWO_32
    ensures forall r :: r in Segments(u, base) ==> base <= r.base && r.base + r.buf.Length <= Top(u, base)
  {
    hide Bits.BitAnd;
    if u != [] {
      var h := u[|u| - 1];
      assert h in u;
      SegmentsWithin(u[..|u| - 1], base);
    }
  }

  /** The tops of earlier units are not above the bases of later ones. */
  lemma {:induction false} BasesAscend(units: seq<Unit>, page: nat, i: nat, j: nat)
    requires page > 0 && i < j <= |units| && AllFit(units, page)
    ensures Top(units[i], BaseOf(units, page, i)) <= BaseOf(units, page, j)
    decreases j
  {
    hide Top, Fits, BaseOf, RoundUp, U32;
    var k := j - 1;
    NextBase(units, page, k);
    if i < k {
      BasesAscend(units, page, i, k);
    }
  }

  /** A unit that fits is followed by a base that is not below its top. */
  lemma NextBase(units: seq<Unit>, page: nat, k: nat)
    requires page > 0 && k < |units| && Fits(units[k], BaseOf(units, page, k))
    ensures BaseOf(units, page, k) <= Top(units[k], BaseOf(units, page, k)) <= BaseOf(units, page, k + 1)
  {
    hide Top, RoundUp;
    SegmentsWithin(units[k], BaseOf(units, page, k));
    RoundUpIsLeast(Top(units[k], BaseOf(units, page, k)), page);
  }

  lemma FitsBase(u: Unit, base: nat)
    requires Fits(u, base)
    ensures U32(base) == base
  {
  }

  /** Within 32-bit addresses, segments of different units of any worklist do not meet. */
  lemma UnitsDisjoint(units: seq<Unit>, page: nat, i: nat, j: nat, r: Loaded, s: Loaded, a: nat)
    requires page > 0 && i < j < |units| && AllFit(units, page)
    requires r in Segments(units[i], U32(BaseOf(units, page, i)))
    requires s in Segments(units[j], U32(BaseOf(units, page, j)))
    ensures !(r.base <= a < r.base + r.buf.Length && s.base <= a < s.base + s.buf.Length)
  {
    hide Segments, Top, BaseOf;
    FitsBase(units[i], BaseOf(units, page, i));
    FitsBase(units[j], BaseOf(units, page, j));
    SegmentsWithin(units[i], BaseOf(units, page, i));
    SegmentsWithin(units[j], BaseOf(units, page, j));
    BasesAscend(units, page, i, j);
  }
}
