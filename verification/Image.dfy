/** The memory image: segments built from file segments, and the segment at an address. */
module Images {
  import opened Words

  /** A range of addresses; `top` and `last` are 64-bit sums. */
  datatype Range = Range(base: nat, size: nat) {

    function Top(): nat {
      U64(base + size)
    }

    function Last(): nat {
      U64(Top() - 1)
    }

    predicate Contains(a: nat) {
      base <= a <= Last()
    }
  }

  /** A range that does not wrap contains exactly its addresses, with one exception: the empty
      range at address 0 contains every address. */
  lemma ContainsExactly(r: Range, a: nat)
    requires r.base < TWO_64 && a < TWO_64 && r.base + r.size <= TWO_64
    ensures r.Contains(a) <==> r.base <= a < r.base + r.size || (r.base == 0 && r.size == 0)
  {
  }

  /** A segment of the program file. Its bytes are the file's; they may be missing. */
  class FileSegment {
    const size: nat
    const loadAddress: nat
    const hasContent: bool
    const bytes: array?<byte>
    const writable: bool
    const executable: bool

    constructor (size: nat, loadAddress: nat, bytes: array?<byte>, hasContent: bool, writable: bool, executable: bool)
      ensures this.size == size && this.loadAddress == loadAddress && this.bytes == bytes
      ensures this.hasContent == hasContent && this.writable == writable && this.executable == executable
    {
      this.size, this.loadAddress, this.bytes := size, loadAddress, bytes;
      this.hasContent, this.writable, this.executable := hasContent, writable, executable;
    }

    /** The content fits the segment: the copy into the image does not pass its end. */
    predicate Fits() {
      hasContent && bytes != null ==> bytes.Length <= size
    }
  }

  /** The memory a file segment asks for: its content, then zeros. */
  ghost function Memory(s: FileSegment): (m: seq<byte>)
    requires s.bytes != null && s.Fits()
    reads s.bytes
    ensures |m| == s.size
  {
    if s.hasContent then s.bytes[..] + seq(s.size - s.bytes.Length, _ => 0) else seq(s.size, _ => 0)
  }

  class ImageSegment {
    const base: nat
    const buf: array<byte>
    const writable: bool
    const executable: bool

    /** A segment on memory already allocated. */
    constructor FromBuffer(buf: array<byte>, addr: nat, writable: bool, executable: bool)
      ensures this.buf == buf && base == addr && this.writable == writable && this.executable == executable
    {
      this.buf, base, this.writable, this.executable := buf, addr, writable, executable;
    }

    /** A copy of a file segment: its content, cleared up to its size. */
    constructor FromFile(s: FileSegment, addr: nat)
      requires s.bytes != null && s.Fits()
      ensures fresh(buf) && base == addr && buf[..] == Memory(s)
      ensures writable == s.writable && executable == s.executable
    {
      var b := new byte[s.size];
      var size := 0;
      if s.hasContent {
        for i := 0 to s.bytes.Length
          invariant s.bytes.Length <= b.Length
          invariant b[..i] == s.bytes[..i]
        {
          b[i] := s.bytes[i];
        }
        size := s.bytes.Length;
      }
      for i := size to s.size
        invariant s.hasContent ==> b[..size] == s.bytes[..]
        invariant forall j :: size <= j < i ==> b[j] == 0
      {
        b[i] := 0;
      }
      buf, base, writable, executable := b, addr, s.writable, s.executable;
      new;
      assert s.hasContent ==> buf[..size] == s.bytes[..];
      assert buf[..] == buf[..size] + buf[size..];
      assert buf[size..] == seq(s.size - size, _ => 0);
    }

    function Extent(): Range {
      Range(base, buf.Length)
    }
  }

  class Image {
    var segs: seq<ImageSegment>

    constructor ()
      ensures segs == []
    {
      segs := [];
    }

    method Add(s: ImageSegment)
      modifies this
      ensures segs == old(segs) + [s]
    {
      segs := segs + [s];
    }

    method At(address: nat) returns (r: ImageSegment?)
      ensures r == SegmentAt(segs, address)
      ensures r == null ==> forall k :: 0 <= k < |segs| ==> !segs[k].Extent().Contains(address)
      ensures r != null ==>
                exists k :: 0 <= k < |segs| && r == segs[k] && segs[k].Extent().Contains(address)
                            && forall j :: 0 <= j < k ==> !segs[j].Extent().Contains(address)
    {
      for k := 0 to |segs|
        invariant SegmentAt(segs, address) == SegmentAt(segs[k..], address)
        invariant forall j :: 0 <= j < k ==> !segs[j].Extent().Contains(address)
      {
        if segs[k].Extent().Contains(address) {
          return segs[k];
        }
        assert segs[k..][1..] == segs[k + 1..];
      }
      return null;
    }
  }

  /** The first segment whose range contains the address. */
  function SegmentAt(segs: seq<ImageSegment>, address: nat): ImageSegment? {
    if segs == [] then null
    else if segs[0].Extent().Contains(address) then segs[0]
    else SegmentAt(segs[1..], address)
  }

  /** It is the only one, where only one contains the address. */
  lemma {:induction false} OnlySegmentAt(segs: seq<ImageSegment>, address: nat, k: nat)
    requires k < |segs| && segs[k].Extent().Contains(address)
    requires forall j :: 0 <= j < |segs| && j != k ==> !segs[j].Extent().Contains(address)
    ensures SegmentAt(segs, address) == segs[k]
  {
    if k > 0 {
      assert !segs[0].Extent().Contains(address);
      OnlySegmentAt(segs[1..], address, k - 1);
    }
  }

  lemma {:induction false} NoSegmentAt(segs: seq<ImageSegment>, address: nat)
    requires forall j :: 0 <= j < |segs| ==> !segs[j].Extent().Contains(address)
    ensures SegmentAt(segs, address) == null
  {
    if segs != [] {
      NoSegmentAt(segs[1..], address);
    }
  }

  /** How many segments have a size and bytes. */
  function Loads(prog: seq<FileSegment>): nat {
    if prog == [] then 0
    else
      var s := prog[|prog| - 1];
      Loads(prog[..|prog| - 1]) + if s.size != 0 && s.bytes != null then 1 else 0
  }

  lemma LoadsStep(prog: seq<FileSegment>, j: nat)
    requires j < |prog|
    ensures Loads(prog[..j + 1]) == Loads(prog[..j]) + if prog[j].size != 0 && prog[j].bytes != null then 1 else 0
  {
    assert prog[..j + 1][..j] == prog[..j];
  }

  /** The m-th of them. */
  lemma {:induction false} LoadsReach(prog: seq<FileSegment>, n: nat, m: nat) returns (j: nat)
    requires n <= |prog| && m < Loads(prog[..n])
    ensures j < n && prog[j].size != 0 && prog[j].bytes != null && Loads(prog[..j]) == m
    decreases n
  {
    LoadsStep(prog, n - 1);
    if Loads(prog[..n - 1]) == m {
      j := n - 1;
    } else {
      j := LoadsReach(prog, n - 1, m);
    }
  }

  /** An image segment that is a copy of a file segment, in storage of its own: the bytes of its
      content, and zeros past it. */
  ghost predicate Copies(i: ImageSegment, s: FileSegment)
    reads i.buf, s.bytes
  {
    && s.bytes != null && i.buf != s.bytes
    && i.base == s.loadAddress && i.buf.Length == s.size
    && i.writable == s.writable && i.executable == s.executable
    && forall o :: 0 <= o < s.size ==> i.buf[o] == if s.hasContent && o < s.bytes.Length then s.bytes[o] else 0
  }

  /** The image segments are copies of the segments that have a size and bytes, in their order. */
  ghost predicate CopiesAll(segs: seq<ImageSegment>, prog: seq<FileSegment>)
    reads set i | i in segs :: i.buf, set s | s in prog :: s.bytes
  {
    && |segs| == Loads(prog)
    && forall j :: 0 <= j < |prog| && prog[j].size != 0 && prog[j].bytes != null ==>
         Loads(prog[..j]) < |segs| && Copies(segs[Loads(prog[..j])], prog[j])
  }

  /** `SimpleBuilder::build`: the image holds a copy of each segment with a size and bytes, in
      order, in fresh storage. It is not defined exactly when the content of one of them is
      longer than the segment: the copy does not check. */
  method Build(prog: seq<FileSegment>) returns (res: Result<Image>)
    ensures res.Ok? <==> forall s :: s in prog && s.size != 0 && s.bytes != null ==> s.Fits()
    ensures match res
            case Fail(f) => f == Undefined
            case Ok(im) =>
              fresh(im) && CopiesAll(im.segs, prog) && forall i :: i in im.segs ==> fresh(i.buf)
  {
    hide CopiesAll, Copies, FileSegment.Fits, Loads;
    var im := new Image();
    NoneCopied();
    assert prog[..0] == [];
    for i := 0 to |prog|
      invariant fresh(im) && CopiesAll(im.segs, prog[..i])
      invariant forall s :: s in prog[..i] && s.size != 0 && s.bytes != null ==> s.Fits()
      invariant forall i :: i in im.segs ==> fresh(i.buf)
    {
      assert prog[..i + 1] == prog[..i] + [prog[i]];
      if prog[i].size != 0 && prog[i].bytes != null {
        if !prog[i].Fits() {
          return Fail(Undefined);
        }
        AddLoaded(im, prog[i], prog[..i]);
      } else {
        SkipsOne(im.segs, prog[..i], prog[i]);
      }
    }
    assert prog[..|prog|] == prog;
    return Ok(im);
  }

  lemma NoneCopied()
    ensures CopiesAll([], [])
  {
  }

  lemma SkipsOne(segs: seq<ImageSegment>, done: seq<FileSegment>, s: FileSegment)
    requires CopiesAll(segs, done) && (s.size == 0 || s.bytes == null)
    ensures CopiesAll(segs, done + [s])
  {
    var prog := done + [s];
    LoadsStep(prog, |done|);
    assert prog[..|done|] == done && prog[..|done| + 1] == prog;
    hide Copies, Loads;
    forall j | 0 <= j < |prog| && prog[j].size != 0 && prog[j].bytes != null
      ensures Loads(prog[..j]) < |segs| && Copies(segs[Loads(prog[..j])], prog[j])
    {
      assert prog[..j] == done[..j] && prog[j] == done[j];
    }
  }

  lemma CopiesOne(segs: seq<ImageSegment>, done: seq<FileSegment>, i: ImageSegment, s: FileSegment)
    requires CopiesAll(segs, done) && s.size != 0 && Copies(i, s)
    ensures CopiesAll(segs + [i], done + [s])
  {
    var prog := done + [s];
    assert s.bytes != null;
    LoadsStep(prog, |done|);
    assert prog[..|done|] == done && prog[..|done| + 1] == prog;
    hide Copies, Loads;
    forall j | 0 <= j < |prog| && prog[j].size != 0 && prog[j].bytes != null
      ensures Loads(prog[..j]) < |segs| + 1 && Copies((segs + [i])[Loads(prog[..j])], prog[j])
    {
      if j < |done| {
        assert prog[..j] == done[..j] && prog[j] == done[j];
      }
    }
  }

  /** One more segment. */
  method AddLoaded(im: Image, s: FileSegment, ghost done: seq<FileSegment>)
    requires s.size != 0 && s.bytes != null && s.Fits() && CopiesAll(im.segs, done)
    modifies im
    ensures |im.segs| == |old(im.segs)| + 1 && im.segs[..|old(im.segs)|] == old(im.segs)
    ensures CopiesAll(im.segs, done + [s]) && fresh(im.segs[|old(im.segs)|].buf)
  {
    hide Copies, CopiesAll, FileSegment.Fits;
    var seg := Loaded(s);
    CopiesOne(im.segs, done, seg, s);
    im.Add(seg);
  }

  /** The image segment of a file segment, at its load address. */
  method Loaded(s: FileSegment) returns (seg: ImageSegment)
    requires s.bytes != null && s.Fits()
    ensures Copies(seg, s) && fresh(seg) && fresh(seg.buf)
  {
    seg := new ImageSegment.FromFile(s, s.loadAddress);
    assert |seg.buf[..]| == s.size;
    forall o | 0 <= o < s.size
      ensures seg.buf[o] == if s.hasContent && o < s.bytes.Length then s.bytes[o] else 0
    {
      assert seg.buf[..][o] == Memory(s)[o];
    }
  }

  /** What is a copy of a file segment is found at its addresses. */
  lemma CopyWhere(i: ImageSegment, s: FileSegment, address: nat)
    requires Copies(i, s) && s.size != 0 && s.loadAddress + s.size <= TWO_64 && address < TWO_64
    ensures i.Extent().Contains(address) <==> s.loadAddress <= address < s.loadAddress + s.size
  {
    ContainsExactly(i.Extent(), address);
  }

  /** The load ranges of the segments with a size and bytes do not wrap and do not meet. */
  ghost predicate Apart(prog: seq<FileSegment>) {
    && (forall j :: 0 <= j < |prog| && prog[j].size != 0 && prog[j].bytes != null ==>
          prog[j].loadAddress + prog[j].size <= TWO_64)
    && (forall j, k ::
          (0 <= j < k < |prog| && prog[j].size != 0 && prog[j].bytes != null
           && prog[k].size != 0 && prog[k].bytes != null) ==>
          prog[j].loadAddress + prog[j].size <= prog[k].loadAddress
          || prog[k].loadAddress + prog[k].size <= prog[j].loadAddress)
  }

  /** The image refines the file's memory: at an address where a segment of the file with a size
      and bytes is loaded, the segment found is its copy, in storage that is not the file's, and
      the byte there is the file's, or zero past the content; where none is loaded, none is
      found. */
  lemma ImageRefinesFile(segs: seq<ImageSegment>, prog: seq<FileSegment>, address: nat)
    requires CopiesAll(segs, prog) && Apart(prog) && address < TWO_64
    ensures forall j ::
              (0 <= j < |prog| && prog[j].size != 0 && prog[j].bytes != null
               && prog[j].loadAddress <= address < prog[j].loadAddress + prog[j].size) ==>
              var (s, i) := (prog[j], SegmentAt(segs, address));
              && i != null && i.base == s.loadAddress && i.buf.Length == s.size && i.buf != s.bytes
              && i.writable == s.writable && i.executable == s.executable
              && var o := address - s.loadAddress;
              i.buf[o] == if s.hasContent && o < s.bytes.Length then s.bytes[o] else 0
    ensures (forall j :: 0 <= j < |prog| && prog[j].size != 0 && prog[j].bytes != null ==>
              !(prog[j].loadAddress <= address < prog[j].loadAddress + prog[j].size)) ==>
            SegmentAt(segs, address) == null
  {
    forall j | 0 <= j < |prog| && prog[j].size != 0 && prog[j].bytes != null
             && prog[j].loadAddress <= address < prog[j].loadAddress + prog[j].size
      ensures SegmentAt(segs, address) == segs[Loads(prog[..j])] && Copies(segs[Loads(prog[..j])], prog[j])
    {
      FoundCopy(segs, prog, j, address);
    }
    if forall j :: 0 <= j < |prog| && prog[j].size != 0 && prog[j].bytes != null ==>
         !(prog[j].loadAddress <= address < prog[j].loadAddress + prog[j].size) {
      NoCopy(segs, prog, address);
    }
  }

  /** Segment m is a copy of some segment of the file. */
  lemma CopyOf(segs: seq<ImageSegment>, prog: seq<FileSegment>, m: nat) returns (j: nat)
    requires CopiesAll(segs, prog) && m < |segs|
    ensures j < |prog| && prog[j].size != 0 && prog[j].bytes != null && Loads(prog[..j]) == m && Copies(segs[m], prog[j])
  {
    assert prog[..|prog|] == prog;
    hide Copies, Loads;
    j := LoadsReach(prog, |prog|, m);
  }

  lemma FoundCopy(segs: seq<ImageSegment>, prog: seq<FileSegment>, j: nat, address: nat)
    requires CopiesAll(segs, prog) && Apart(prog) && address < TWO_64
    requires j < |prog| && prog[j].size != 0 && prog[j].bytes != null
    requires prog[j].loadAddress <= address < prog[j].loadAddress + prog[j].size
    ensures Loads(prog[..j]) < |segs| && SegmentAt(segs, address) == segs[Loads(prog[..j])]
    ensures Copies(segs[Loads(prog[..j])], prog[j])
  {
    hide Copies, Loads, SegmentAt, Range.Contains;
    var m := Loads(prog[..j]);
    CopyWhere(segs[m], prog[j], address);
    forall x | 0 <= x < |segs| && x != m ensures !segs[x].Extent().Contains(address) {
      var k := CopyOf(segs, prog, x);
      CopyWhere(segs[x], prog[k], address);
      assert k != j;
    }
    OnlySegmentAt(segs, address, m);
  }

  lemma NoCopy(segs: seq<ImageSegment>, prog: seq<FileSegment>, address: nat)
    requires CopiesAll(segs, prog) && Apart(prog) && address < TWO_64
    requires forall j :: 0 <= j < |prog| && prog[j].size != 0 && prog[j].bytes != null ==>
               !(prog[j].loadAddress <= address < prog[j].loadAddress + prog[j].size)
    ensures SegmentAt(segs, address) == null
  {
    hide Copies, Loads, SegmentAt, Range.Contains;
    forall x | 0 <= x < |segs| ensures !segs[x].Extent().Contains(address) {
      var k := CopyOf(segs, prog, x);
      CopyWhere(segs[x], prog[k], address);
    }
    NoSegmentAt(segs, address);
  }
}
