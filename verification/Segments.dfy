/** How the linker maps the PT_LOAD segments of a library, page by page. */
module Segments {
  import opened Words

  const PAGE := 4096

  /** A byte for every address; also the bytes of a file, which reads as zeros past its end. */
  type Memory = int -> u8

  /** A program header; `load` for PT_LOAD. */
  datatype Header = Header(load: bool, vaddr: nat, offset: nat, filesz: nat, memsz: nat, writable: bool)

  /** The start of the page of an address. */
  function Floor(x: int): (r: int)
    ensures r <= x < r + 4096 && r % 4096 == 0
  {
    x / PAGE * PAGE
  }

  /** The first page boundary from an address on. */
  function Ceil(x: int): (r: int)
    ensures x <= r < x + 4096 && r % 4096 == 0
  {
    (x + PAGE - 1) / PAGE * PAGE
  }

  predicate Aligned(x: int) {
    x == x / PAGE * PAGE
  }

  lemma FloorMonotone(a: int, b: int)
    requires a <= b
    ensures Floor(a) <= Floor(b) && Ceil(a) <= Ceil(b)
  {
  }

  lemma FloorAligned(x: int)
    ensures Aligned(Floor(x)) && Aligned(Ceil(x)) && (Aligned(x) ==> Floor(x) == x == Ceil(x))
  {
  }

  lemma CeilShift(b: int, x: int)
    requires Aligned(b)
    ensures Ceil(b + x) == b + Ceil(x) && Floor(b + x) == b + Floor(x)
  {
    var q := b / PAGE;
    assert (b + x) / PAGE == q + x / PAGE;
    assert (b + x + PAGE - 1) / PAGE == q + (x + PAGE - 1) / PAGE;
  }

  function End(h: Header): nat {
    h.vaddr + h.memsz
  }

  /** The part of the file that is mapped, from the start of the first page. */
  function MappedLength(h: Header): nat {
    h.filesz + h.vaddr % PAGE
  }

  /** What an ELF file promises of a loadable segment. */
  predicate Proper(h: Header) {
    0 < h.filesz <= h.memsz && h.offset % PAGE == h.vaddr % PAGE
  }

  /** The segments ascend, and no two share a page. */
  predicate Apart(hs: seq<Header>) {
    forall i, j :: 0 <= i < j < |hs| && hs[i].load && hs[j].load ==> Ceil(End(hs[i])) <= Floor(hs[j].vaddr)
  }

  // ---------------------------------------------------------------- the extent of a library

  ghost predicate AnyLoad(hs: seq<Header>) {
    exists h <- hs :: h.load
  }

  datatype Extent = NoSegments | Extent(low: nat, high: nat)

  /** get_lib_extents: the pages from the first to the last byte of all segments. */
  method LibExtents(hs: seq<Header>) returns (e: Extent)
    ensures e.NoSegments? <==> !AnyLoad(hs)
    ensures e.Extent? ==> Aligned(e.low) && Aligned(e.high) && e.low <= e.high
    ensures e.Extent? ==> forall h <- hs :: h.load ==> e.low <= Floor(h.vaddr) && Ceil(End(h)) <= e.high
    ensures e.Extent? ==> exists h <- hs :: h.load && Floor(h.vaddr) == e.low
    ensures e.Extent? ==> exists h <- hs :: h.load && Ceil(End(h)) == e.high
  {
    hide Floor, Ceil, Aligned;
    var low, high, any := 0, 0, false;
    ghost var first, last := 0, 0;
    for k := 0 to |hs|
      invariant any <==> AnyLoad(hs[..k])
      invariant any ==> 0 <= first < k && hs[first].load && hs[first].vaddr == low
      invariant any ==> 0 <= last < k && hs[last].load && End(hs[last]) == high
      invariant forall j :: 0 <= j < k && hs[j].load ==> low <= hs[j].vaddr && End(hs[j]) <= high
    {
      assert hs[..k + 1] == hs[..k] + [hs[k]];
      if hs[k].load {
        if !any || End(hs[k]) > high {
          high, last := End(hs[k]), k;
        }
        if !any || hs[k].vaddr < low {
          low, first := hs[k].vaddr, k;
        }
        any := true;
      }
    }
    assert hs[..|hs|] == hs;
    if !any {
      return NoSegments;
    }
    FloorNat(low);
    ExtentFacts(hs, low, high, first, last);
    e := Extent(Floor(low), Ceil(high));
  }

  lemma FloorNat(x: nat)
    ensures Floor(x) >= 0
  {
  }

  lemma ExtentFacts(hs: seq<Header>, low: nat, high: nat, first: nat, last: nat)
    requires first < |hs| && hs[first].load && hs[first].vaddr == low
    requires last < |hs| && hs[last].load && End(hs[last]) == high
    requires forall j :: 0 <= j < |hs| && hs[j].load ==> low <= hs[j].vaddr && End(hs[j]) <= high
    ensures Aligned(Floor(low)) && Aligned(Ceil(high)) && Floor(low) <= Ceil(high)
    ensures forall h <- hs :: h.load ==> Floor(low) <= Floor(h.vaddr) && Ceil(End(h)) <= Ceil(high)
    ensures exists h <- hs :: h.load && Floor(h.vaddr) == Floor(low)
    ensures exists h <- hs :: h.load && Ceil(End(h)) == Ceil(high)
  {
    hide Floor, Ceil, Aligned;
    FloorAligned(low);
    FloorAligned(high);
    forall h | h in hs && h.load ensures Floor(low) <= Floor(h.vaddr) && Ceil(End(h)) <= Ceil(high) {
      FloorMonotone(low, h.vaddr);
      FloorMonotone(End(h), high);
    }
    assert hs[first] in hs && hs[last] in hs;
  }

  // ---------------------------------------------------------------- one segment

  function Fill(mem: Memory, lo: int, hi: int, f: Memory): Memory {
    x => if lo <= x < hi then f(x) else mem(x)
  }

  function Zeros(): Memory {
    x => 0
  }

  /** The file, as it appears when the byte at `offset` is mapped to address `at`. */
  function View(file: Memory, at: int, offset: int): Memory {
    x => file(offset + (x - at))
  }

  /** Where the pages of the file end. */
  function FileTop(base: int, h: Header): int {
    base + Floor(h.vaddr) + Ceil(MappedLength(h))
  }

  /** The end of the last page that is mapped for a segment. */
  function Top(base: int, h: Header): int {
    if FileTop(base, h) < base + Ceil(End(h)) then base + Ceil(End(h)) else FileTop(base, h)
  }

  /** The bytes of a segment: those of the file, then zeros. In a segment that is not writable the
      rest of the last file page still shows the file. */
  function Expected(base: int, file: Memory, h: Header, x: int): u8 {
    var i := x - base - h.vaddr;
    if i < h.filesz || (!h.writable && x < FileTop(base, h)) then file(h.offset + i) else 0
  }

  ghost predicate Holds(mem: Memory, base: int, file: Memory, h: Header) {
    forall x: int :: base + h.vaddr <= x < base + End(h) ==> mem(x) == Expected(base, file, h, x)
  }

  /** The byte that mapping a segment leaves at an address of its pages, proper or not. */
  function PageByte(base: int, file: Memory, h: Header, x: int): u8 {
    var at := base + Floor(h.vaddr);
    if x < FileTop(base, h) && !(h.writable && at + MappedLength(h) <= x) then file(Floor(h.offset) + (x - at)) else 0
  }

  /** What mapping a segment does to the whole memory. */
  ghost predicate MapsPages(mem: Memory, mem': Memory, base: int, file: Memory, h: Header) {
    forall x: int :: mem'(x) ==
      if base + Floor(h.vaddr) <= x < Top(base, h) then PageByte(base, file, h, x) else mem(x)
  }

  lemma PageParts(h: Header)
    requires Proper(h)
    ensures h.vaddr == Floor(h.vaddr) + h.vaddr % PAGE && h.offset == Floor(h.offset) + h.vaddr % PAGE
  {
  }

  lemma FullPages(n: nat)
    requires n % PAGE == 0
    ensures Ceil(n) == n
  {
  }

  lemma TopOfPages(base: int, h: Header)
    requires Aligned(base)
    ensures Ceil(base + Floor(h.vaddr) + MappedLength(h)) == FileTop(base, h)
    ensures Ceil(base + End(h)) == base + Ceil(End(h))
    ensures FileTop(base, h) >= base + End(h) ==> Top(base, h) == FileTop(base, h)
  {
    hide Ceil, Floor, Aligned;
    FloorAligned(h.vaddr);
    CeilShift(base, End(h));
    AlignedSum(base, Floor(h.vaddr));
    CeilShift(base + Floor(h.vaddr), MappedLength(h));
    if FileTop(base, h) >= base + End(h) {
      FloorMonotone(base + End(h), FileTop(base, h));
      FloorAligned(base + Floor(h.vaddr) + MappedLength(h));
      FloorAligned(FileTop(base, h));
    }
  }

  lemma AlignedSum(a: int, b: int)
    requires Aligned(a) && Aligned(b)
    ensures Aligned(a + b)
  {
  }

  /** A proper segment then holds its bytes. */
  lemma PagesHold(mem: Memory, mem': Memory, base: int, file: Memory, h: Header)
    requires Proper(h) && MapsPages(mem, mem', base, file, h)
    ensures Holds(mem', base, file, h)
  {
    hide Ceil, Floor;
    PageParts(h);
    ProperTop(base, h);
  }

  /** The pages of a proper segment end with its last byte. */
  lemma ProperTop(base: int, h: Header)
    requires Proper(h)
    ensures Top(base, h) == base + Ceil(End(h))
  {
    CeilShift(Floor(h.vaddr), MappedLength(h));
    FloorAligned(h.vaddr);
    PageParts(h);
    FloorMonotone(Floor(h.vaddr) + MappedLength(h), End(h));
  }

  // ---------------------------------------------------------------- all segments

  /** The pages that the segments take up. */
  function Footprint(hs: seq<Header>): int {
    if hs == [] then 0 else
    var h := hs[|hs| - 1];
    Footprint(hs[..|hs| - 1]) + if h.load then Ceil(End(h)) - Floor(h.vaddr) else 0
  }

  /** The size check never fails for segments that share no page. */
  lemma {:induction false} FootprintFits(hs: seq<Header>, low: int, high: int)
    requires Apart(hs) && low <= high
    requires forall h <- hs :: h.load ==> low <= Floor(h.vaddr) && Ceil(End(h)) <= high
    ensures Footprint(hs) <= high - low
  {
    hide Floor, Ceil;
    if hs != [] {
      var rest, h := hs[..|hs| - 1], hs[|hs| - 1];
      assert forall i :: 0 <= i < |rest| ==> rest[i] == hs[i] && rest[i] in hs;
      if h.load {
        assert h in hs;
        FootprintFits(rest, low, Floor(h.vaddr));
      } else {
        FootprintFits(rest, low, high);
      }
    }
  }

  lemma FootprintMore(hs: seq<Header>, k: nat)
    requires k < |hs|
    ensures Footprint(hs[..k + 1])
      == Footprint(hs[..k]) + if hs[k].load then Ceil(End(hs[k])) - Floor(hs[k].vaddr) else 0
  {
    assert hs[..k + 1][..k] == hs[..k];
  }

  /** An address in none of the pages of the segments. */
  ghost predicate Outside(hs: seq<Header>, base: int, x: int) {
    forall h <- hs :: h.load ==> !(base + Floor(h.vaddr) <= x < Top(base, h))
  }

  lemma OutsideMore(hs: seq<Header>, k: nat, base: int, x: int)
    requires k < |hs| && Outside(hs[..k + 1], base, x)
    ensures Outside(hs[..k], base, x) && (hs[k].load ==> !(base + Floor(hs[k].vaddr) <= x < Top(base, hs[k])))
  {
    hide Floor, Top;
    assert hs[..k + 1] == hs[..k] + [hs[k]];
  }

  /** A later segment leaves an earlier one as it is. */
  lemma EarlierKept(mem: Memory, mem': Memory, base: int, file: Memory, hs: seq<Header>, j: nat, k: nat)
    requires Apart(hs) && j < k < |hs| && hs[j].load && hs[k].load
    requires Holds(mem, base, file, hs[j]) && MapsPages(mem, mem', base, file, hs[k])
    ensures Holds(mem', base, file, hs[j])
  {
    hide Floor, Ceil, PageByte, Expected, Top;
  }

  /** Every segment that was mapped so far holds its bytes. */
  ghost predicate AllHold(mem: Memory, base: int, file: Memory, hs: seq<Header>, k: nat)
    requires k <= |hs|
  {
    forall j :: 0 <= j < k && hs[j].load ==> Holds(mem, base, file, hs[j])
  }

  ghost predicate AllProper(hs: seq<Header>) {
    Apart(hs) && forall h <- hs :: h.load ==> Proper(h)
  }

  lemma AllHoldMore(mem: Memory, mem': Memory, base: int, file: Memory, hs: seq<Header>, k: nat)
    requires AllProper(hs) && k < |hs| && hs[k].load && AllHold(mem, base, file, hs, k)
    requires MapsPages(mem, mem', base, file, hs[k])
    ensures AllHold(mem', base, file, hs, k + 1)
  {
    hide MapsPages, Holds, Apart, Proper;
    forall j | 0 <= j <= k && hs[j].load ensures Holds(mem', base, file, hs[j]) {
      if j < k {
        EarlierKept(mem, mem', base, file, hs, j, k);
      } else {
        assert hs[k] in hs;
        PagesHold(mem, mem', base, file, hs[k]);
      }
    }
  }

  /** Nothing but the pages of the segments has changed. */
  ghost predicate Framed(mem: Memory, mem': Memory, base: int, hs: seq<Header>) {
    forall x: int :: Outside(hs, base, x) ==> mem'(x) == mem(x)
  }

  lemma FramedMore(mem: Memory, m: Memory, m': Memory, base: int, file: Memory, hs: seq<Header>, k: nat)
    requires k < |hs| && Framed(mem, m, base, hs[..k])
    requires if hs[k].load then MapsPages(m, m', base, file, hs[k]) else m' == m
    ensures Framed(mem, m', base, hs[..k + 1])
  {
    hide Outside, Floor, Top, PageByte;
    forall x: int | Outside(hs[..k + 1], base, x) ensures m'(x) == mem(x) {
      OutsideMore(hs, k, base, x);
    }
  }

  /** The steps for one segment: the file pages are mapped, the rest of the last one is cleared if the
      segment is writable, and zero pages follow up to the memory size. An empty mapping is refused. */
  method LoadSegment(mem: Memory, base: int, file: Memory, h: Header) returns (mem': Memory, len: nat)
    requires Aligned(base)
    ensures len == MappedLength(h)
    ensures if len == 0 then mem' == mem else MapsPages(mem, mem', base, file, h)
  {
    hide Floor, Ceil, Aligned;
    var at := base + Floor(h.vaddr);
    len := h.filesz + h.vaddr % PAGE;
    mem' := mem;
    if len == 0 {
      return;
    }
    TopOfPages(base, h);
    mem' := Fill(mem', at, at + Ceil(len), View(file, at, Floor(h.offset)));
    if len % PAGE != 0 && h.writable {
      mem' := Fill(mem', at + len, at + Ceil(len), Zeros());
    }
    if len % PAGE == 0 {
      FullPages(len);
    }
    var tmp := Ceil(at + len);
    if tmp < base + End(h) {
      mem' := Fill(mem', tmp, Ceil(base + End(h)), Zeros());
    }
  }

  datatype Loading = MapFails | TooLong | Loaded(mem: Memory)

  /** load_segments, with the mappings made as asked; a mapping of length 0 is refused. */
  method LoadSegments(mem: Memory, base: int, size: int, file: Memory, hs: seq<Header>) returns (r: Loading)
    requires Aligned(base)
    ensures r.MapFails? <==> exists h <- hs :: h.load && MappedLength(h) == 0
    ensures !r.MapFails? ==> (r.TooLong? <==> Footprint(hs) > size)
    ensures r.Loaded? && AllProper(hs) ==> AllHold(r.mem, base, file, hs, |hs|)
    ensures r.Loaded? ==> Framed(mem, r.mem, base, hs)
  {
    hide Floor, Ceil, Aligned, Footprint, AllProper, AllHold, Framed, MapsPages, MappedLength;
    var m := mem;
    var total := 0;
    StartLoading(mem, base, file, hs);
    for k := 0 to |hs|
      invariant total == Footprint(hs[..k])
      invariant forall j :: 0 <= j < k && hs[j].load ==> MappedLength(hs[j]) != 0
      invariant AllProper(hs) ==> AllHold(m, base, file, hs, k)
      invariant Framed(mem, m, base, hs[..k])
    {
      FootprintMore(hs, k);
      ghost var before := m;
      if hs[k].load {
        var len: nat;
        m, len := LoadSegment(m, base, file, hs[k]);
        if len == 0 {
          assert hs[k] in hs;
          return MapFails;
        }
        CeilShift(base, End(hs[k]));
        total := total + (Ceil(base + End(hs[k])) - (base + Floor(hs[k].vaddr)));
      }
      FramedMore(mem, before, m, base, file, hs, k);
      if AllProper(hs) {
        AllHoldNext(before, m, base, file, hs, k);
      }
    }
    assert hs[..|hs|] == hs;
    r := if total > size then TooLong else Loaded(m);
  }

  lemma StartLoading(mem: Memory, base: int, file: Memory, hs: seq<Header>)
    ensures Footprint(hs[..0]) == 0 && AllHold(mem, base, file, hs, 0) && Framed(mem, mem, base, hs[..0])
  {
  }

  lemma AllHoldNext(m: Memory, m': Memory, base: int, file: Memory, hs: seq<Header>, k: nat)
    requires AllProper(hs) && k < |hs| && AllHold(m, base, file, hs, k)
    requires if hs[k].load then MapsPages(m, m', base, file, hs[k]) else m' == m
    ensures AllHold(m', base, file, hs, k + 1)
  {
    hide MapsPages, Holds, AllProper;
    if hs[k].load {
      AllHoldMore(m, m', base, file, hs, k);
    }
  }

  /** The reserved region is big enough for any library whose segments are proper and share no page. */
  lemma SizeCheckPasses(hs: seq<Header>, low: nat, high: nat)
    requires AllProper(hs) && low <= high
    requires forall h <- hs :: h.load ==> low <= Floor(h.vaddr) && Ceil(End(h)) <= high
    ensures Footprint(hs) <= high - low && !exists h <- hs :: h.load && MappedLength(h) == 0
    ensures forall h <- hs, base: int :: h.load ==> Top(base, h) == base + Ceil(End(h))
  {
    hide Floor, Ceil, Footprint, Top, Apart;
    FootprintFits(hs, low, high);
    forall h, base: int | h in hs && h.load ensures Top(base, h) == base + Ceil(End(h)) {
      ProperTop(base, h);
    }
  }

  /** With a first segment in page 0, loading changes nothing outside the reserved region. */
  lemma OnlyTheRegion(mem: Memory, mem': Memory, base: int, hs: seq<Header>, high: nat, x: int)
    requires AllProper(hs) && Framed(mem, mem', base, hs) && !(base <= x < base + high)
    requires forall h <- hs :: h.load ==> Ceil(End(h)) <= high
    ensures mem'(x) == mem(x)
  {
    hide Floor, Ceil, Top, Apart, Proper;
    forall h | h in hs && h.load ensures !(base + Floor(h.vaddr) <= x < Top(base, h)) {
      ProperTop(base, h);
      FloorNat(h.vaddr);
    }
    assert Outside(hs, base, x);
  }

  /** With a first segment beyond page 0, the last bytes of the highest segment lie outside the reserved
      region, and loading writes them. */
  lemma WritesOutside(mem: Memory, base: int, file: Memory, hs: seq<Header>, low: nat, high: nat, h: Header)
    requires AllProper(hs) && AllHold(mem, base, file, hs, |hs|) && Aligned(low) && low > 0
    requires h in hs && h.load && Ceil(End(h)) == high
    ensures var x := base + End(h) - 1;
      x >= base + high - low && base + h.vaddr <= x < base + End(h) && mem(x) == Expected(base, file, h, x)
  {
    hide Ceil, Floor, Apart, Expected;
    PageBeyondZero(low);
    var j :| 0 <= j < |hs| && hs[j] == h;
    assert Holds(mem, base, file, hs[j]);
  }

  lemma PageBeyondZero(low: nat)
    requires Aligned(low) && low > 0
    ensures low >= PAGE
  {
  }

  datatype Image = Empty | Refused(why: Loading) | Placed(mem: Memory, size: nat)

  /** The region that is reserved for a library, and what loading does inside and outside of it. */
  ghost predicate Contained(mem: Memory, mem': Memory, base: int, size: nat) {
    forall x: int :: !(base <= x < base + size) ==> mem'(x) == mem(x)
  }

  /** The last byte of a segment, written outside the region. */
  ghost predicate Escapes(mem': Memory, base: int, size: nat, file: Memory, h: Header) {
    var x := base + End(h) - 1;
    x >= base + size && base + h.vaddr <= x && mem'(x) == Expected(base, file, h, x)
  }

  /** The pages from the lowest to the highest of the loadable segments. */
  ghost predicate Covered(hs: seq<Header>, low: nat, high: nat) {
    && low <= high
    && (forall h <- hs :: h.load ==> low <= Floor(h.vaddr) && Ceil(End(h)) <= high)
    && (exists h <- hs :: h.load && Floor(h.vaddr) == low)
    && (exists h <- hs :: h.load && Ceil(End(h)) == high)
  }

  /** get_lib_extents, then load_segments into a region of that size at the base that was reserved. It
      is refused exactly if a segment maps nothing or the segments together are longer than the region. A
      proper library is always loaded; it stays inside its region if its first segment begins in page 0,
      and otherwise overwrites what comes behind. */
  method LoadImage(mem: Memory, base: int, file: Memory, hs: seq<Header>) returns (r: Image, low: nat)
    requires Aligned(base)
    ensures r.Empty? <==> !AnyLoad(hs)
    ensures r.Refused? ==> !AllProper(hs)
    ensures !r.Empty? ==> exists high: nat :: Covered(hs, low, high) && (r.Placed? ==> r.size == high - low)
    ensures forall high: nat :: Covered(hs, low, high) && AnyLoad(hs) ==>
      (r.Refused? <==> (exists h <- hs :: h.load && MappedLength(h) == 0) || Footprint(hs) > high - low)
    ensures r.Placed? && AllProper(hs) ==> AllHold(r.mem, base, file, hs, |hs|)
    ensures r.Placed? && AllProper(hs) && low == 0 ==> Contained(mem, r.mem, base, r.size)
    ensures r.Placed? && AllProper(hs) && low > 0 ==> exists h <- hs :: h.load && Escapes(r.mem, base, r.size, file, h)
  {
    hide Floor, Ceil, Aligned, AllProper, AllHold, Framed, Footprint, Expected, MappedLength;
    low := 0;
    var e := LibExtents(hs);
    if e.NoSegments? {
      return Empty, 0;
    }
    low := e.low;
    assert Covered(hs, e.low, e.high);
    assert forall high: nat :: Covered(hs, e.low, high) ==> high == e.high;
    var l := LoadSegments(mem, base, e.high - e.low, file, hs);
    if AllProper(hs) {
      SizeCheckPasses(hs, e.low, e.high);
    }
    if !l.Loaded? {
      return Refused(l), low;
    }
    r := Placed(l.mem, e.high - e.low);
    if AllProper(hs) {
      ghost var h :| h in hs && h.load && Ceil(End(h)) == e.high;
      if low == 0 {
        forall x: int | !(base <= x < base + r.size) ensures l.mem(x) == mem(x) {
          OnlyTheRegion(mem, l.mem, base, hs, e.high, x);
        }
      } else {
        WritesOutside(l.mem, base, file, hs, e.low, e.high, h);
        assert Escapes(l.mem, base, r.size, file, h);
      }
    }
  }
}
