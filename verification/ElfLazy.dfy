/**
 Lazy loading of program images: the regions made from the program headers (kernel/elf.c) and
 the page-fault handler that fills one page from them (kernel/paging.c), against loading all
 segments up front (chapter 5, Program Header, of the System V ABI).
 */
module ElfLazy {
  const PAGE: nat := 4096
  const U32: nat := 0x1_0000_0000

  /** A program header of an image; load is p_type == PT_LOAD. */
  datatype Phdr = Phdr(load: bool, vaddr: nat, memsz: nat, filesz: nat, offset: nat, writable: bool)

  datatype Region = Region(start: nat, end: nat, fileStart: nat, fileEnd: nat, offset: nat, writable: bool)

  predicate Words(h: Phdr) { h.vaddr < U32 && h.memsz < U32 && h.filesz < U32 && h.offset < U32 }

  function Down(x: nat): (r: nat)
    ensures r <= x < r + PAGE && r % PAGE == 0
  {
    x / PAGE * PAGE
  }

  predicate Loads(h: Phdr) { h.load && h.memsz > 0 }

  /** The segment's addresses, rounded up to pages, do not wrap around 32 bits; nor does its file range. */
  predicate AddrsFit(h: Phdr) { h.vaddr + h.memsz + PAGE - 1 < U32 }
  predicate FileFits(h: Phdr) { h.offset + h.filesz < U32 }
  predicate NoWrap(h: Phdr) { AddrsFit(h) && FileFits(h) }

  /** The region made from a header. */
  function RegionOf(h: Phdr): Region {
    Region(Down(h.vaddr), Down((h.vaddr + h.memsz + PAGE - 1) % U32), h.vaddr, (h.vaddr + h.filesz) % U32, h.offset, h.writable)
  }

  function RegionsOf(hs: seq<Phdr>): seq<Region> {
    if hs == [] then []
    else RegionsOf(hs[..|hs| - 1]) + (if Loads(hs[|hs| - 1]) then [RegionOf(hs[|hs| - 1])] else [])
  }

  /** The checks on one header. */
  function HeaderError(h: Phdr, size: nat): int {
    if !(h.load && h.memsz > 0) then 0 else if h.filesz > h.memsz then -3 else if (h.offset + h.filesz) % U32 > size then -4 else 0
  }

  /** Where the program header table says header i is, in 32-bit arithmetic. */
  function HeaderAt(phoff: nat, entsize: nat, i: nat): nat { (phoff + i * entsize) % U32 }

  ghost function HeaderEnd(phoff: nat, entsize: nat, i: nat): nat { (phoff + i * entsize + 32) % 0x1_0000_0000 }

  /** What is wrong with header i: it does not lie in the image, or its contents are refused. */
  ghost function ErrorAt(hs: seq<Phdr>, phoff: nat, entsize: nat, size: nat, i: nat): int
    requires i < |hs|
  {
    if HeaderEnd(phoff, entsize, i) > size then -2 else HeaderError(hs[i], size)
  }

  const HEADER_SIZE: nat := 32

  /** Header i is the first with anything wrong, or the first for which there is no region left; rc says which. */
  ghost predicate FailsFirst(hs: seq<Phdr>, phoff: nat, entsize: nat, size: nat, max: nat, i: nat, rc: int) {
    && i < |hs| && |RegionsOf(hs[..i])| <= max && (forall j :: 0 <= j < i ==> ErrorAt(hs, phoff, entsize, size, j) == 0)
    && rc == (if ErrorAt(hs, phoff, entsize, size, i) != 0 then ErrorAt(hs, phoff, entsize, size, i)
              else if Loads(hs[i]) && |RegionsOf(hs[..i])| == max then -5 else 0)
  }

  /**
   elf_collect_lazy_regions; hs are the headers as the table places them. A failure reports the
   first header at which something is wrong, success means that nothing is.
   */
  method Collect(hs: seq<Phdr>, phoff: nat, entsize: nat, size: nat, max: nat) returns (rc: int, regions: seq<Region>)
    requires phoff < U32 && forall i :: 0 <= i < |hs| ==> Words(hs[i])
    ensures rc == 0 <==> (forall i :: 0 <= i < |hs| ==> ErrorAt(hs, phoff, entsize, size, i) == 0) && |RegionsOf(hs)| <= max
    ensures rc == 0 ==> regions == RegionsOf(hs)
    ensures rc != 0 ==> exists i: nat :: FailsFirst(hs, phoff, entsize, size, max, i, rc) && regions == RegionsOf(hs[..i])
  {
    hide HeaderAt, HeaderEnd;
    regions := [];
    var at := phoff;
    FirstHeader(phoff, entsize);
    for i := 0 to |hs|
      invariant regions == RegionsOf(hs[..i]) && |regions| <= max && at == HeaderAt(phoff, entsize, i)
      invariant forall j :: 0 <= j < i ==> ErrorAt(hs, phoff, entsize, size, j) == 0
    {
      var h := hs[i];
      assert hs[..i + 1][..i] == hs[..i];
      EndOf(phoff, entsize, i);
      if (at + HEADER_SIZE) % U32 > size { assert FailsFirst(hs, phoff, entsize, size, max, i, -2); return -2, regions; }
      if h.load && h.memsz > 0 {
        if h.filesz > h.memsz { assert FailsFirst(hs, phoff, entsize, size, max, i, -3); return -3, regions; }
        if (h.offset + h.filesz) % U32 > size { assert FailsFirst(hs, phoff, entsize, size, max, i, -4); return -4, regions; }
        if |regions| >= max {
          MoreRegions(hs, i + 1);
          assert FailsFirst(hs, phoff, entsize, size, max, i, -5);
          return -5, regions;
        }
        var r := Region(Down(h.vaddr), Down((h.vaddr + h.memsz + PAGE - 1) % U32), h.vaddr, (h.vaddr + h.filesz) % U32, h.offset, h.writable);
        regions := regions + [r];
      }
      NextHeader(phoff, entsize, i);
      at := (at + entsize) % U32;
    }
    assert hs[..|hs|] == hs;
    return 0, regions;
  }

  lemma NextHeader(phoff: nat, entsize: nat, i: nat)
    ensures HeaderAt(phoff, entsize, i + 1) == (HeaderAt(phoff, entsize, i) + entsize) % U32
  {
    var x := phoff + i * entsize;
    assert phoff + (i + 1) * entsize == x + entsize;
    assert x == x / U32 * U32 + x % U32;
  }

  lemma FirstHeader(phoff: nat, entsize: nat)
    requires phoff < U32
    ensures HeaderAt(phoff, entsize, 0) == phoff
  {
  }

  /** Without wrap-around, a header that is not refused lies in the image. */
  lemma HeaderInside(hs: seq<Phdr>, phoff: nat, entsize: nat, size: nat, i: nat)
    requires i < |hs| && phoff + i * entsize + 32 < 0x1_0000_0000
    ensures ErrorAt(hs, phoff, entsize, size, i) != -2 <==> phoff + i * entsize + 32 <= size
  {
  }

  lemma EndOf(phoff: nat, entsize: nat, i: nat)
    ensures (HeaderAt(phoff, entsize, i) + HEADER_SIZE) % U32 == HeaderEnd(phoff, entsize, i)
  {
    var x := phoff + i * entsize;
    assert x == x / U32 * U32 + x % U32;
  }

  /** A header that is not to be loaded, or has no memory, gives no region. */
  lemma {:induction false} NoRegion(a: seq<Phdr>, h: Phdr, b: seq<Phdr>)
    requires !h.load || h.memsz == 0
    ensures RegionsOf(a + [h] + b) == RegionsOf(a + b)
    decreases |b|
  {
    if b == [] {
      assert a + [h] + b == a + [h] && (a + [h])[..|a|] == a && a + b == a;
    } else {
      var f := b[..|b| - 1];
      assert (a + [h] + b)[..|a| + |b|] == a + [h] + f && (a + b)[..|a| + |b| - 1] == a + f;
      NoRegion(a, h, f);
    }
  }

  lemma {:induction false} MoreRegions(hs: seq<Phdr>, i: nat)
    requires i <= |hs|
    ensures |RegionsOf(hs)| >= |RegionsOf(hs[..i])|
    decreases |hs|
  {
    if i < |hs| {
      assert hs[..|hs| - 1][..i] == hs[..i];
      MoreRegions(hs[..|hs| - 1], i);
    } else {
      assert hs[..i] == hs;
    }
  }

  // ----- a page, filled on demand ---------------------------------------------------------------------

  predicate OnPage(r: Region, page: nat) { r.start <= page < r.end }

  /** The last of the first k regions that has file bytes at address a, if any, gives the byte. */
  function LazyByte(rs: seq<Region>, image: seq<nat>, page: nat, a: nat, k: nat): nat
    requires k <= |rs|
  {
    if k == 0 then 0
    else
      var r := rs[k - 1];
      var off := (r.offset + (a - r.fileStart)) % U32;
      if OnPage(r, page) && r.fileStart <= a < CopyTo(r, page) && off < |image| then image[off]
      else LazyByte(rs, image, page, a, k - 1)
  }

  function Max(a: nat, b: nat): nat { if a < b then b else a }
  function Min(a: nat, b: nat): nat { if a < b then a else b }

  /** The addresses of the page that the region fills from the file, and where in the file that begins. */
  function CopyFrom(r: Region, page: nat): nat { Max(page, r.fileStart) }
  function CopyTo(r: Region, page: nat): nat { Min((page + PAGE) % U32, r.fileEnd) }
  function CopyOff(r: Region, page: nat): nat { (r.offset + (CopyFrom(r, page) - r.fileStart)) % U32 }

  predicate Copies(r: Region, page: nat) { OnPage(r, page) && CopyFrom(r, page) < CopyTo(r, page) }

  /** The check against the image, in 32-bit arithmetic. */
  predicate Passes(r: Region, page: nat, size: nat) { (CopyOff(r, page) + (CopyTo(r, page) - CopyFrom(r, page))) % U32 <= size }

  /** What the region contributes to the page is in the image. */
  predicate Backed(r: Region, page: nat, size: nat) {
    Copies(r, page) ==> CopyOff(r, page) + (CopyTo(r, page) - CopyFrom(r, page)) <= size
  }

  /** The check lets a copy through that leaves the image. */
  predicate Strays(r: Region, page: nat, size: nat) { Copies(r, page) && Passes(r, page, size) && !Backed(r, page, size) }

  /** memcpy into a page. */
  function CopyIn(bytes: seq<nat>, at: nat, part: seq<nat>): (r: seq<nat>)
    requires at + |part| <= |bytes|
    ensures |r| == |bytes| && forall p :: 0 <= p < |r| ==> r[p] == if at <= p < at + |part| then part[p - at] else bytes[p]
  {
    bytes[..at] + part + bytes[at + |part|..]
  }

  /** One region's copy: 1 if the page then has its bytes, -1 if the image is too short for the check, 0 if the copy would stray. */
  method CopyRegion(r: Region, image: seq<nat>, page: nat, bytes: seq<nat>) returns (rc: int, out: seq<nat>)
    requires page < U32 && page % PAGE == 0 && |image| < U32 && |bytes| == PAGE
    ensures rc == if Backed(r, page, |image|) then 1 else if Strays(r, page, |image|) then 0 else -1
    ensures rc == 1 ==> |out| == PAGE && forall p :: 0 <= p < PAGE ==>
      out[p] == if Copies(r, page) && CopyFrom(r, page) <= page + p < CopyTo(r, page)
                then image[CopyOff(r, page) + (page + p - CopyFrom(r, page))] else bytes[p]
  {
    out := bytes;
    if page < r.start || page >= r.end { return 1, out; }
    var from, to := Max(page, r.fileStart), Min((page + PAGE) % U32, r.fileEnd);
    if to <= from { return 1, out; }
    var off := (r.offset + (from - r.fileStart)) % U32;
    if (off + (to - from)) % U32 > |image| { return -1, out; }
    if off + (to - from) > |image| { return 0, out; }
    PageEnd(page);
    out := CopyIn(bytes, from - page, image[off..off + (to - from)]);
    return 1, out;
  }

  lemma PageEnd(page: nat)
    requires page < U32 && page % PAGE == 0
    ensures (page + PAGE) % U32 <= page + PAGE
  {
  }

  /**
   handle_elf_lazy_fault, for any regions at all: the bytes and the permission of the page; 0 if no
   region has it, -1 if the image is too short. `inside` is false if a copy left the image; what
   such a copy brings in is not modelled.
   */
  method FillPage(rs: seq<Region>, image: seq<nat>, page: nat) returns (rc: int, inside: bool, bytes: seq<nat>, writable: bool)
    requires page < U32 && page % PAGE == 0 && |image| < U32
    ensures !inside <==> exists i :: 0 <= i < |rs| && Strays(rs[i], page, |image|) && forall j :: 0 <= j < i ==> Backed(rs[j], page, |image|)
    ensures inside ==> rc == if forall i :: 0 <= i < |rs| ==> !OnPage(rs[i], page) then 0
                             else if forall i :: 0 <= i < |rs| ==> Backed(rs[i], page, |image|) then 1 else -1
    ensures inside && rc == 1 ==> |bytes| == PAGE && forall p :: 0 <= p < PAGE ==> bytes[p] == LazyByte(rs, image, page, page + p, |rs|)
    ensures inside && rc == 1 ==> (writable <==> exists i :: 0 <= i < |rs| && OnPage(rs[i], page) && rs[i].writable)
  {
    hide LazyByte, Backed, Strays, CopyTo, CopyFrom, CopyOff;
    var matched := false;
    inside, writable := true, false;
    for i := 0 to |rs|
      invariant matched <==> exists j :: 0 <= j < i && OnPage(rs[j], page)
      invariant writable <==> exists j :: 0 <= j < i && OnPage(rs[j], page) && rs[j].writable
    {
      if page < rs[i].start || page >= rs[i].end { continue; }
      matched := true;
      if rs[i].writable { writable := true; }
    }
    bytes := seq(PAGE, p => 0);
    NoCopies(rs, page, |image|);
    if !matched { return 0, true, bytes, writable; }
    forall p | 0 <= p < PAGE ensures bytes[p] == LazyByte(rs, image, page, page + p, 0) { NoneYet(rs, image, page, page + p); }
    for i := 0 to |rs|
      invariant |bytes| == PAGE && forall p :: 0 <= p < PAGE ==> bytes[p] == LazyByte(rs, image, page, page + p, i)
      invariant forall j :: 0 <= j < i ==> Backed(rs[j], page, |image|) && !Strays(rs[j], page, |image|)
    {
      var code, out := CopyRegion(rs[i], image, page, bytes);
      BackedOr(rs[i], page, |image|);
      if code == -1 { return -1, true, bytes, writable; }
      if code == 0 { return 1, false, bytes, writable; }
      forall p | 0 <= p < PAGE ensures out[p] == LazyByte(rs, image, page, page + p, i + 1) {
        OneRegion(rs, image, page, page + p, i);
      }
      bytes := out;
    }
    return 1, true, bytes, writable;
  }

  lemma BackedOr(r: Region, page: nat, size: nat)
    ensures Strays(r, page, size) ==> !Backed(r, page, size)
  {
  }

  lemma NoCopies(rs: seq<Region>, page: nat, size: nat)
    ensures (forall i :: 0 <= i < |rs| ==> !OnPage(rs[i], page)) ==> forall i :: 0 <= i < |rs| ==>
      Backed(rs[i], page, size) && !Strays(rs[i], page, size)
  {
  }

  lemma NoneYet(rs: seq<Region>, image: seq<nat>, page: nat, a: nat)
    ensures LazyByte(rs, image, page, a, 0) == 0
  {
  }

  /** One region more: its own bytes where it copies, the earlier regions' elsewhere. */
  lemma OneRegion(rs: seq<Region>, image: seq<nat>, page: nat, a: nat, i: nat)
    requires i < |rs| && page < U32 && page % PAGE == 0 && page <= a < page + PAGE && |image| < U32 && Backed(rs[i], page, |image|)
    ensures LazyByte(rs, image, page, a, i + 1) ==
      var r := rs[i];
      if Copies(r, page) && CopyFrom(r, page) <= a < CopyTo(r, page)
      then image[CopyOff(r, page) + (a - CopyFrom(r, page))]
      else LazyByte(rs, image, page, a, i)
  {
    var r := rs[i];
    if Copies(r, page) && CopyFrom(r, page) <= a < CopyTo(r, page) {
      WrapAdd(r.offset + (CopyFrom(r, page) - r.fileStart), a - CopyFrom(r, page));
    }
  }

  lemma WrapAdd(x: nat, d: nat)
    requires x % U32 + d < U32
    ensures (x + d) % U32 == x % U32 + d
  {
  }

  // ----- loading everything up front ------------------------------------------------------------------

  predicate InSegment(h: Phdr, a: nat) { h.load && h.vaddr <= a < h.vaddr + h.memsz }

  /** Memory at a after loading the first k headers in order: file bytes, then zeros up to p_memsz. */
  function EagerByte(hs: seq<Phdr>, image: seq<nat>, a: nat, k: nat): nat
    requires k <= |hs|
  {
    if k == 0 then 0
    else
      var h := hs[k - 1];
      if InSegment(h, a) then (if a < h.vaddr + h.filesz && h.offset + (a - h.vaddr) < |image| then image[h.offset + (a - h.vaddr)] else 0)
      else EagerByte(hs, image, a, k - 1)
  }

  /** Segments that the collector accepts and that do not wrap around (see CopiesInside and PagesExact). They may overlap. */
  ghost predicate Sane(hs: seq<Phdr>, size: nat) {
    && size < U32
    && (forall i :: 0 <= i < |hs| ==> Words(hs[i]) && HeaderError(hs[i], size) == 0 && (Loads(hs[i]) ==> NoWrap(hs[i])))
  }

  /** A region whose file range does not wrap is copied from inside the image, whatever its addresses. */
  lemma RegionBacked(h: Phdr, size: nat, page: nat)
    requires Words(h) && Loads(h) && FileFits(h) && HeaderError(h, size) == 0 && size < U32 && page < U32
    ensures Backed(RegionOf(h), page, size)
  {
    hide Down;
    var r := RegionOf(h);
    if Copies(r, page) {
      assert h.vaddr + h.filesz < U32 by { FileEnd(h); }
      assert CopyFrom(r, page) >= h.vaddr && CopyTo(r, page) <= h.vaddr + h.filesz;
      assert CopyOff(r, page) == h.offset + (CopyFrom(r, page) - h.vaddr);
    }
  }

  /** The end of the file range is above its start only if it did not wrap. */
  lemma FileEnd(h: Phdr)
    requires Words(h)
    ensures h.vaddr + h.filesz >= U32 ==> RegionOf(h).fileEnd < h.vaddr
    ensures h.vaddr + h.filesz < U32 ==> RegionOf(h).fileEnd == h.vaddr + h.filesz
  {
  }

  /** The file position passes 2^32 on some page of the segment; the check there compares the wrapped sum and lets the copy through. */
  lemma WrapStrays(h: Phdr, size: nat) returns (page: nat)
    requires Words(h) && Loads(h) && AddrsFit(h) && !FileFits(h) && HeaderError(h, size) == 0 && size < U32
    ensures page % PAGE == 0 && page < U32 && Strays(RegionOf(h), page, size)
  {
    var a := h.vaddr + (U32 - 1 - h.offset);
    page := Down(a);
    CrossingPage(h, page, a);
    OverlapPage(h, page);
    CrossingRange(h, size, page, a);
  }

  lemma CrossingPage(h: Phdr, page: nat, a: nat)
    requires Loads(h) && AddrsFit(h) && page % PAGE == 0 && page <= a < page + PAGE && h.vaddr <= a < h.vaddr + h.memsz
    ensures page + PAGE < U32 && SegmentOnPage(h, page)
  {
  }

  lemma CrossingRange(h: Phdr, size: nat, page: nat, a: nat)
    requires Words(h) && Loads(h) && AddrsFit(h) && HeaderError(h, size) == 0 && size < U32 && page + PAGE < U32
    requires a == h.vaddr + (U32 - 1 - h.offset) && a < h.vaddr + h.filesz && page <= a < page + PAGE && OnPage(RegionOf(h), page)
    ensures Strays(RegionOf(h), page, size)
  {
    hide Down;
    var r := RegionOf(h);
    var lo, hi := CopyFrom(r, page), CopyTo(r, page);
    assert lo <= a < hi <= h.vaddr + h.filesz;
    assert CopyOff(r, page) == h.offset + (lo - h.vaddr);
    var sum := CopyOff(r, page) + (hi - lo);
    assert sum == h.offset + (hi - h.vaddr) && U32 <= sum < 2 * U32;
    assert sum % U32 == sum - U32;
  }

  /** The segment is so long that its wrapped region is one page, and the file position passes 2^32 on that page. */
  predicate WrapsOnFirst(h: Phdr) {
    && h.vaddr % PAGE + h.memsz > U32 && h.vaddr + h.filesz < U32 && Down(h.vaddr) + PAGE < U32
    && h.offset + Min(PAGE - h.vaddr % PAGE, h.filesz) >= U32
  }

  lemma OnePageRegion(h: Phdr)
    requires Words(h) && Loads(h) && !AddrsFit(h)
    ensures var r := RegionOf(h);
      if h.vaddr % PAGE + h.memsz > U32 && Down(h.vaddr) + PAGE < U32 then r.end == r.start + PAGE else r.end <= r.start
  {
    var sum, low, q := h.vaddr + h.memsz + PAGE - 1, h.vaddr % PAGE, Down(h.vaddr);
    assert h.vaddr == q + low && sum == q + (low + h.memsz + PAGE - 1);
    if sum < 2 * U32 {
      assert sum % U32 == sum - U32;
      if low + h.memsz > U32 { assert q + PAGE <= sum - U32 < q + 2 * PAGE; } else { assert sum - U32 < q + PAGE; }
    } else {
      assert sum % U32 == sum - 2 * U32 < PAGE;
    }
  }

  lemma FirstPageStrays(h: Phdr, size: nat)
    requires Words(h) && Loads(h) && !AddrsFit(h) && !FileFits(h) && HeaderError(h, size) == 0 && size < U32
    requires h.vaddr % PAGE + h.memsz > U32 && Down(h.vaddr) + PAGE < U32
    ensures Strays(RegionOf(h), Down(h.vaddr), size) <==> WrapsOnFirst(h)
  {
    var r, page := RegionOf(h), Down(h.vaddr);
    OnePageRegion(h);
    assert h.vaddr == page + h.vaddr % PAGE && CopyFrom(r, page) == h.vaddr && CopyOff(r, page) == h.offset;
    if h.vaddr + h.filesz < U32 {
      assert r.fileEnd == h.vaddr + h.filesz;
      assert CopyTo(r, page) - h.vaddr == Min(PAGE - h.vaddr % PAGE, h.filesz);
      var sum := h.offset + (CopyTo(r, page) - h.vaddr);
      if sum >= U32 { assert sum % U32 == sum - U32 <= h.offset + h.filesz - U32 == (h.offset + h.filesz) % U32; }
    } else {
      assert r.fileEnd == h.vaddr + h.filesz - U32 < h.vaddr;
    }
  }

  lemma NoOtherPage(h: Phdr, size: nat, page: nat)
    requires Words(h) && Loads(h) && !AddrsFit(h) && page % PAGE == 0 && OnPage(RegionOf(h), page)
    ensures page == Down(h.vaddr) && h.vaddr % PAGE + h.memsz > U32 && Down(h.vaddr) + PAGE < U32
  {
    OnePageRegion(h);
  }

  /** A copy that the check lets through can leave the image for this header. */
  predicate CanStray(h: Phdr) { !FileFits(h) && (AddrsFit(h) || WrapsOnFirst(h)) }

  /**
   Every copy that the fault handler makes for an accepted header stays inside the image if and
   only if the header's offset plus its file size is below 2^32, or its addresses wrap as well and
   leave no page on which the sum does. The collector compares the wrapped sum, so it does not
   refuse the others.
   */
  lemma CopiesInside(h: Phdr, size: nat)
    requires Words(h) && Loads(h) && HeaderError(h, size) == 0 && size < U32
    ensures (forall page :: 0 <= page < U32 && page % PAGE == 0 ==> !Strays(RegionOf(h), page, size)) <==> !CanStray(h)
  {
    hide WrapsOnFirst, RegionOf, CopyTo, CopyFrom, CopyOff, Passes, Down;
    if FileFits(h) {
      forall page | 0 <= page < U32 && page % PAGE == 0 ensures !Strays(RegionOf(h), page, size) { RegionBacked(h, size, page); }
    } else if AddrsFit(h) {
      var page := WrapStrays(h, size);
    } else {
      forall page | 0 <= page < U32 && page % PAGE == 0 && OnPage(RegionOf(h), page)
        ensures page == Down(h.vaddr) && h.vaddr % PAGE + h.memsz > U32 && Down(h.vaddr) + PAGE < U32
      {
        NoOtherPage(h, size, page);
      }
      if h.vaddr % PAGE + h.memsz > U32 && Down(h.vaddr) + PAGE < U32 { FirstPageStrays(h, size); } else { NeverFirst(h); }
    }
  }

  lemma NeverFirst(h: Phdr)
    requires !(h.vaddr % PAGE + h.memsz > U32 && Down(h.vaddr) + PAGE < U32)
    ensures !WrapsOnFirst(h)
  {
  }

  /** Accepted with an image of two pages; its first page is copied from 4 GiB - 4096. */
  lemma StrayExample()
    ensures var h := Phdr(true, 0x0800_0000, 0x3000, 0x3000, 0xFFFF_F000, false);
      Words(h) && Loads(h) && AddrsFit(h) && HeaderError(h, 0x2000) == 0 && Strays(RegionOf(h), 0x0800_0000, 0x2000)
  {
  }

  /** The region made from a header has exactly the segment's pages if and only if the addresses do not wrap. */
  lemma PagesExact(h: Phdr)
    requires Words(h) && Loads(h)
    ensures (forall page :: 0 <= page < U32 && page % PAGE == 0 ==> (OnPage(RegionOf(h), page) <==> SegmentOnPage(h, page))) <==> AddrsFit(h)
  {
    if AddrsFit(h) {
      forall page | 0 <= page < U32 && page % PAGE == 0 ensures OnPage(RegionOf(h), page) <==> SegmentOnPage(h, page) { OverlapPage(h, page); }
    } else {
      var r := RegionOf(h);
      WrappedEnd(h);
      var page := if r.end <= r.start then r.start else r.end;
      assert SegmentOnPage(h, page) && !OnPage(r, page);
    }
  }

  /** A segment that wraps becomes a region without pages, or, if it is almost all of memory, one of a single page. */
  lemma WrappedEnd(h: Phdr)
    requires Words(h) && Loads(h) && !AddrsFit(h)
    ensures var r := RegionOf(h); r.end <= r.start || (r.end == r.start + PAGE && r.end < h.vaddr + h.memsz)
  {
    var sum := h.vaddr + h.memsz + PAGE - 1;
    if sum < 2 * U32 {
      assert sum % U32 == sum - U32;
      assert sum - U32 <= h.vaddr + PAGE - 2;
    } else {
      assert sum % U32 == sum - 2 * U32 < PAGE;
    }
  }

  lemma {:induction false} RegionsBacked(hs: seq<Phdr>, size: nat, page: nat)
    requires Sane(hs, size) && page < U32
    ensures forall i :: 0 <= i < |RegionsOf(hs)| ==> Backed(RegionsOf(hs)[i], page, size)
    decreases |hs|
  {
    hide Backed;
    if hs != [] {
      SaneFront(hs, size);
      RegionsBacked(hs[..|hs| - 1], size, page);
      var h := hs[|hs| - 1];
      if Loads(h) { RegionBacked(h, size, page); }
    }
  }

  lemma SaneFront(hs: seq<Phdr>, size: nat)
    requires Sane(hs, size) && hs != []
    ensures Sane(hs[..|hs| - 1], size)
  {
  }

  /** Addresses of a page outside a segment's file range get nothing from its region; inside, the same byte. */
  lemma SameByte(h: Phdr, image: seq<nat>, page: nat, a: nat)
    requires Words(h) && Loads(h) && NoWrap(h) && HeaderError(h, |image|) == 0 && |image| < U32
    requires page % PAGE == 0 && page <= a < page + PAGE
    ensures var r := RegionOf(h);
      && ((OnPage(r, page) && r.fileStart <= a < CopyTo(r, page)) <==> h.vaddr <= a < h.vaddr + h.filesz)
      && r.fileStart == h.vaddr && r.offset == h.offset
    ensures h.vaddr <= a < h.vaddr + h.filesz ==> h.offset + (a - h.vaddr) < |image| && InSegment(h, a)
  {
    OverlapPage(h, page);
    FileEnd(h);
    hide OnPage, Down;
    if SegmentOnPage(h, page) { assert (page + PAGE) % U32 == page + PAGE; }
  }

  /** The last region of a list, from a header: its file bytes, and elsewhere what the list had without it. */
  lemma LastRegion(rs: seq<Region>, h: Phdr, image: seq<nat>, page: nat, a: nat)
    requires Words(h) && Loads(h) && NoWrap(h) && HeaderError(h, |image|) == 0 && |image| < U32
    requires page % PAGE == 0 && page <= a < page + PAGE
    ensures h.vaddr <= a < h.vaddr + h.filesz ==> h.offset + (a - h.vaddr) < |image| && InSegment(h, a)
    ensures LazyByte(rs + [RegionOf(h)], image, page, a, |rs| + 1) ==
      if h.vaddr <= a < h.vaddr + h.filesz then image[h.offset + (a - h.vaddr)] else LazyByte(rs, image, page, a, |rs|)
  {
    hide RegionOf, OnPage, CopyTo;
    SameByte(h, image, page, a);
    LazyPrefix(rs, [RegionOf(h)], image, page, a, |rs|);
    assert (rs + [RegionOf(h)])[|rs|] == RegionOf(h);
  }

  lemma {:induction false} LazyPrefix(a: seq<Region>, b: seq<Region>, image: seq<nat>, page: nat, addr: nat, k: nat)
    requires k <= |a|
    ensures LazyByte(a + b, image, page, addr, k) == LazyByte(a, image, page, addr, k)
    decreases k
  {
    if k > 0 { LazyPrefix(a, b, image, page, addr, k - 1); }
  }

  lemma {:induction false} EagerPrefix(hs: seq<Phdr>, image: seq<nat>, addr: nat, k: nat)
    requires k < |hs|
    ensures EagerByte(hs[..|hs| - 1], image, addr, k) == EagerByte(hs, image, addr, k)
    decreases k
  {
    if k > 0 { EagerPrefix(hs, image, addr, k - 1); }
  }

  /** The segment has file bytes at a; otherwise, if it has a at all, zeros. */
  predicate FileAt(h: Phdr, a: nat) { h.load && h.memsz > 0 && h.vaddr <= a < h.vaddr + h.filesz }

  /** The last of the first k headers with file bytes at a, and the last that has a at all; -1 if there is none. */
  function LastFile(hs: seq<Phdr>, a: nat, k: nat): (i: int)
    requires k <= |hs|
    ensures -1 <= i < k && (i >= 0 ==> FileAt(hs[i], a)) && forall j :: i < j < k ==> !FileAt(hs[j], a)
  {
    if k == 0 then -1 else if FileAt(hs[k - 1], a) then k - 1 else LastFile(hs, a, k - 1)
  }
  function LastSegment(hs: seq<Phdr>, a: nat, k: nat): (i: int)
    requires k <= |hs|
    ensures -1 <= i < k && (i >= 0 ==> InSegment(hs[i], a)) && forall j :: i < j < k ==> !InSegment(hs[j], a)
  {
    if k == 0 then -1 else if InSegment(hs[k - 1], a) then k - 1 else LastSegment(hs, a, k - 1)
  }

  /** Some segment has file bytes at a, and a later one, the last that has a, only zeros. */
  predicate Shadowed(hs: seq<Phdr>, a: nat) { 0 <= LastFile(hs, a, |hs|) < LastSegment(hs, a, |hs|) }

  predicate FileSpan(h: Phdr, a: nat) { h.vaddr <= a < h.vaddr + h.filesz }

  /** The byte of the image that header i has at a. */
  function ByteOf(hs: seq<Phdr>, image: seq<nat>, i: int, a: nat): nat {
    if 0 <= i < |hs| && FileSpan(hs[i], a) && hs[i].offset + (a - hs[i].vaddr) < |image| then image[hs[i].offset + (a - hs[i].vaddr)] else 0
  }

  lemma {:induction false} EagerIs(hs: seq<Phdr>, image: seq<nat>, a: nat, k: nat)
    requires k <= |hs|
    ensures EagerByte(hs, image, a, k) == ByteOf(hs, image, LastSegment(hs, a, k), a)
    decreases k
  {
    if k > 0 { EagerIs(hs, image, a, k - 1); }
  }

  lemma {:induction false} LastFilePrefix(hs: seq<Phdr>, a: nat, k: nat)
    requires k < |hs|
    ensures LastFile(hs[..|hs| - 1], a, k) == LastFile(hs, a, k)
    decreases k
  {
    if k > 0 { LastFilePrefix(hs, a, k - 1); }
  }

  /** A page filled on demand has at a the file byte of the last segment that has one there. */
  lemma {:induction false} LazyIs(hs: seq<Phdr>, image: seq<nat>, page: nat, a: nat)
    requires Sane(hs, |image|) && page % PAGE == 0 && page <= a < page + PAGE
    ensures LazyByte(RegionsOf(hs), image, page, a, |RegionsOf(hs)|) == ByteOf(hs, image, LastFile(hs, a, |hs|), a)
    decreases |hs|
  {
    hide LazyByte, RegionOf;
    if hs != [] {
      var f, h := hs[..|hs| - 1], hs[|hs| - 1];
      SaneFront(hs, |image|);
      LazyIs(f, image, page, a);
      LastFilePrefix(hs, a, |f|);
      if Loads(h) {
        LastRegion(RegionsOf(f), h, image, page, a);
        assert RegionsOf(hs) == RegionsOf(f) + [RegionOf(h)];
      } else {
        assert RegionsOf(f) + [] == RegionsOf(f);
      }
    } else {
      NoneYet([], image, page, a);
    }
  }

  /**
   Byte by byte, a page filled on demand is what loading up front would have put there, if and
   only if the address is not shadowed or the shadowed byte is zero: zeros of a later segment do
   not clear the file bytes of an earlier one.
   */
  lemma LazyIsEager(hs: seq<Phdr>, image: seq<nat>, page: nat, a: nat)
    requires Sane(hs, |image|) && page % PAGE == 0 && page <= a < page + PAGE
    ensures LazyByte(RegionsOf(hs), image, page, a, |RegionsOf(hs)|) == EagerByte(hs, image, a, |hs|) <==>
      !Shadowed(hs, a) || ByteOf(hs, image, LastFile(hs, a, |hs|), a) == 0
  {
    hide LazyByte, EagerByte, RegionsOf;
    LazyIs(hs, image, page, a);
    EagerIs(hs, image, a, |hs|);
    var i, j := LastFile(hs, a, |hs|), LastSegment(hs, a, |hs|);
    assert i >= 0 ==> HeaderError(hs[i], |image|) == 0 && InSegment(hs[i], a);
    assert i <= j;
    if i < j { assert !FileAt(hs[j], a) && !FileSpan(hs[j], a); }
  }

  /** Two segments at one address: the first has the byte 7 there, the second only zeros. Loading up front gives 0, the page 7. */
  lemma ShadowExample()
    ensures var hs := [Phdr(true, 0x1000, 1, 1, 0, false), Phdr(true, 0x1000, 1, 0, 0, false)];
      && Sane(hs, 1) && Shadowed(hs, 0x1000)
      && LazyByte(RegionsOf(hs), [7], 0x1000, 0x1000, |RegionsOf(hs)|) == 7 && EagerByte(hs, [7], 0x1000, 2) == 0
  {
    var hs := [Phdr(true, 0x1000, 1, 1, 0, false), Phdr(true, 0x1000, 1, 0, 0, false)];
    assert LastFile(hs, 0x1000, 2) == LastFile(hs, 0x1000, 1) == 0;
    LazyIs(hs, [7], 0x1000, 0x1000);
  }

  /** Some region, or some segment, has the page; with w, a writable one. */
  ghost predicate SomeRegion(rs: seq<Region>, page: nat, w: bool) { exists i :: 0 <= i < |rs| && OnPage(rs[i], page) && (w ==> rs[i].writable) }
  ghost predicate SomeSegment(hs: seq<Phdr>, page: nat, w: bool) { exists i :: 0 <= i < |hs| && SegmentOnPage(hs[i], page) && (w ==> hs[i].writable) }

  /** Which pages fault in, and which of them may be written: those of some loaded segment, of some writable one. */
  lemma {:induction false} PageOfSegment(hs: seq<Phdr>, size: nat, page: nat, w: bool)
    requires Sane(hs, size) && page % PAGE == 0
    ensures SomeRegion(RegionsOf(hs), page, w) <==> SomeSegment(hs, page, w)
    decreases |hs|
  {
    if hs != [] {
      var f, h := hs[..|hs| - 1], hs[|hs| - 1];
      SaneFront(hs, size);
      PageOfSegment(f, size, page, w);
      var rs, all := RegionsOf(f), RegionsOf(hs);
      assert SomeSegment(hs, page, w) <==> SomeSegment(f, page, w) || (SegmentOnPage(h, page) && (w ==> h.writable)) by {
        assert hs == f + [h];
        SegmentSnoc(f, h, page, w);
      }
      if Loads(h) {
        OverlapPage(h, page);
        RegionSnoc(rs, RegionOf(h), page, w);
      } else {
        assert all == rs;
      }
    }
  }

  lemma SegmentSnoc(f: seq<Phdr>, h: Phdr, page: nat, w: bool)
    ensures SomeSegment(f + [h], page, w) <==> SomeSegment(f, page, w) || (SegmentOnPage(h, page) && (w ==> h.writable))
  {
    if SomeSegment(f, page, w) {
      var i :| 0 <= i < |f| && SegmentOnPage(f[i], page) && (w ==> f[i].writable);
      assert (f + [h])[i] == f[i];
    }
    assert (f + [h])[|f|] == h;
  }

  lemma RegionSnoc(f: seq<Region>, h: Region, page: nat, w: bool)
    ensures SomeRegion(f + [h], page, w) <==> SomeRegion(f, page, w) || (OnPage(h, page) && (w ==> h.writable))
  {
    if SomeRegion(f, page, w) {
      var i :| 0 <= i < |f| && OnPage(f[i], page) && (w ==> f[i].writable);
      assert (f + [h])[i] == f[i];
    }
    assert (f + [h])[|f|] == h;
  }

  /** The segment has an address on the page. */
  predicate SegmentOnPage(h: Phdr, page: nat) { h.load && h.memsz > 0 && h.vaddr < page + 4096 && page < h.vaddr + h.memsz }

  lemma OverlapPage(h: Phdr, page: nat)
    requires Words(h) && Loads(h) && AddrsFit(h) && page % PAGE == 0
    ensures OnPage(RegionOf(h), page) <==> SegmentOnPage(h, page)
  {
  }

  // ----- any order of touches ---------------------------------------------------------------------------

  /** The page a touch brings in: as if everything had been loaded up front. */
  ghost predicate Loaded(hs: seq<Phdr>, image: seq<nat>, page: nat, bytes: seq<nat>) {
    |bytes| == PAGE && forall p :: 0 <= p < PAGE ==> bytes[p] == EagerByte(hs, image, page + p, |hs|)
  }

  /** No segment's zeros lie over file bytes of an earlier one; overlaps of other kinds do no harm. */
  ghost predicate Unshadowed(hs: seq<Phdr>) { forall a :: !Shadowed(hs, a) }

  /** One fault: the page comes in exactly if a segment has it, with the bytes and the permission of loading up front. */
  method Fault(hs: seq<Phdr>, rs: seq<Region>, image: seq<nat>, page: nat) returns (rc: int, bytes: seq<nat>, writable: bool)
    requires Sane(hs, |image|) && rs == RegionsOf(hs) && page % PAGE == 0 && page < U32 && Unshadowed(hs)
    ensures rc == if SomeSegment(hs, page, false) then 1 else 0
    ensures rc == 1 ==> Loaded(hs, image, page, bytes) && (writable <==> SomeSegment(hs, page, true))
  {
    hide EagerByte, LazyByte, Backed, SegmentOnPage, OnPage;
    RegionsBacked(hs, |image|, page);
    PageOfSegment(hs, |image|, page, false);
    PageOfSegment(hs, |image|, page, true);
    var inside;
    rc, inside, bytes, writable := FillPage(rs, image, page);
    assert inside;
    if rc == 1 {
      forall p | 0 <= p < PAGE ensures bytes[p] == EagerByte(hs, image, page + p, |hs|) { LazyIsEager(hs, image, page, page + p); }
    }
  }

  /** Touching pages in any order, with repeats: the pages present are those of segments, with the bytes of loading up front. */
  method Touch(hs: seq<Phdr>, rs: seq<Region>, image: seq<nat>, pages: seq<nat>) returns (mem: map<nat, seq<nat>>, writable: set<nat>)
    requires Sane(hs, |image|) && rs == RegionsOf(hs) && Unshadowed(hs)
    requires forall i :: 0 <= i < |pages| ==> pages[i] % PAGE == 0 && pages[i] < U32
    ensures forall page :: page in mem <==> page in pages && SomeSegment(hs, page, false)
    ensures forall page :: page in mem ==> Loaded(hs, image, page, mem[page])
    ensures forall page :: page in writable <==> page in mem && SomeSegment(hs, page, true)
  {
    hide SomeSegment, Loaded, Sane, Unshadowed;
    mem, writable := map[], {};
    for k := 0 to |pages|
      invariant forall page :: page in mem <==> page in pages[..k] && SomeSegment(hs, page, false)
      invariant forall page :: page in mem ==> Loaded(hs, image, page, mem[page])
      invariant forall page :: page in writable <==> page in mem && SomeSegment(hs, page, true)
    {
      var page := pages[k];
      assert pages[..k + 1] == pages[..k] + [page];
      if page !in mem {
        var rc, bytes, w := Fault(hs, rs, image, page);
        if rc == 1 {
          mem := mem[page := bytes];
          if w { writable := writable + {page}; }
        }
      }
    }
    assert pages[..|pages|] == pages;
  }
}
