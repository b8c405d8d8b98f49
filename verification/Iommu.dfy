/** Mapping user buffers for the device (sw/hero-driver/common/hero_iommu.c and the IOMMU_MAP ioctl
    of sw/hero-driver/carfield/carfield_fops.c).

    Pinning user pages and the IOMMU itself are foreign code.  The frames behind the user's pages and
    the count that pinning returned are inputs; the IOMMU refuses a page that is mapped or not
    aligned. */
module Iommu {
  import opened Common

  const WINDOW: nat := 0x8000_0000
  const SPAN: nat := 0x4000_0000

  /** The domain's page table, from device page numbers to physical frame numbers. */
  type Domain = map<nat, nat>

  datatype Region = Region(userAddr: nat, length: nat, iova: nat)

  /** iommu_map of one page. */
  function MapPage(d: Domain, iova: nat, phys: nat): Domain {
    if iova % PAGE != 0 || iova / PAGE in d then d else d[iova / PAGE := phys / PAGE]
  }

  /** The first n pages of a region. */
  function MapPages(d: Domain, iova: nat, pages: seq<nat>, n: nat): Domain
    requires n <= |pages|
  {
    if n == 0 then d
    else MapPage(MapPages(d, iova, pages, n - 1), iova + PAGE * (n - 1), PAGE * pages[n - 1])
  }

  /** The page array after pinning: `ret` entries are filled with the user's frames; the others are
      still null, and `nullFrame` is the frame computed for a null page. */
  function PageArray(frames: seq<nat>, ret: int, nullFrame: nat): (pages: seq<nat>)
    ensures |pages| == |frames|
    ensures forall i :: 0 <= i < |frames| ==> pages[i] == if i < ret then frames[i] else nullFrame
  {
    seq(|frames|, i requires 0 <= i < |frames| => if i < ret then frames[i] else nullFrame)
  }

  /** The count is compared as an unsigned number, so a negative error code passes the test. */
  predicate Rejected(n: nat, ret: int) {
    n == 0 || 0 <= ret < n
  }

  // ---- one user request

  /** A request: address and length, the frames behind its whole pages, and what pinning returned. */
  datatype Request = Request(va: nat, length: nat, frames: seq<nat>, ret: int)

  /** One frame per whole page of the length; pinning returns no more than it was asked for. */
  predicate WellFormed(c: Request) { |c.frames| == c.length / PAGE && c.ret <= |c.frames| }

  predicate Accepted(c: Request) { !Rejected(|c.frames|, c.ret) }

  function Iova(va: nat): nat { WINDOW + va % SPAN }

  function Apply(d: Domain, c: Request, nullFrame: nat): Domain {
    if Accepted(c) then MapPages(d, Iova(c.va), PageArray(c.frames, c.ret, nullFrame), |c.frames|) else d
  }

  function Run(d: Domain, cs: seq<Request>, nullFrame: nat): Domain
    decreases |cs|
  {
    if cs == [] then d else Run(Apply(d, cs[0], nullFrame), cs[1..], nullFrame)
  }

  // ---- the driver

  class CardDevice {
    const nullFrame: nat
    var domain: Domain
    var regions: seq<Region>

    constructor (nullFrame: nat)
      ensures this.nullFrame == nullFrame && domain == map[] && regions == []
    {
      this.nullFrame := nullFrame;
      domain, regions := map[], [];
    }

    /** hero_iommu_region_add.  The errors of single pages are ignored, and the region list records
        the user address in place of the device address. */
    method RegionAdd(userAddr: nat, iova: nat, length: nat, frames: seq<nat>, ret: int) returns (r: int)
      requires |frames| == length / PAGE
      modifies this
      ensures Rejected(|frames|, ret) ==> r == -1 && domain == old(domain) && regions == old(regions)
      ensures !Rejected(|frames|, ret) ==>
                && r == length / PAGE && regions == old(regions) + [Region(userAddr, length, userAddr)]
                && domain == MapPages(old(domain), iova, PageArray(frames, ret, nullFrame), |frames|)
    {
      var nrPages := length / PAGE;
      var pages := PageArray(frames, ret, nullFrame);
      if (ret >= 0 && ret < nrPages) || nrPages == 0 {
        return -1;
      }
      var i := 0;
      while i < nrPages
        invariant 0 <= i <= nrPages
        invariant domain == MapPages(old(domain), iova, pages, i) && regions == old(regions)
      {
        domain := MapPage(domain, iova + PAGE * i, PAGE * pages[i]);
        i := i + 1;
      }
      regions := regions + [Region(userAddr, length, userAddr)];
      return nrPages;
    }

    /** The IOMMU_MAP case of card_ioctl: picks the device address, then adds the region. */
    method MapRequest(c: Request) returns (err: int, resultPhys: nat)
      requires WellFormed(c)
      modifies this
      ensures domain == Apply(old(domain), c, nullFrame)
      ensures resultPhys == Iova(c.va) == 0x8000_0000 + c.va % 0x4000_0000
      ensures err == (if Accepted(c) then 0 else -1)
      ensures regions == old(regions) + (if err == 0 then [Region(c.va, c.length, c.va)] else [])
    {
      resultPhys := 0x8000_0000 + c.va % 0x4000_0000;
      err := RegionAdd(c.va, resultPhys, c.length, c.frames, c.ret);
      if err < 0 {
        return;
      }
      err := 0;
    }
  }

  // ---- what one request maps

  lemma {:induction false} UnalignedMapsNothing(d: Domain, iova: nat, pages: seq<nat>, n: nat)
    requires n <= |pages| && iova % PAGE != 0
    ensures MapPages(d, iova, pages, n) == d
  {
    if n > 0 {
      UnalignedMapsNothing(d, iova, pages, n - 1);
    }
  }

  /** Device page v + i gets frame i unless it is mapped already; no other page changes. */
  lemma {:induction false} MapPagesAt(d: Domain, v: nat, pages: seq<nat>, n: nat, p: nat)
    requires n <= |pages|
    ensures var d' := MapPages(d, PAGE * v, pages, n);
            if p in d then p in d' && d'[p] == d[p]
            else if v <= p < v + n then p in d' && d'[p] == pages[p - v]
            else p !in d'
  {
    if n > 0 {
      MapPagesAt(d, v, pages, n - 1, p);
      MapPagesAt(d, v, pages, n - 1, v + n - 1);
      assert PAGE * v + PAGE * (n - 1) == PAGE * (v + n - 1);
    }
  }

  function Translate(d: Domain, a: nat): Option<nat> {
    if a / PAGE in d then Some(PAGE * d[a / PAGE] + a % PAGE) else None
  }

  /** Page i of the new region can be used as asked: it is free, or mapped to the same frame. */
  predicate PageFits(d: Domain, v: nat, pages: seq<nat>, i: nat)
    requires i < |pages|
  {
    v + i in d ==> d[v + i] == pages[i]
  }

  /** After adding an aligned region the device sees at offset `off`, for every offset of its whole
      pages, the byte the user sees there, exactly when every page was free or mapped to the same
      frame before. */
  lemma TranslatesExactlyWhen(d: Domain, v: nat, pages: seq<nat>)
    ensures (forall off: nat :: off < PAGE * |pages| ==>
               Translate(MapPages(d, PAGE * v, pages, |pages|), PAGE * v + off)
               == Some(PAGE * pages[off / PAGE] + off % PAGE))
       <==> (forall i: nat :: i < |pages| ==> PageFits(d, v, pages, i))
  {
    var d' := MapPages(d, PAGE * v, pages, |pages|);
    if forall i: nat :: i < |pages| ==> PageFits(d, v, pages, i) {
      forall off: nat | off < PAGE * |pages|
        ensures Translate(d', PAGE * v + off) == Some(PAGE * pages[off / PAGE] + off % PAGE)
      {
        PageOf(v, off);
        MapPagesAt(d, v, pages, |pages|, v + off / PAGE);
        assert PageFits(d, v, pages, off / PAGE);
      }
    } else {
      var i: nat :| i < |pages| && !PageFits(d, v, pages, i);
      MapPagesAt(d, v, pages, |pages|, v + i);
      PageOf(v, PAGE * i);
      assert Translate(d', PAGE * v + PAGE * i) == Some(PAGE * d[v + i]);
      assert PAGE * i / PAGE == i;
    }
  }

  lemma PageOf(v: nat, off: nat)
    ensures (PAGE * v + off) / PAGE == v + off / PAGE && (PAGE * v + off) % PAGE == off % PAGE
  {
  }

  // ---- what pinning has to do with it

  /** A request is accepted exactly when it has a page and either all were pinned or pinning failed
      with an error code; and the pages it maps are the user's exactly when the count is not negative. */
  lemma AcceptedPagesExactlyWhen(c: Request, nullFrame: nat)
    requires WellFormed(c) && nullFrame !in c.frames
    ensures Accepted(c) <==> |c.frames| > 0 && (c.ret < 0 || c.ret == |c.frames|)
    ensures Accepted(c) ==> (PageArray(c.frames, c.ret, nullFrame) == c.frames <==> c.ret >= 0)
  {
    var pages := PageArray(c.frames, c.ret, nullFrame);
    if Accepted(c) && c.ret < 0 {
      assert pages[0] == nullFrame && c.frames[0] in c.frames;
    }
  }

  /** Offset off of the region is translated to the byte that the user sees there. */
  predicate ServesUser(d: Domain, c: Request, off: nat)
    requires off < PAGE * |c.frames|
  {
    Translate(d, Iova(c.va) + off) == Some(PAGE * c.frames[off / PAGE] + off % PAGE)
  }

  /** After an accepted, aligned request for free pages the device sees the user's bytes at every
      offset of the whole pages exactly when the pin count was not negative. */
  lemma AcceptedServesUserExactlyWhen(d: Domain, c: Request, nullFrame: nat)
    requires WellFormed(c) && Accepted(c) && Iova(c.va) % PAGE == 0 && nullFrame !in c.frames
    requires forall p :: Iova(c.va) / PAGE <= p < Iova(c.va) / PAGE + |c.frames| ==> p !in d
    ensures (forall off: nat :: off < PAGE * |c.frames| ==> ServesUser(Apply(d, c, nullFrame), c, off))
       <==> c.ret >= 0
  {
    var v, pages := Iova(c.va) / PAGE, PageArray(c.frames, c.ret, nullFrame);
    assert Iova(c.va) == PAGE * v;
    AcceptedPagesExactlyWhen(c, nullFrame);
    if c.ret >= 0 {
      TranslatesExactlyWhen(d, v, pages);
      assert forall i: nat :: i < |pages| ==> PageFits(d, v, pages, i);
      forall off: nat | off < PAGE * |pages|
        ensures ServesUser(Apply(d, c, nullFrame), c, off)
      {
        assert Translate(MapPages(d, PAGE * v, pages, |pages|), PAGE * v + off)
            == Some(PAGE * pages[off / PAGE] + off % PAGE);
      }
    } else {
      MapPagesAt(d, v, pages, |pages|, v);
      PageOf(v, 0);
      assert c.frames[0] in c.frames;
      assert !ServesUser(Apply(d, c, nullFrame), c, 0);
    }
  }

  // ---- sequences of requests

  /** The request maps device page p, to entry p - page of its page array. */
  predicate Covers(c: Request, p: nat) {
    && Accepted(c) && Iova(c.va) % PAGE == 0
    && Iova(c.va) / PAGE <= p < Iova(c.va) / PAGE + |c.frames|
  }

  function FrameFor(c: Request, p: nat, nullFrame: nat): nat
    requires Covers(c, p)
  {
    PageArray(c.frames, c.ret, nullFrame)[p - Iova(c.va) / PAGE]
  }

  /** The frame that the first request covering page p mapped. */
  function FirstFrame(cs: seq<Request>, p: nat, nullFrame: nat): Option<nat> {
    if cs == [] then None
    else if Covers(cs[0], p) then Some(FrameFor(cs[0], p, nullFrame))
    else FirstFrame(cs[1..], p, nullFrame)
  }

  lemma ApplyAt(d: Domain, c: Request, p: nat, nullFrame: nat)
    ensures var d' := Apply(d, c, nullFrame);
            if p in d then p in d' && d'[p] == d[p]
            else if Covers(c, p) then p in d' && d'[p] == FrameFor(c, p, nullFrame)
            else p !in d'
  {
    var iova, pages := Iova(c.va), PageArray(c.frames, c.ret, nullFrame);
    if iova % PAGE != 0 {
      UnalignedMapsNothing(d, iova, pages, |pages|);
    } else {
      assert iova == PAGE * (iova / PAGE);
      MapPagesAt(d, iova / PAGE, pages, |pages|, p);
    }
  }

  /** Over any sequence of requests the domain is the table in which the first mapping of a page
      stays: what was there never changes, and a new page has the frame of the first accepted
      request that covered it. */
  lemma {:induction false} FirstMappingStays(d: Domain, cs: seq<Request>, p: nat, nullFrame: nat)
    ensures var d' := Run(d, cs, nullFrame);
            if p in d then p in d' && d'[p] == d[p]
            else && (p in d' <==> FirstFrame(cs, p, nullFrame).Some?)
                 && (p in d' ==> Some(d'[p]) == FirstFrame(cs, p, nullFrame))
    decreases |cs|
  {
    if cs != [] {
      ApplyAt(d, cs[0], p, nullFrame);
      FirstMappingStays(Apply(d, cs[0], nullFrame), cs[1..], p, nullFrame);
    }
  }

  /** No translation that exists is ever changed by later requests. */
  lemma TranslationsStay(d: Domain, cs: seq<Request>, a: nat, nullFrame: nat)
    requires Translate(d, a).Some?
    ensures Translate(Run(d, cs, nullFrame), a) == Translate(d, a)
  {
    FirstMappingStays(d, cs, a / PAGE, nullFrame);
  }

  // ---- device addresses

  /** A region lies in the device window exactly when it does not cross a multiple of 2^30. */
  lemma InWindowExactlyWhen(va: nat, length: nat)
    ensures Iova(va) >= 0x8000_0000
    ensures Iova(va) + length <= 0xC000_0000 <==> va % 0x4000_0000 + length <= 0x4000_0000
  {
  }

  /** The device address is the one address of the device window that is congruent to the user's
      address modulo 2^30. */
  lemma DeviceAddressExactlyWhen(va: nat, a: nat)
    ensures a == Iova(va) <==> 0x8000_0000 <= a < 0xC000_0000 && a % 0x4000_0000 == va % 0x4000_0000
  {
  }

  predicate Meet(a: nat, i: nat, b: nat, j: nat) { (a + i) % 0x4000_0000 == (b + j) % 0x4000_0000 }

  /** No two offsets below the lengths meet modulo 2^30. */
  ghost predicate DisjointModulo(a: nat, la: nat, b: nat, lb: nat) {
    forall i: nat, j: nat :: i < la && j < lb ==> !Meet(a, i, b, j)
  }

  lemma Residue(a: nat, i: nat)
    requires a % SPAN + i < SPAN
    ensures (a + i) % SPAN == a % SPAN + i
  {
    var q, r := a / SPAN, a % SPAN;
    assert a == SPAN * q + r;
  }

  /** Regions that do not cross a 2^30 boundary get disjoint device addresses exactly when they are
      disjoint modulo 2^30. */
  lemma DisjointExactlyWhen(a: nat, la: nat, b: nat, lb: nat)
    requires 0 < la && 0 < lb && a % SPAN + la <= SPAN && b % SPAN + lb <= SPAN
    ensures Apart(Iova(a), la, Iova(b), lb) <==> DisjointModulo(a, la, b, lb)
  {
    var x, y := a % SPAN, b % SPAN;
    if Apart(Iova(a), la, Iova(b), lb) {
      forall i: nat, j: nat | i < la && j < lb
        ensures !Meet(a, i, b, j)
      {
        Residue(a, i);
        Residue(b, j);
      }
    } else {
      var i: nat, j: nat := if x < y then y - x else 0, if x < y then 0 else x - y;
      Residue(a, i);
      Residue(b, j);
      assert Meet(a, i, b, j);
    }
  }

  /** A request that can be served on its own: page aligned, with all its pages pinned, within one
      2^30 block. */
  predicate Proper(c: Request) {
    && WellFormed(c) && |c.frames| > 0 && c.ret == |c.frames|
    && c.va % PAGE == 0 && c.va % SPAN + c.length <= SPAN
  }

  lemma ProperPage(c: Request, off: nat, nullFrame: nat)
    requires Proper(c) && off < PAGE * |c.frames|
    ensures Iova(c.va) % PAGE == 0
    ensures (Iova(c.va) + off) / PAGE == Iova(c.va) / PAGE + off / PAGE
    ensures (Iova(c.va) + off) % PAGE == off % PAGE
    ensures off / PAGE < |c.frames| && off < c.length
    ensures var p := Iova(c.va) / PAGE + off / PAGE;
            Covers(c, p) && FrameFor(c, p, nullFrame) == c.frames[off / PAGE]
  {
    var q, k := c.va / PAGE, c.va / SPAN;
    assert c.va == PAGE * q && c.va == SPAN * k + c.va % SPAN;
    assert c.va % SPAN == PAGE * (q - (SPAN / PAGE) * k);
    var v := WINDOW / PAGE + q - (SPAN / PAGE) * k;
    assert Iova(c.va) == PAGE * v;
    PageOf(v, off);
  }

  /** Two proper requests that are disjoint modulo 2^30 cover no page in common. */
  lemma NoCommonPage(a: Request, b: Request, p: nat)
    requires Proper(a) && Proper(b) && DisjointModulo(a.va, a.length, b.va, b.length)
    ensures !(Covers(a, p) && Covers(b, p))
  {
    assert a.length >= PAGE * |a.frames| && b.length >= PAGE * |b.frames|;
    DisjointExactlyWhen(a.va, a.length, b.va, b.length);
  }

  lemma {:induction false} FirstIs(cs: seq<Request>, i: nat, p: nat, nullFrame: nat)
    requires i < |cs| && Covers(cs[i], p) && forall j :: 0 <= j < i ==> !Covers(cs[j], p)
    ensures FirstFrame(cs, p, nullFrame) == Some(FrameFor(cs[i], p, nullFrame))
  {
    if i > 0 {
      FirstIs(cs[1..], i - 1, p, nullFrame);
    }
  }

  /** Whatever proper requests were served from an empty domain, pairwise disjoint modulo 2^30: at
      the end every one of them translates each offset of its whole pages to the byte the user sees. */
  lemma EveryRegionTranslates(cs: seq<Request>, i: nat, off: nat, nullFrame: nat)
    requires forall j :: 0 <= j < |cs| ==> Proper(cs[j])
    requires forall j, k :: 0 <= j < k < |cs| ==> DisjointModulo(cs[j].va, cs[j].length, cs[k].va, cs[k].length)
    requires i < |cs| && off < PAGE * |cs[i].frames|
    ensures ServesUser(Run(map[], cs, nullFrame), cs[i], off)
  {
    var c := cs[i];
    var p := Iova(c.va) / PAGE + off / PAGE;
    ProperPage(c, off, nullFrame);
    forall j | 0 <= j < i
      ensures !Covers(cs[j], p)
    {
      NoCommonPage(cs[j], c, p);
    }
    FirstIs(cs, i, p, nullFrame);
    FirstMappingStays(map[], cs, p, nullFrame);
  }

  /** Only whole pages are mapped: the tail of a length that is not a multiple of the page size is
      not covered by the request. */
  lemma TailIsNotCovered(c: Request, off: nat)
    requires WellFormed(c) && Iova(c.va) % PAGE == 0 && PAGE * |c.frames| <= off < c.length
    ensures c.length % PAGE != 0 && !Covers(c, (Iova(c.va) + off) / PAGE)
  {
    PageOf(Iova(c.va) / PAGE, off);
  }
}
