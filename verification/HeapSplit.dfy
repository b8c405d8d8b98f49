/** Splitting a memory between OpenMP and the heap (hero_dev_mmap in
    sw/libhero/src/carfield/spatz_cluster.c and sw/libhero/src/occamy/snitch_cluster.c), and the
    address translation of heap blocks (sw/libhero/src/common/hero_api.c).  The o1heap allocator is
    foreign code: the block it returns is an input. */
module HeapSplit {
  import opened Common
  import opened Words

  /** Four pointers on the 64-bit host. */
  const O1HEAP_ALIGNMENT: nat := 32

  predicate PowerOfTwo(a: nat) { a == 1 || (a > 1 && a % 2 == 0 && PowerOfTwo(a / 2)) }

  /** x & ~(a - 1) for a power of two: clears as many low bits as a has. */
  function ClearLow(x: nat, a: nat): nat
    decreases a
  {
    if a <= 1 then x else 2 * ClearLow(x / 2, a / 2)
  }

  /** ALIGN_UP on 64-bit words. */
  function AlignUp(x: nat, a: nat): nat
    requires a >= 1
  {
    ClearLow((x + a - 1) % 0x1_0000_0000_0000_0000, a)
  }

  lemma ModDouble(x: nat, c: nat)
    requires c >= 1
    ensures x % (2 * c) == 2 * (x / 2 % c) + x % 2
  {
    var q, r := x / 2 / c, x / 2 % c;
    MulAssoc(2, c, q);
    Distribute(2, c * q, r);
    DivUnique(x, 2 * c, q, 2 * r + x % 2);
  }

  lemma {:induction false} ClearLowIs(x: nat, a: nat)
    requires PowerOfTwo(a)
    ensures ClearLow(x, a) == x - x % a
    decreases a
  {
    if a > 1 {
      ClearLowIs(x / 2, a / 2);
      ModDouble(x, a / 2);
      assert 2 * (a / 2) == a;
    }
  }

  lemma NextMultiple(x: nat, a: nat, m: nat)
    requires a >= 1
    ensures var y := x + a - 1;
            && (y - y % a) % a == 0 && x <= y - y % a < x + a
            && (m % a == 0 && x <= m ==> y - y % a <= m)
  {
    var y := x + a - 1;
    var q, r := y / a, y % a;
    assert y == a * q + r;
    DivUnique(a * q, a, q, 0);
    if m % a == 0 && x <= m && m < a * q {
      var p := m / a;
      assert m == a * p;
      if p >= q {
        MulMono(a, q, p);
      } else {
        MulMono(a, p + 1, q);
        Distribute(a, p, 1);
      }
    }
  }

  lemma WrappedSum(a: nat, o: nat)
    requires a <= TWO64 && o < TWO64
    ensures (a + o) % TWO64 == if a + o < TWO64 then a + o else a + o - TWO64
  {
  }

  lemma AlignUpInRange(x: nat, a: nat, m: nat)
    requires PowerOfTwo(a) && x + a <= TWO64
    ensures AlignUp(x, a) % a == 0 && x <= AlignUp(x, a) < x + a
    ensures m % a == 0 && x <= m ==> AlignUp(x, a) <= m
  {
    ModRange(x + a - 1, TWO64);
    ClearLowIs(x + a - 1, a);
    NextMultiple(x, a, m);
  }

  lemma AlignUpWrapped(x: nat, a: nat)
    requires PowerOfTwo(a) && a <= TWO64 && x < TWO64 < x + a
    ensures AlignUp(x, a) == 0
  {
    var y := x + a - 1 - TWO64;
    WrappedSum(x, a - 1);
    ClearLowIs(y, a);
    ModRange(y, a);
  }

  /** ALIGN_UP is the least multiple of the alignment that is not below its argument, exactly when
      that does not overflow 64 bits; otherwise it is zero. */
  lemma AlignUpIsLeastMultiple(x: nat, a: nat, m: nat)
    requires PowerOfTwo(a) && a <= TWO64 && x < TWO64
    ensures x <= AlignUp(x, a) <==> x + a <= TWO64
    ensures x + a <= TWO64 ==>
              && AlignUp(x, a) % a == 0 && x <= AlignUp(x, a) < x + a
              && (m % a == 0 && x <= m ==> AlignUp(x, a) <= m)
    ensures x + a > TWO64 ==> AlignUp(x, a) == 0
  {
    if x + a <= TWO64 {
      AlignUpInRange(x, a, m);
    } else {
      AlignUpWrapped(x, a);
    }
  }

  // ---- the split

  function HeapOffset(size: nat, a: nat): nat
    requires a >= 1
  {
    AlignUp(size / 2, a)
  }

  /** The sizes whose upper half, aligned, still fits: 0, 1 or 2a-1 modulo 2a. */
  predicate GoodSize(size: nat, a: nat)
    requires a >= 1
  {
    var m := size % (2 * a);
    m == 0 || m == 1 || m == 2 * a - 1
  }

  /** The heap half ends inside the memory exactly for those sizes, that is when half of the size is
      aligned, or one short of aligned with a byte to spare. */
  lemma HeapFitsExactlyWhen(size: nat, a: nat)
    requires PowerOfTwo(a) && size / 2 + a <= TWO64
    ensures HeapOffset(size, a) + size / 2 <= size <==> GoodSize(size, a)
  {
    AlignUpInRange(size / 2, a, 0);
    FitsAt(size, HeapOffset(size, a), a);
  }

  lemma FitsAt(size: nat, o: nat, a: nat)
    requires a >= 1 && o % a == 0 && size / 2 <= o < size / 2 + a
    ensures o + size / 2 <= size <==> GoodSize(size, a)
  {
    var h, b := size / 2, size % 2;
    var p, r := h / a, h % a;
    assert h == a * p + r;
    MulAssoc(2, a, p);
    DivUnique(size, 2 * a, p, 2 * r + b);
    NextIs(h, o, a, p, r);
  }

  /** The least multiple from a*p + r on. */
  lemma NextIs(h: nat, o: nat, a: nat, p: nat, r: nat)
    requires a >= 1 && o % a == 0 && h <= o < h + a && h == a * p + r && r < a
    ensures o == if r == 0 then h else h + a - r
  {
    var q := o / a;
    assert o == a * q;
    Distribute(a, p, 1);
    Distribute(a, p, 2);
    if q <= p {
      MulMono(a, q, p);
    } else if q >= p + 2 {
      MulMono(a, p + 2, q);
    }
  }

  /** A part of the memory, as the host and as the device address it. */
  datatype Part = Part(virt: nat, phys: nat, size: nat)

  /** Host address v and physical address p name the same n bytes of the memory. */
  predicate SameBytes(mem: Part, v: nat, p: nat, n: nat) {
    mem.virt <= v && v + n <= mem.virt + mem.size && v - mem.virt == p - mem.phys
  }

  predicate InHeap(heap: Part, v: nat, n: nat) { heap.virt <= v && v + n <= heap.virt + heap.size }

  /** What hero_dev_mmap gives to the heap. */
  function HeapPart(mem: Part): Part {
    var offset := HeapOffset(mem.size, O1HEAP_ALIGNMENT);
    Part((mem.virt + offset) % TWO64, (mem.phys + offset) % TWO64, mem.size / 2)
  }

  /** What hero_dev_mmap gives to OpenMP: the lower half, with a physical address cut to 32 bits. */
  function OpenMpPart(mem: Part): Part {
    Part(mem.virt, mem.phys % TWO32, mem.size / 2)
  }

  /** OpenMP's descriptor names the lower half of the memory for both sides exactly when the memory
      starts below 2^32. */
  lemma OpenMpHalfIsTrueExactlyWhen(mem: Part)
    ensures var p := OpenMpPart(mem);
            && p.virt == mem.virt && p.size == mem.size / 2
            && (SameBytes(mem, p.virt, p.phys, p.size) <==> mem.phys < 0x1_0000_0000)
  {
    ModRange(mem.phys, TWO32);
  }

  predicate RealMemory(mem: Part) {
    && mem.virt < TWO64 && mem.phys < TWO64 && mem.size < TWO64
    && mem.virt + mem.size <= TWO64 && mem.phys + mem.size <= TWO64
  }

  /** The heap lies inside the memory, at the same place for both sides, and behind the lower half. */
  predicate Sound(mem: Part, heap: Part) {
    SameBytes(mem, heap.virt, heap.phys, heap.size) && heap.virt >= mem.virt + mem.size / 2
  }

  lemma GoodSizes(size: nat)
    ensures GoodSize(size, 32) <==> size % 64 in {0, 1, 63}
  {
  }

  /** The split of a memory is sound exactly when its size leaves 0, 1 or 63 modulo 64: in particular
      for every multiple of 64. */
  lemma SplitSoundExactlyWhen(mem: Part)
    requires RealMemory(mem)
    ensures Sound(mem, HeapPart(mem)) <==> mem.size % 64 in {0, 1, 63}
  {
    var o := HeapOffset(mem.size, O1HEAP_ALIGNMENT);
    assert PowerOfTwo(O1HEAP_ALIGNMENT);
    AlignUpInRange(mem.size / 2, O1HEAP_ALIGNMENT, 0);
    HeapFitsExactlyWhen(mem.size, O1HEAP_ALIGNMENT);
    GoodSizes(mem.size);
    SplitAt(mem, o);
  }

  lemma SplitAt(mem: Part, o: nat)
    requires RealMemory(mem) && mem.size / 2 <= o < mem.size / 2 + 32 && o % 32 == 0
    ensures Sound(mem, Part((mem.virt + o) % TWO64, (mem.phys + o) % TWO64, mem.size / 2))
       <==> o + mem.size / 2 <= mem.size
  {
    if mem.size < 2 {
      assert o == 0;
    }
    WrappedSum(mem.virt, o);
    WrappedSum(mem.phys, o);
  }

  /** Split evenly: the heap starts where OpenMP's half ends and ends where the memory ends. */
  predicate Halved(mem: Part, openMp: Part, heap: Part) {
    && openMp.virt == mem.virt && openMp.virt + openMp.size == heap.virt
    && heap.virt + heap.size == mem.virt + mem.size && heap.phys + heap.size == mem.phys + mem.size
    && openMp.size == heap.size
  }

  lemma EvenlySplit(size: nat, o: nat)
    requires size / 2 <= o && o % 32 == 0 && (size / 2 % 32 == 0 ==> o <= size / 2)
    ensures o == size / 2 && o + o == size <==> size % 64 == 0
  {
  }

  lemma HalvedAt(mem: Part, openMp: Part, heap: Part, o: nat)
    requires RealMemory(mem) && openMp == OpenMpPart(mem) && o <= mem.size
    requires heap == Part((mem.virt + o) % TWO64, (mem.phys + o) % TWO64, mem.size / 2)
    ensures Halved(mem, openMp, heap) <==> o == mem.size / 2 && o + o == mem.size
  {
    WrappedSum(mem.virt, o);
    WrappedSum(mem.phys, o);
  }

  /** An aligned half that ends behind the memory. */
  lemma NotHalved(mem: Part, openMp: Part, heap: Part, o: nat)
    requires RealMemory(mem) && openMp == OpenMpPart(mem) && mem.size / 2 <= o < mem.size / 2 + 32 && o > mem.size
    requires heap == Part((mem.virt + o) % TWO64, (mem.phys + o) % TWO64, mem.size / 2)
    ensures !Halved(mem, openMp, heap)
  {
    WrappedSum(mem.virt, o);
  }

  /** The two halves meet and together make up the memory exactly for multiples of 64. */
  lemma HalvedExactlyWhen(mem: Part)
    requires RealMemory(mem)
    ensures Halved(mem, OpenMpPart(mem), HeapPart(mem)) <==> mem.size % 64 == 0
  {
    var h, o := mem.size / 2, HeapOffset(mem.size, O1HEAP_ALIGNMENT);
    assert PowerOfTwo(O1HEAP_ALIGNMENT);
    AlignUpInRange(h, O1HEAP_ALIGNMENT, h);
    EvenlySplit(mem.size, o);
    if o <= mem.size {
      HalvedAt(mem, OpenMpPart(mem), HeapPart(mem), o);
    } else {
      NotHalved(mem, OpenMpPart(mem), HeapPart(mem), o);
    }
  }

  /** A live heap block: its two addresses and its length. */
  datatype Block = Block(virt: nat, phys: nat, size: nat)

  class Pool {
    const mem: Part
    var openMp: Part
    var heap: Part
    var live: seq<Block>

    /** hero_dev_mmap: the lower half to OpenMP, the aligned upper half to the heap. */
    constructor (mem: Part)
      ensures this.mem == mem && live == []
      ensures openMp.virt == mem.virt && openMp.phys == mem.phys % 0x1_0000_0000
      ensures openMp.size == heap.size == mem.size / 2 && heap == HeapPart(mem)
      ensures RealMemory(mem) ==>
                (Valid() <==> mem.size % 64 in {0, 1, 63}) && (Halved(mem, openMp, heap) <==> mem.size % 64 == 0)
    {
      this.mem := mem;
      openMp := Part(mem.virt, mem.phys % TWO32, mem.size / 2);
      heap := Part((mem.virt + AlignUp(mem.size / 2, O1HEAP_ALIGNMENT)) % TWO64,
                   (mem.phys + AlignUp(mem.size / 2, O1HEAP_ALIGNMENT)) % TWO64,
                   mem.size / 2);
      live := [];
      if RealMemory(mem) {
        SplitSoundExactlyWhen(mem);
        HalvedExactlyWhen(mem);
      }
    }

    /** The split is sound, and every live block lies in the heap and names the same bytes for both
        sides. */
    ghost predicate Valid()
      reads this
    {
      && RealMemory(mem) && Sound(mem, heap)
      && openMp == OpenMpPart(mem)
      && forall b :: b in live ==> InHeap(heap, b.virt, b.size) && SameBytes(mem, b.virt, b.phys, b.size)
    }

    /** hero_dev_l2_malloc and hero_dev_l3_malloc: `result` is what the allocator returned, null or a
        block of the heap; the physical address is computed modulo 2^64 even for null. */
    method Malloc(size: nat, result: nat) returns (v: nat, p: nat)
      requires Valid() && (result != 0 ==> size > 0 && InHeap(heap, result, size))
      modifies this`live
      ensures Valid() && v == result
      ensures v == 0 ==> live == old(live)
      ensures v != 0 ==>
                && live == old(live) + [Block(v, p, size)] && SameBytes(mem, v, p, size)
                && p - v == heap.phys - heap.virt
                && Apart(openMp.virt, openMp.size, v, size) && Apart(mem.phys, openMp.size, p, size)
    {
      p := (result + (TWO64 - heap.virt) + heap.phys) % TWO64;
      v := result;
      if v != 0 {
        WrappedDifference(v, heap.virt, heap.phys);
        live := live + [Block(v, p, size)];
      }
    }
  }

  lemma WrappedDifference(r: nat, v: nat, p: nat)
    requires v <= r && r - v + p < TWO64 && v <= TWO64
    ensures (r + (TWO64 - v) + p) % TWO64 == r - v + p
  {
  }
}
