/** The 64-bit addressing runtime (apps/omp/common/hero_64.h): loads and stores of 8 to 64 bits
    at 64-bit host addresses, carried out by a 32-bit core.

    The core keeps only the lower half of the address, because the CSR that holds the upper half
    is written with zero, and it splits a 64-bit access into two 32-bit ones, lower half first. */
module Hero64 {
  import opened Words

  function Upper32(dw: nat): nat { dw / 0x1_0000_0000 }

  function Lower32(dw: nat): nat { dw % 0x1_0000_0000 }

  predicate Width(bytes: nat) { bytes == 1 || bytes == 2 || bytes == 4 || bytes == 8 }

  // ---- what the functions do to memory

  /** hero_load_uint8/16/32: one native access at the lower address half. */
  function NarrowLoad(m: Memory, addr: nat, bytes: nat): nat {
    Load(m, Lower32(addr), bytes, Space32)
  }

  function NarrowStore(m: Memory, addr: nat, bytes: nat, v: nat): Memory {
    Store(m, Lower32(addr), bytes, v, Space32)
  }

  function RuntimeLoad(m: Memory, addr: nat, bytes: nat): nat
    requires Width(bytes)
  {
    if bytes == 8 then
      NarrowLoad(m, addr, 4) + 0x1_0000_0000 * NarrowLoad(m, Wrap(addr + 4, Space64), 4)
    else
      NarrowLoad(m, addr, bytes)
  }

  function RuntimeStore(m: Memory, addr: nat, bytes: nat, v: nat): Memory
    requires Width(bytes)
  {
    if bytes == 8 then
      NarrowStore(NarrowStore(m, addr, 4, Lower32(v)), Wrap(addr + 4, Space64), 4, Lower32(Upper32(v)))
    else
      NarrowStore(m, addr, bytes, v)
  }

  /** The memory as the core sees it, with the functions as they are written. */
  class Bus {
    var mem: Memory

    constructor (m: Memory)
      ensures mem == m
    {
      mem := m;
    }

    /** hero_load_uint<bits>_noblock: the value goes to device address `val`. */
    method LoadNoblock(bytes: nat, addr: nat, val: nat) returns (status: bv32)
      modifies this
      ensures status == 0
      ensures mem == Store(old(mem), val, bytes, NarrowLoad(old(mem), addr, bytes), Space32)
    {
      var lower := Lower32(addr);
      var reg := Load(mem, lower, bytes, Space32);
      mem := Store(mem, val, bytes, reg, Space32);
      status := 0;
    }

    method StoreNoblock(bytes: nat, addr: nat, v: nat) returns (status: bv32)
      modifies this
      ensures status == 0
      ensures mem == NarrowStore(old(mem), addr, bytes, v)
    {
      var lower := Lower32(addr);
      mem := Store(mem, lower, bytes, v, Space32);
      status := 0;
    }

    /** Blocking load of at most 32 bits. */
    method LoadWord(bytes: nat, addr: nat) returns (v: nat)
      ensures v == NarrowLoad(mem, addr, bytes)
    {
      v := Load(mem, Lower32(addr), bytes, Space32);
    }

    method LoadUint64(addr: nat) returns (v: nat)
      ensures v == RuntimeLoad(mem, addr, 8)
    {
      var lower := LoadWord(4, addr);
      var upper := LoadWord(4, Wrap(addr + 4, Space64));
      v := upper * 0x1_0000_0000 + lower;
    }

    method StoreUint64(addr: nat, v: nat)
      modifies this
      ensures mem == RuntimeStore(old(mem), addr, 8, v)
    {
      var s := StoreNoblock(4, addr, Lower32(v));
      s := StoreNoblock(4, Wrap(addr + 4, Space64), Lower32(Upper32(v)));
    }

    /** Both halves are always accessed; the status is the bitwise OR of the two. */
    method LoadUint64Noblock(addr: nat, val: nat) returns (status: bv32)
      modifies this
      ensures status == 0
      ensures mem == NoblockLoad64(old(mem), addr, val)
    {
      var lower := LoadNoblock(4, addr, val);
      var upper := LoadNoblock(4, Wrap(addr + 4, Space64), val + 4);
      status := lower | upper;
    }

    method StoreUint64Noblock(addr: nat, v: nat) returns (status: bv32)
      modifies this
      ensures status == 0
      ensures mem == RuntimeStore(old(mem), addr, 8, v)
    {
      var lower := StoreNoblock(4, addr, Lower32(v));
      var upper := StoreNoblock(4, Wrap(addr + 4, Space64), Lower32(Upper32(v)));
      status := lower | upper;
    }
  }

  /** Memory after hero_load_uint64_noblock: the lower half is in `val` before the upper half is read. */
  function NoblockLoad64(m: Memory, addr: nat, val: nat): Memory {
    var m1 := Store(m, val, 4, NarrowLoad(m, addr, 4), Space32);
    Store(m1, val + 4, 4, NarrowLoad(m1, Wrap(addr + 4, Space64), 4), Space32)
  }

  // ---- two 32-bit accesses are one 64-bit access

  lemma HalvesOfAddress(addr: nat)
    requires addr + 8 <= TWO32
    ensures Lower32(addr) == addr && Lower32(Wrap(addr + 4, Space64)) == addr + 4
  {
  }

  lemma LoadIsOneAccess(m: Memory, addr: nat, bytes: nat)
    requires bytes in {1, 2, 4, 8} && addr + bytes <= TWO32
    ensures RuntimeLoad(m, addr, bytes) == Load(m, addr, bytes, Space64)
  {
    LoadNoWrap(m, addr, bytes);
    if bytes == 8 {
      HalvesOfAddress(addr);
      LoadHalves(m, addr, Space32);
    } else {
      assert Lower32(addr) == addr;
    }
  }

  lemma StoreIsOneAccess(m: Memory, addr: nat, bytes: nat, v: nat)
    requires bytes in {1, 2, 4, 8} && addr + bytes <= TWO32
    ensures RuntimeStore(m, addr, bytes, v) == Store(m, addr, bytes, v, Space64)
  {
    StoreNoWrap(m, addr, bytes, v);
    if bytes == 8 {
      HalvesOfAddress(addr);
      StoreHalves(m, addr, v);
    }
  }

  lemma StoreHalves(m: Memory, a: nat, v: nat)
    ensures Store(m, a, 8, v, Space32)
         == Store(Store(m, a, 4, Lower32(v), Space32), a + 4, 4, Lower32(Upper32(v)), Space32)
  {
    StoreSplit(m, a, 4, 4, v, Space32);
    PowerTable();
    HighPartIsQuotient(v, 4);
    LowOfLower(v);
    LowOfLower(Upper32(v));
    StoreLowBytes(m, a, 4, v, Lower32(v), Space32);
    StoreLowBytes(Store(m, a, 4, v, Space32), a + 4, 4, Upper32(v), Lower32(Upper32(v)), Space32);
  }

  lemma LowOfLower(v: nat)
    ensures LowPart(v, 4) == LowPart(Lower32(v), 4) == Lower32(v)
  {
    LowPart32(v);
    LowPart32(Lower32(v));
  }

  // ---- exactly which addresses the runtime serves

  /** The upper half of an address is dropped: addresses with the same lower half name the same bytes,
      for every width and through the carry of the second access of a 64-bit one. */
  lemma UpperHalfIsDropped(m: Memory, a: nat, b: nat, bytes: nat, v: nat)
    requires bytes in {1, 2, 4, 8} && a < TWO64 && b < TWO64 && a % 0x1_0000_0000 == b % 0x1_0000_0000
    ensures RuntimeLoad(m, a, bytes) == RuntimeLoad(m, b, bytes)
    ensures RuntimeStore(m, a, bytes, v) == RuntimeStore(m, b, bytes, v)
  {
    NextWord(a);
    NextWord(b);
  }

  lemma NextWord(a: nat)
    ensures Lower32(Wrap(a + 4, Space64)) == (a % 0x1_0000_0000 + 4) % 0x1_0000_0000
  {
  }

  lemma NoKeyFromNarrow(m: Memory, a: nat, n: nat, v: nat, key: nat)
    requires key >= TWO32
    ensures key in Store(m, a, n, v, Space32) <==> key in m
    decreases n
  {
    if n > 0 {
      NoKeyFromNarrow(m[Wrap(a, Space32) := v % 256], a + 1, n - 1, v / 256, key);
    }
  }

  lemma StoreKeeps(m: Memory, a: nat, n: nat, v: nat, s: Space, key: nat)
    requires key in m
    ensures key in Store(m, a, n, v, s)
    decreases n
  {
    if n > 0 {
      StoreKeeps(m[Wrap(a, s) := v % 256], a + 1, n - 1, v / 256, s, key);
    }
  }

  lemma KeyFromWide(m: Memory, a: nat, n: nat, v: nat, key: nat)
    requires a <= key < a + n && key < TWO64
    ensures key in Store(m, a, n, v, Space64)
    decreases n
  {
    var m1 := m[Wrap(a, Space64) := v % 256];
    if a == key {
      StoreKeeps(m1, a + 1, n - 1, v / 256, Space64, key);
    } else {
      KeyFromWide(m1, a + 1, n - 1, v / 256, key);
    }
  }

  /** A load agrees with a real 64-bit access on every memory exactly when it ends by 2^32. */
  lemma LoadAgreesExactlyBelow4G(addr: nat, bytes: nat)
    requires bytes in {1, 2, 4, 8} && addr < TWO64
    ensures (forall m: Memory :: RuntimeLoad(m, addr, bytes) == Load(m, addr, bytes, Space64))
       <==> addr + bytes <= TWO32
  {
    if addr + bytes <= TWO32 {
      forall m: Memory
        ensures RuntimeLoad(m, addr, bytes) == Load(m, addr, bytes, Space64)
      {
        LoadIsOneAccess(m, addr, bytes);
      }
    } else {
      var key := if addr < TWO32 then TWO32 else addr;
      var m: Memory := map[key := 1];
      LoadHitting(key, addr, bytes, Space64);
      LoadMissing(key, Lower32(addr), bytes, Space32);
      LoadMissing(key, Lower32(addr), 4, Space32);
      LoadMissing(key, Lower32(Wrap(addr + 4, Space64)), 4, Space32);
      assert RuntimeLoad(m, addr, bytes) != Load(m, addr, bytes, Space64);
    }
  }

  lemma StoreAgreesExactlyBelow4G(addr: nat, bytes: nat)
    requires bytes in {1, 2, 4, 8} && addr < TWO64
    ensures (forall m: Memory, v: nat :: RuntimeStore(m, addr, bytes, v) == Store(m, addr, bytes, v, Space64))
       <==> addr + bytes <= TWO32
  {
    if addr + bytes <= TWO32 {
      forall m: Memory, v: nat
        ensures RuntimeStore(m, addr, bytes, v) == Store(m, addr, bytes, v, Space64)
      {
        StoreIsOneAccess(m, addr, bytes, v);
      }
    } else {
      var key := if addr < TWO32 then TWO32 else addr;
      var m: Memory := map[];
      KeyFromWide(m, addr, bytes, 0, key);
      NoKeyFromNarrow(m, Lower32(addr), bytes, 0, key);
      var m1 := NarrowStore(m, addr, 4, Lower32(0));
      NoKeyFromNarrow(m, Lower32(addr), 4, 0, key);
      NoKeyFromNarrow(m1, Lower32(Wrap(addr + 4, Space64)), 4, 0, key);
      assert RuntimeStore(m, addr, bytes, 0) != Store(m, addr, bytes, 0, Space64);
    }
  }

  /** Store-then-load gives back the value, and every byte outside the access is unchanged. */
  lemma StoreThenLoad(m: Memory, addr: nat, bytes: nat, v: nat)
    requires bytes in {1, 2, 4, 8} && addr + bytes <= TWO32
    ensures RuntimeLoad(RuntimeStore(m, addr, bytes, v), addr, bytes) == v % Pow256(bytes)
    ensures forall b: nat :: b < addr || addr + bytes <= b ==>
              ByteAt(RuntimeStore(m, addr, bytes, v), b) == ByteAt(m, b)
  {
    StoreIsOneAccess(m, addr, bytes, v);
    LoadIsOneAccess(RuntimeStore(m, addr, bytes, v), addr, bytes);
    LoadStore(m, addr, bytes, v, Space64);
    LowPartIsRemainder(v, bytes);
    forall b: nat | b < addr || addr + bytes <= b
      ensures ByteAt(RuntimeStore(m, addr, bytes, v), b) == ByteAt(m, b)
    {
      StoreFrame(m, addr, bytes, v, Space64, b);
    }
  }

  lemma Low32(v: nat)
    requires v < TWO32
    ensures LowPart(v, 4) == v
  {
    LowOfLower(v);
  }

  /** Two halves written next to each other read back as one word. */
  lemma PairReadsBack(m: Memory, val: nat, lo: nat, hi: nat)
    requires val + 8 <= TWO32 && lo < TWO32 && hi < TWO32
    ensures Load(Store(Store(m, val, 4, lo, Space32), val + 4, 4, hi, Space32), val, 8, Space32)
         == lo + 0x1_0000_0000 * hi
  {
    var m1 := Store(m, val, 4, lo, Space32);
    var m2 := Store(m1, val + 4, 4, hi, Space32);
    LoadHalves(m2, val, Space32);
    LoadStore(m, val, 4, lo, Space32);
    LoadStore(m1, val + 4, 4, hi, Space32);
    Low32(lo);
    Low32(hi);
    forall b: nat | val <= b < val + 4
      ensures ByteAt(m1, b) == ByteAt(m2, b)
    {
      StoreFrame(m1, val + 4, 4, hi, Space32, b);
    }
    LoadFrame(m1, m2, val, 4, Space32);
  }

  lemma StoreElsewhere(m: Memory, val: nat, v: nat, a: nat)
    requires val + 4 <= TWO32 && a + 4 <= TWO32
    requires val + 4 <= a || a + 4 <= val
    ensures Load(Store(m, val, 4, v, Space32), a, 4, Space32) == Load(m, a, 4, Space32)
  {
    var m1 := Store(m, val, 4, v, Space32);
    forall b: nat | a <= b < a + 4
      ensures ByteAt(m, b) == ByteAt(m1, b)
    {
      StoreFrame(m, val, 4, v, Space32, b);
    }
    LoadFrame(m, m1, a, 4, Space32);
  }

  lemma {:induction false} StoreZero(m: Memory, a: nat, n: nat, s: Space, b: nat)
    requires a + n <= Limit(s) && a <= b < a + n
    ensures ByteAt(Store(m, a, n, 0, s), b) == 0
    decreases n
  {
    if a == b {
      StoreFrame(m[a := 0], a + 1, n - 1, 0, s, b);
    } else {
      StoreZero(m[a := 0], a + 1, n - 1, s, b);
    }
  }

  lemma LoadZero(m: Memory, a: nat)
    requires a + 4 <= TWO32 && forall b: nat :: a <= b < a + 4 ==> ByteAt(m, b) == 0
    ensures Load(m, a, 4, Space32) == 0
  {
    var nothing: Memory := map[];
    LoadFrame(m, nothing, a, 4, Space32);
    LoadFrame(nothing, map[TWO32 := 1], a, 4, Space32);
    LoadMissing(TWO32, a, 4, Space32);
  }

  /** What the non-blocking load leaves in `*val`: the lower half, and the upper half as it is after
      the lower half was stored. */
  lemma NoblockLoadIs(m: Memory, addr: nat, val: nat)
    requires addr + 8 <= TWO32 && val + 8 <= TWO32
    ensures var lo := Load(m, addr, 4, Space32);
            Load(NoblockLoad64(m, addr, val), val, 8, Space32)
            == lo + 0x1_0000_0000 * Load(Store(m, val, 4, lo, Space32), addr + 4, 4, Space32)
    ensures RuntimeLoad(m, addr, 8) == Load(m, addr, 4, Space32) + 0x1_0000_0000 * Load(m, addr + 4, 4, Space32)
  {
    HalvesOfAddress(addr);
    var lo := Load(m, addr, 4, Space32);
    var m1 := Store(m, val, 4, lo, Space32);
    LoadBound32(m, addr, Space32);
    LoadBound32(m1, addr + 4, Space32);
    PairReadsBack(m, val, lo, Load(m1, addr + 4, 4, Space32));
  }

  predicate NoblockAgrees(m: Memory, addr: nat, val: nat) {
    Load(NoblockLoad64(m, addr, val), val, 8, Space32) == RuntimeLoad(m, addr, 8)
  }

  lemma NoblockLoadAgrees(m: Memory, addr: nat, val: nat)
    requires addr + 8 <= TWO32 && val + 8 <= TWO32 && (val <= addr || addr + 8 <= val)
    ensures NoblockAgrees(m, addr, val)
  {
    NoblockLoadIs(m, addr, val);
    StoreElsewhere(m, val, Load(m, addr, 4, Space32), addr + 4);
  }

  /** A single byte of the upper half that the stored lower half wipes out. */
  lemma NoblockWipes(addr: nat, val: nat) returns (m: Memory)
    requires addr + 8 <= TWO32 && val + 8 <= TWO32 && addr < val < addr + 8
    ensures !NoblockAgrees(m, addr, val)
  {
    var key := if addr + 4 <= val then val else addr + 4;
    m := map[key := 1];
    NoblockLoadIs(m, addr, val);
    LoadZero(m, addr);
    var m1 := Store(m, val, 4, 0, Space32);
    forall b: nat | addr + 4 <= b < addr + 8
      ensures ByteAt(m1, b) == 0
    {
      if val <= b < val + 4 {
        StoreZero(m, val, 4, Space32, b);
      } else {
        StoreFrame(m, val, 4, 0, Space32, b);
      }
    }
    LoadZero(m1, addr + 4);
    LoadHitting(key, addr + 4, 4, Space32);
  }

  /** The non-blocking load leaves in `*val` what the blocking load returns, for every memory, exactly
      when the result starts outside the source or on its first byte: otherwise the lower half of the
      result lands on a byte of the upper half of the source, which is read after it. */
  lemma NoblockLoadAgreesExactlyWhen(addr: nat, val: nat)
    requires addr + 8 <= TWO32 && val + 8 <= TWO32
    ensures (forall m: Memory :: NoblockAgrees(m, addr, val)) <==> val <= addr || addr + 8 <= val
  {
    if val <= addr || addr + 8 <= val {
      forall m: Memory
        ensures NoblockAgrees(m, addr, val)
      {
        NoblockLoadAgrees(m, addr, val);
      }
    } else {
      var m := NoblockWipes(addr, val);
    }
  }

  /** Placed on the upper half of the source, the result has the lower half twice. */
  lemma NoblockLoadOverlap(m: Memory, addr: nat)
    requires addr + 12 <= TWO32
    ensures Load(NoblockLoad64(m, addr, addr + 4), addr + 4, 8, Space32)
         == NarrowLoad(m, addr, 4) + 0x1_0000_0000 * NarrowLoad(m, addr, 4)
  {
    HalvesOfAddress(addr);
    NoblockLoadIs(m, addr, addr + 4);
    var lo := Load(m, addr, 4, Space32);
    LoadBound32(m, addr, Space32);
    LoadStore(m, addr + 4, 4, lo, Space32);
    Low32(lo);
  }
}
