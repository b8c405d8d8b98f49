/** The transparent TLBs of an Occamy quadrant (sw/libhero/src/occamy/snitch_cluster.c): two banks of
    entries in one flat space of 32-bit registers, and the table they stand for. */
module Tlb {
  import opened Common

  const WORD: nat := 0x1_0000_0000

  const NARROW_OFFSET: nat := 0x800
  const WIDE_OFFSET: nat := 0x1000
  const STRIDE: nat := 0x20

  /** Registers by byte offset from the quadrant control base; unwritten ones read as zero. */
  type Registers = map<nat, nat>

  function Read(regs: Registers, off: nat): nat {
    if off in regs then regs[off] else 0
  }

  /** Page numbers first..last are mapped to base, base + 1, ... */
  datatype Entry = Entry(first: nat, last: nat, base: nat, flags: nat)

  predicate Fits(e: Entry) {
    e.first < WORD * WORD && e.last < WORD * WORD && e.base < WORD * WORD && e.flags < WORD
  }

  // ---- one entry in the register space

  /** The cast to a 32-bit register. */
  function Low(v: nat): nat { v % WORD }

  function WriteEntry(regs: Registers, off: nat, e: Entry): Registers {
    regs[off := Low(e.first)][off + 0x04 := Low(e.first / WORD)]
        [off + 0x08 := Low(e.last)][off + 0x0c := Low(e.last / WORD)]
        [off + 0x10 := Low(e.base)][off + 0x14 := Low(e.base / WORD)]
        [off + 0x18 := Low(e.flags)]
  }

  function EntryAt(regs: Registers, off: nat): Entry {
    Entry(Read(regs, off) + WORD * Read(regs, off + 0x04),
          Read(regs, off + 0x08) + WORD * Read(regs, off + 0x0c),
          Read(regs, off + 0x10) + WORD * Read(regs, off + 0x14),
          Read(regs, off + 0x18))
  }

  datatype Bank = Narrow | Wide

  function BankOffset(b: Bank): nat {
    if b == Narrow then NARROW_OFFSET else WIDE_OFFSET
  }

  /** Where entry k of a bank is. */
  function EntryOffset(b: Bank, k: nat): nat { BankOffset(b) + STRIDE * k }

  /** Where a call writes: the product of stride and index is 32 bits wide. */
  function WriteOffset(b: Bank, idx: nat): nat { BankOffset(b) + Low(STRIDE * idx) }

  /** What one call writes: both banks, the pages of the two addresses, mapped to themselves. */
  function EntryFor(begin: nat, end: nat, flags: nat): Entry {
    Entry(begin / PAGE, end / PAGE, begin / PAGE, flags)
  }

  datatype Write = Write(idx: nat, begin: nat, end: nat, flags: nat)

  predicate WellTyped(w: Write) {
    w.idx < WORD && w.begin < WORD * WORD && w.end < WORD * WORD && w.flags < WORD
  }

  function Apply(regs: Registers, w: Write): Registers {
    var e := EntryFor(w.begin, w.end, w.flags);
    WriteEntry(WriteEntry(regs, WriteOffset(Narrow, w.idx), e), WriteOffset(Wide, w.idx), e)
  }

  function ApplyAll(regs: Registers, ws: seq<Write>): Registers
    decreases |ws|
  {
    if ws == [] then regs else ApplyAll(Apply(regs, ws[0]), ws[1..])
  }

  // ---- the table the registers stand for

  /** The last entry written at idx. */
  function LastEntry(ws: seq<Write>, idx: nat): Option<Entry> {
    if ws == [] then None
    else
      var w := ws[|ws| - 1];
      if w.idx == idx then Some(Entry(w.begin / 4096, w.end / 4096, w.begin / 4096, w.flags))
      else LastEntry(ws[..|ws| - 1], idx)
  }

  /** The two halves of a number below 2^64, as two registers. */
  lemma Halves(v: nat)
    requires v < WORD * WORD
    ensures Low(v) + WORD * Low(v / WORD) == v
  {
    assert v / WORD < WORD;
  }

  lemma WrittenEntry(regs: Registers, off: nat, e: Entry)
    requires Fits(e)
    ensures EntryAt(WriteEntry(regs, off, e), off) == e
  {
    Halves(e.first);
    Halves(e.last);
    Halves(e.base);
    assert Low(e.flags) == e.flags;
    EntryRead(regs, off, e);
  }

  lemma EntryRead(regs: Registers, off: nat, e: Entry)
    ensures EntryAt(WriteEntry(regs, off, e), off)
         == Entry(Low(e.first) + WORD * Low(e.first / WORD), Low(e.last) + WORD * Low(e.last / WORD),
                  Low(e.base) + WORD * Low(e.base / WORD), Low(e.flags))
  {
  }

  lemma OtherRegisters(regs: Registers, off: nat, e: Entry, r: nat)
    requires r < off || off + 0x18 < r
    ensures Read(WriteEntry(regs, off, e), r) == Read(regs, r)
  {
  }

  lemma OtherEntry(regs: Registers, off: nat, e: Entry, off': nat)
    requires off + STRIDE <= off' || off' + STRIDE <= off
    ensures EntryAt(WriteEntry(regs, off, e), off') == EntryAt(regs, off')
  {
    var regs' := WriteEntry(regs, off, e);
    forall r | off' <= r < off' + STRIDE
      ensures Read(regs', r) == Read(regs, r)
    {
      OtherRegisters(regs, off, e, r);
    }
  }

  /** The entry number that an index selects: 2^27 strides are 2^32 bytes. */
  function Selected(idx: nat): nat { idx % 0x800_0000 }

  lemma WritesSelected(b: Bank, idx: nat)
    ensures WriteOffset(b, idx) == EntryOffset(b, Selected(idx))
    ensures idx < 64 ==> Selected(idx) == idx
  {
    var q := idx / 0x800_0000;
    assert STRIDE * idx == WORD * q + STRIDE * Selected(idx);
  }

  lemma SlotsApart(b: Bank, i: nat, b': Bank, j: nat)
    ensures var o, o' := EntryOffset(b, i), EntryOffset(b', j);
            o == o' || o + STRIDE <= o' || o' + STRIDE <= o
    ensures EntryOffset(b, i) == EntryOffset(b', j) <==>
              (if b == b' then i == j else if b == Narrow then i == j + 64 else j == i + 64)
  {
  }

  lemma BothBanks(regs: Registers, e: Entry, k: nat, b: Bank, j: nat)
    requires Fits(e) && j < 64
    ensures EntryAt(WriteEntry(WriteEntry(regs, EntryOffset(Narrow, k), e), EntryOffset(Wide, k), e), EntryOffset(b, j))
         == if k == j || (b == Wide && k == j + 64) then e else EntryAt(regs, EntryOffset(b, j))
  {
    var o, n, d := EntryOffset(b, j), EntryOffset(Narrow, k), EntryOffset(Wide, k);
    var regs1 := WriteEntry(regs, n, e);
    SlotsApart(b, j, Narrow, k);
    SlotsApart(b, j, Wide, k);
    if d == o {
      WrittenEntry(regs1, d, e);
    } else {
      OtherEntry(regs1, d, e, o);
      if n == o {
        WrittenEntry(regs, n, e);
      } else {
        OtherEntry(regs, n, e, o);
      }
    }
  }

  /** One write, at any 32-bit index: an entry below 64 of a bank holds it afterwards exactly when the
      index is that entry's number modulo 2^27 or, for the wide bank, 64 more; otherwise the entry is
      as it was. */
  lemma WriteIsSeenAt(regs: Registers, w: Write, b: Bank, j: nat)
    requires WellTyped(w) && j < 64
    ensures EntryAt(Apply(regs, w), EntryOffset(b, j))
         == if w.idx % 0x800_0000 == j || (b == Wide && w.idx % 0x800_0000 == j + 64)
            then Entry(w.begin / 4096, w.end / 4096, w.begin / 4096, w.flags)
            else EntryAt(regs, EntryOffset(b, j))
  {
    WritesSelected(Narrow, w.idx);
    WritesSelected(Wide, w.idx);
    BothBanks(regs, EntryFor(w.begin, w.end, w.flags), Selected(w.idx), b, j);
  }

  // ---- the registers of one write

  /** The seven registers from o on hold the pages of the two addresses, the first page once more as
      the base, lower halves first, and all flags. */
  predicate Holds(regs: Registers, o: nat, begin: nat, end: nat, flags: nat) {
    && Read(regs, o + 0x00) == begin / 4096 % 0x1_0000_0000 && Read(regs, o + 0x04) == begin / 4096 / 0x1_0000_0000
    && Read(regs, o + 0x08) == end / 4096 % 0x1_0000_0000 && Read(regs, o + 0x0c) == end / 4096 / 0x1_0000_0000
    && Read(regs, o + 0x10) == begin / 4096 % 0x1_0000_0000 && Read(regs, o + 0x14) == begin / 4096 / 0x1_0000_0000
    && Read(regs, o + 0x18) == flags
  }

  lemma EntryHolds(regs: Registers, o: nat, w: Write)
    requires WellTyped(w)
    ensures Holds(WriteEntry(regs, o, EntryFor(w.begin, w.end, w.flags)), o, w.begin, w.end, w.flags)
  {
    UpperIsSmall(w.begin);
    UpperIsSmall(w.end);
  }

  lemma UpperIsSmall(a: nat)
    requires a < WORD * WORD
    ensures Low(a / PAGE / WORD) == a / 4096 / 0x1_0000_0000
  {
  }

  lemma OtherHolds(regs: Registers, off: nat, e: Entry, o: nat, begin: nat, end: nat, flags: nat)
    requires Holds(regs, o, begin, end, flags) && o + STRIDE <= off
    ensures Holds(WriteEntry(regs, off, e), o, begin, end, flags)
  {
    forall r | o <= r < o + STRIDE
      ensures Read(WriteEntry(regs, off, e), r) == Read(regs, r)
    {
      OtherRegisters(regs, off, e, r);
    }
  }

  /** A write at an index below 64, register by register, in both banks. */
  lemma WriteSetsRegisters(regs: Registers, w: Write)
    requires WellTyped(w) && w.idx < 64
    ensures Holds(Apply(regs, w), 0x800 + 0x20 * w.idx, w.begin, w.end, w.flags)
    ensures Holds(Apply(regs, w), 0x1000 + 0x20 * w.idx, w.begin, w.end, w.flags)
  {
    var e, n, d := EntryFor(w.begin, w.end, w.flags), 0x800 + 0x20 * w.idx, 0x1000 + 0x20 * w.idx;
    assert WriteOffset(Narrow, w.idx) == n && WriteOffset(Wide, w.idx) == d;
    var regs1 := WriteEntry(regs, n, e);
    EntryHolds(regs, n, w);
    OtherHolds(regs1, d, e, n, w.begin, w.end, w.flags);
    EntryHolds(regs1, d, w);
  }

  lemma ControlRegisters(regs: Registers, w: Write, r: nat)
    requires r < NARROW_OFFSET
    ensures Read(Apply(regs, w), r) == Read(regs, r)
  {
    var e := EntryFor(w.begin, w.end, w.flags);
    OtherRegisters(regs, WriteOffset(Narrow, w.idx), e, r);
    OtherRegisters(WriteEntry(regs, WriteOffset(Narrow, w.idx), e), WriteOffset(Wide, w.idx), e, r);
  }

  /** A write below index 64. */
  lemma OneMoreWrite(regs: Registers, w: Write, b: Bank, j: nat, r: nat)
    requires WellTyped(w) && w.idx < 64 && j < 64 && r < NARROW_OFFSET
    ensures EntryAt(Apply(regs, w), EntryOffset(b, j))
         == if w.idx == j then Entry(w.begin / 4096, w.end / 4096, w.begin / 4096, w.flags)
            else EntryAt(regs, EntryOffset(b, j))
    ensures Read(Apply(regs, w), r) == Read(regs, r)
  {
    WritesSelected(b, w.idx);
    WriteIsSeenAt(regs, w, b, j);
    ControlRegisters(regs, w, r);
  }

  lemma {:induction false} ApplyAllLast(regs: Registers, ws: seq<Write>)
    requires ws != []
    ensures ApplyAll(regs, ws) == Apply(ApplyAll(regs, ws[..|ws| - 1]), ws[|ws| - 1])
    decreases |ws|
  {
    if |ws| > 1 {
      ApplyAllLast(Apply(regs, ws[0]), ws[1..]);
      assert ws[1..][..|ws| - 2] == ws[..|ws| - 1][1..];
    }
  }

  /** Any sequence of writes with indices below 64: both banks decode, at every index, to the last
      entry written there, or to what they held before; the control registers stay as they were. */
  lemma {:induction false} BanksHoldTheTable(regs: Registers, ws: seq<Write>, b: Bank, j: nat, r: nat)
    requires forall w :: w in ws ==> w.idx < 64 && WellTyped(w)
    requires j < 64 && r < NARROW_OFFSET
    ensures EntryAt(ApplyAll(regs, ws), EntryOffset(b, j))
         == match LastEntry(ws, j) case Some(e) => e case None => EntryAt(regs, EntryOffset(b, j))
    ensures Read(ApplyAll(regs, ws), r) == Read(regs, r)
    decreases |ws|
  {
    if ws != [] {
      var w, before := ws[|ws| - 1], ws[..|ws| - 1];
      ApplyAllLast(regs, ws);
      BanksHoldTheTable(regs, before, b, j, r);
      OneMoreWrite(ApplyAll(regs, before), w, b, j, r);
    }
  }

  const WIDE_ENABLE_OFFSET: nat := 0x18
  const NARROW_ENABLE_OFFSET: nat := 0x1c

  function Enabled(regs: Registers): Registers {
    regs[WIDE_ENABLE_OFFSET := 1][NARROW_ENABLE_OFFSET := 1]
  }

  // ---- the quadrant control block

  class QuadCtrl {
    var regs: Registers

    constructor ()
      ensures regs == map[]
    {
      regs := map[];
    }

    method Writew(v: nat, off: nat)
      modifies this
      ensures regs == old(regs)[off := Low(v)]
    {
      regs := regs[off := Low(v)];
    }

    /** One bank of occamy_tlb_write. */
    method WriteBank(off: nat, e: Entry)
      modifies this
      ensures regs == WriteEntry(old(regs), off, e)
    {
      Writew(e.first, off);
      Writew(e.first / WORD, off + 0x04);
      Writew(e.last, off + 0x08);
      Writew(e.last / WORD, off + 0x0c);
      Writew(e.base, off + 0x10);
      Writew(e.base / WORD, off + 0x14);
      Writew(e.flags, off + 0x18);
    }

    /** occamy_tlb_write: addresses are turned into page numbers, base and first being the same. */
    method TlbWrite(w: Write) returns (r: int)
      modifies this
      ensures r == 0 && regs == Apply(old(regs), w)
      ensures WellTyped(w) && w.idx < 64 ==>
                && Holds(regs, 0x800 + 0x20 * w.idx, w.begin, w.end, w.flags)
                && Holds(regs, 0x1000 + 0x20 * w.idx, w.begin, w.end, w.flags)
    {
      if WellTyped(w) && w.idx < 64 {
        WriteSetsRegisters(regs, w);
      }
      var pageNumBase, pageNumFirst, pageNumLast := w.begin / 4096, w.begin / 4096, w.end / 4096;
      var e := Entry(pageNumFirst, pageNumLast, pageNumBase, w.flags);
      WriteBank(NARROW_OFFSET + Low(STRIDE * w.idx), e);
      WriteBank(WIDE_OFFSET + Low(STRIDE * w.idx), e);
      return 0;
    }

    /** The TLB part of hero_dev_init: six entries, then both banks are enabled. */
    method Init()
      modifies this
      ensures regs == Enabled(ApplyAll(old(regs), INIT_WRITES))
    {
      var i := 0;
      while i < |INIT_WRITES|
        invariant 0 <= i <= |INIT_WRITES|
        invariant ApplyAll(regs, INIT_WRITES[i..]) == ApplyAll(old(regs), INIT_WRITES)
      {
        assert INIT_WRITES[i..][0] == INIT_WRITES[i] && INIT_WRITES[i..][1..] == INIT_WRITES[i + 1..];
        var r := TlbWrite(INIT_WRITES[i]);
        i := i + 1;
      }
      Writew(1, WIDE_ENABLE_OFFSET);
      Writew(1, NARROW_ENABLE_OFFSET);
    }
  }

  const INIT_WRITES: seq<Write> := [
    Write(0, 0x01000000, 0x0101ffff, 0x3),
    Write(1, 0x02000000, 0x02000fff, 0x3),
    Write(2, 0x04000000, 0x040fffff, 0x1),
    Write(3, 0x10000000, 0x105fffff, 0x1),
    Write(4, 0xC0000000, 0xffffffff, 0x1),
    Write(5, 0x71000000, 0x71100000, 0x1)
  ]

  // ---- translation

  predicate Hit(e: Entry, page: nat) { e.flags % 2 == 1 && e.first <= page <= e.last }

  /** The first hit among entries idx, idx + 1, ..., 63 of a bank decides. */
  function Lookup(regs: Registers, b: Bank, a: nat, idx: nat): Option<nat>
    decreases 64 - idx, a
  {
    if idx >= 64 then None
    else
      var e := EntryAt(regs, EntryOffset(b, idx));
      if Hit(e, a / PAGE) then Some(PAGE * (e.base + a / PAGE - e.first) + a % PAGE)
      else Lookup(regs, b, a, idx + 1)
  }

  /** Index j was last written with an enabled entry over the page of a. */
  predicate CoveredAt(ws: seq<Write>, a: nat, j: nat) {
    LastEntry(ws, j).Some? && Hit(LastEntry(ws, j).value, a / PAGE)
  }

  ghost predicate CoveredFrom(ws: seq<Write>, a: nat, idx: nat) {
    exists j | idx <= j < 64 :: CoveredAt(ws, a, j)
  }

  lemma {:induction false} LastIsIdentity(ws: seq<Write>, idx: nat)
    requires LastEntry(ws, idx).Some?
    ensures LastEntry(ws, idx).value.base == LastEntry(ws, idx).value.first
  {
    if ws[|ws| - 1].idx != idx {
      LastIsIdentity(ws[..|ws| - 1], idx);
    }
  }

  /** Entry j of the registers is enabled over the page of a exactly when the last write says so, and
      then it maps the page to itself. */
  predicate Agrees(regs: Registers, ws: seq<Write>, b: Bank, a: nat, j: nat) {
    var e := EntryAt(regs, EntryOffset(b, j));
    (Hit(e, a / PAGE) <==> CoveredAt(ws, a, j)) && (Hit(e, a / PAGE) ==> e.base == e.first)
  }

  lemma TableAgrees(regs: Registers, ws: seq<Write>, b: Bank, a: nat, j: nat)
    requires regs == map[] && j < 64
    requires forall w :: w in ws ==> w.idx < 64 && WellTyped(w)
    ensures Agrees(ApplyAll(regs, ws), ws, b, a, j)
  {
    BanksHoldTheTable(regs, ws, b, j, 0);
    if LastEntry(ws, j).Some? {
      LastIsIdentity(ws, j);
    }
  }

  lemma {:induction false} LookupFrom(regs: Registers, ws: seq<Write>, b: Bank, a: nat, idx: nat)
    requires forall j :: 0 <= j < 64 ==> Agrees(regs, ws, b, a, j)
    ensures Lookup(regs, b, a, idx) == if CoveredFrom(ws, a, idx) then Some(a) else None
    decreases 64 - idx
  {
    if idx < 64 {
      LookupFrom(regs, ws, b, a, idx + 1);
      assert Agrees(regs, ws, b, a, idx);
      assert CoveredAt(ws, a, idx) ==> CoveredFrom(ws, a, idx);
    }
  }

  /** After any sequence of writes to a quadrant that starts with zero registers, both banks translate
      an address to itself exactly when the last entry of some index is enabled and covers its page,
      and to nothing otherwise. */
  lemma TranslatesToItselfExactlyWhenCovered(ws: seq<Write>, b: Bank, a: nat)
    requires forall w :: w in ws ==> w.idx < 64 && WellTyped(w)
    ensures Lookup(ApplyAll(map[], ws), b, a, 0) == if CoveredFrom(ws, a, 0) then Some(a) else None
  {
    forall j | 0 <= j < 64
      ensures Agrees(ApplyAll(map[], ws), ws, b, a, j)
    {
      TableAgrees(map[], ws, b, a, j);
    }
    LookupFrom(ApplyAll(map[], ws), ws, b, a, 0);
  }

  /** If every entry is written once, in order, the table is the list. */
  lemma {:induction false} TableInOrder(ws: seq<Write>, j: nat)
    requires forall i :: 0 <= i < |ws| ==> ws[i].idx == i
    ensures LastEntry(ws, j) == if j < |ws| then Some(EntryFor(ws[j].begin, ws[j].end, ws[j].flags)) else None
    decreases |ws|
  {
    if ws != [] && j != |ws| - 1 {
      TableInOrder(ws[..|ws| - 1], j);
    }
  }

  predicate InRanges(a: nat) {
    || 0x01000000 <= a <= 0x0101ffff || 0x02000000 <= a <= 0x02000fff || 0x04000000 <= a <= 0x040fffff
    || 0x10000000 <= a <= 0x105fffff || 0xC0000000 <= a <= 0xffffffff || 0x71000000 <= a <= 0x71100000
  }

  /** Entry j of the initial table reaches from its first page to the end of its last. */
  lemma InitEntry(a: nat, j: nat)
    ensures CoveredAt(INIT_WRITES, a, j) <==>
              (j < 6 && INIT_WRITES[j].begin <= a <= PAGE * (INIT_WRITES[j].end / PAGE) + 0xfff)
  {
    TableInOrder(INIT_WRITES, j);
  }

  lemma InitCovers(a: nat)
    ensures CoveredFrom(INIT_WRITES, a, 0) <==> (InRanges(a) || 0x71100000 < a <= 0x71100fff)
  {
    if CoveredFrom(INIT_WRITES, a, 0) {
      var j :| 0 <= j < 64 && CoveredAt(INIT_WRITES, a, j);
      InitEntry(a, j);
    }
    if InRanges(a) || 0x71100000 < a <= 0x71100fff {
      var j :=
        if a <= 0x0101ffff then 0 else if a <= 0x02000fff then 1 else if a <= 0x040fffff then 2
        else if a <= 0x105fffff then 3 else if a >= 0xC0000000 then 4 else 5;
      InitEntry(a, j);
    }
  }

  lemma {:induction false} LookupIgnoresControl(regs: Registers, r: nat, v: nat, b: Bank, a: nat, idx: nat)
    requires r < NARROW_OFFSET
    ensures Lookup(regs[r := v], b, a, idx) == Lookup(regs, b, a, idx)
    decreases 64 - idx
  {
    if idx < 64 {
      assert EntryAt(regs[r := v], EntryOffset(b, idx)) == EntryAt(regs, EntryOffset(b, idx));
      LookupIgnoresControl(regs, r, v, b, a, idx + 1);
    }
  }

  lemma EnablingKeepsTranslations(regs: Registers, b: Bank, a: nat)
    ensures Lookup(Enabled(regs), b, a, 0) == Lookup(regs, b, a, 0)
    ensures Read(Enabled(regs), WIDE_ENABLE_OFFSET) == 1 && Read(Enabled(regs), NARROW_ENABLE_OFFSET) == 1
  {
    LookupIgnoresControl(regs, WIDE_ENABLE_OFFSET, 1, b, a, 0);
    LookupIgnoresControl(regs[WIDE_ENABLE_OFFSET := 1], NARROW_ENABLE_OFFSET, 1, b, a, 0);
  }

  lemma InitIsTyped(ws: seq<Write>)
    requires ws == INIT_WRITES
    ensures forall w :: w in ws ==> w.idx < 64 && WellTyped(w)
  {
  }

  lemma EnabledTranslates(ws: seq<Write>, b: Bank, a: nat)
    requires forall w :: w in ws ==> w.idx < 64 && WellTyped(w)
    ensures Lookup(Enabled(ApplyAll(map[], ws)), b, a, 0) == if CoveredFrom(ws, a, 0) then Some(a) else None
  {
    EnablingKeepsTranslations(ApplyAll(map[], ws), b, a);
    TranslatesToItselfExactlyWhenCovered(ws, b, a);
  }

  /** After initialisation of zero registers both banks let through the six ranges and, because the
      last one ends on the first byte of a page, the rest of that page as well: nothing else. */
  lemma InitTranslatesExactly(b: Bank, a: nat)
    ensures Lookup(Enabled(ApplyAll(map[], INIT_WRITES)), b, a, 0)
         == if InRanges(a) || 0x71100000 < a <= 0x71100fff then Some(a) else None
  {
    InitCovers(a);
    InitIsTyped(INIT_WRITES);
    EnabledTranslates(INIT_WRITES, b, a);
  }

  lemma EnabledRead(regs: Registers, r: nat)
    ensures Read(Enabled(regs), r) == if r == 0x18 || r == 0x1c then 1 else Read(regs, r)
  {
  }

  /** Entries written once, in order: their flags are where they belong, and the control registers hold
      the two enables. */
  lemma EnabledFlags(ws: seq<Write>, b: Bank, j: nat, r: nat)
    requires forall w :: w in ws ==> w.idx < 64 && WellTyped(w)
    requires forall i :: 0 <= i < |ws| ==> ws[i].idx == i
    requires j < 64 && r < 0x800
    ensures Read(Enabled(ApplyAll(map[], ws)), EntryOffset(b, j) + 0x18) == if j < |ws| then ws[j].flags else 0
    ensures Read(Enabled(ApplyAll(map[], ws)), r) == if r == 0x18 || r == 0x1c then 1 else 0
  {
    BanksHoldTheTable(map[], ws, b, j, r);
    TableInOrder(ws, j);
    EnabledRead(ApplyAll(map[], ws), r);
    EnabledRead(ApplyAll(map[], ws), EntryOffset(b, j) + 0x18);
  }

  lemma EnabledRegisters(ws: seq<Write>, j: nat, r: nat, flags: nat)
    requires forall w :: w in ws ==> w.idx < 64 && WellTyped(w)
    requires forall i :: 0 <= i < |ws| ==> ws[i].idx == i
    requires j < 64 && r < 0x800 && flags == if j < |ws| then ws[j].flags else 0
    ensures var regs := Enabled(ApplyAll(map[], ws));
            && Read(regs, 0x800 + 0x20 * j + 0x18) == flags && Read(regs, 0x1000 + 0x20 * j + 0x18) == flags
            && Read(regs, r) == if r == 0x18 || r == 0x1c then 1 else 0
  {
    EnabledFlags(ws, Narrow, j, r);
    EnabledFlags(ws, Wide, j, r);
  }

  lemma InitInOrder(ws: seq<Write>, j: nat)
    requires ws == INIT_WRITES && j < 64
    ensures forall i :: 0 <= i < |ws| ==> ws[i].idx == i
    ensures (if j < |ws| then ws[j].flags else 0) == if j < 2 then 3 else if j < 6 then 1 else 0
  {
  }

  /** After initialisation the boot ROM and the SoC control entry carry both flags, the other four one,
      in both banks; every other entry is off; and of the control registers only the two enables are set. */
  lemma InitRegisters(ws: seq<Write>, j: nat, r: nat)
    requires ws == INIT_WRITES && j < 64 && r < 0x800
    ensures var regs, flags := Enabled(ApplyAll(map[], ws)), if j < 2 then 3 else if j < 6 then 1 else 0;
            && Read(regs, 0x800 + 0x20 * j + 0x18) == flags && Read(regs, 0x1000 + 0x20 * j + 0x18) == flags
            && Read(regs, r) == if r == 0x18 || r == 0x1c then 1 else 0
  {
    InitIsTyped(ws);
    InitInOrder(ws, j);
    EnabledRegisters(ws, j, r, if j < 2 then 3 else if j < 6 then 1 else 0);
  }
}
