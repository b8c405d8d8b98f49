/** The ring buffer's layout (sw/libhero/include/libhero/ringbuf.h): slots of `es` bytes from
    `base`, indexed by `head` (written next) and `tail` (read next), both wrapping at `size`. */
module RingModel {
  import opened Words

  datatype Ring = Ring(base: nat, size: nat, es: nat)

  /** The fields are 32 bits wide and one slot always stays empty, so the ring needs a slot. */
  predicate Fields(r: Ring) {
    1 <= r.size < TWO32 && r.es < TWO32
  }

  /** No slot offset overflows 32 bits. */
  predicate Sane(r: Ring) {
    Fields(r) && r.es * (r.size - 1) < TWO32
  }

  /** `element_size * head` is a 32-bit product. */
  function SlotBase(r: Ring, h: nat): nat {
    r.base + (r.es * h) % 0x1_0000_0000
  }

  function Slot(r: Ring, m: Memory, h: nat): (s: seq<byte>)
    ensures |s| == r.es
  {
    Bytes(m, SlotBase(r, h), r.es)
  }

  function Bytes(m: Memory, a: nat, n: nat): (s: seq<byte>)
    ensures |s| == n
    ensures forall i :: 0 <= i < n ==> s[i] == ByteAt(m, a + i)
  {
    seq<byte>(n, i requires 0 <= i < n => ByteAt(m, a + i))
  }

  function Next(r: Ring, h: nat): nat
    requires r.size >= 1
  {
    (h + 1) % r.size
  }

  function Count(r: Ring, head: nat, tail: nat): nat
    requires tail < r.size
  {
    if tail <= head then head - tail else head + r.size - tail
  }

  function Index(r: Ring, tail: nat, k: nat): int {
    if tail + k < r.size then tail + k else tail + k - r.size
  }

  /** The published elements, oldest first, decoded from memory. */
  function Window(r: Ring, m: Memory, head: nat, tail: nat): (q: seq<seq<byte>>)
    requires head < r.size && tail < r.size
    ensures |q| == Count(r, head, tail)
  {
    seq(Count(r, head, tail), k requires 0 <= k < Count(r, head, tail) => Slot(r, m, Index(r, tail, k)))
  }

  predicate InBuffer(r: Ring, a: nat) {
    r.base <= a < r.base + r.es * r.size
  }

  /** Two memories that differ at most inside the buffer. */
  ghost predicate SameOutside(r: Ring, m: Memory, m': Memory) {
    forall a: nat :: !InBuffer(r, a) ==> ByteAt(m, a) == ByteAt(m', a)
  }

  // ---- layout facts

  lemma NextWraps(r: Ring, h: nat)
    requires h < r.size
    ensures Next(r, h) == if h + 1 == r.size then 0 else h + 1
  {
  }

  lemma SlotOffset(r: Ring, h: nat)
    requires Sane(r) && h < r.size
    ensures SlotBase(r, h) == r.base + r.es * h
    ensures r.es * h + r.es <= r.es * r.size
  {
    MulMono(r.es, h, r.size - 1);
    MulMono(r.es, h + 1, r.size);
    Distribute(r.es, h, 1);
  }

  /** Every byte of a slot lies inside the `size * element_size` bytes of the buffer. */
  lemma SlotInBuffer(r: Ring, h: nat, i: nat)
    requires Sane(r) && h < r.size && i < r.es
    ensures r.base <= SlotBase(r, h) + i < r.base + r.es * r.size && InBuffer(r, SlotBase(r, h) + i)
  {
    SlotOffset(r, h);
  }

  ghost predicate Disjoint(r: Ring, h: nat, h': nat) {
    SlotBase(r, h) + r.es <= SlotBase(r, h') || SlotBase(r, h') + r.es <= SlotBase(r, h)
  }

  lemma SlotsDisjoint(r: Ring, h: nat, h': nat)
    requires Sane(r) && h < r.size && h' < r.size && h != h'
    ensures Disjoint(r, h, h')
  {
    SlotOffset(r, h);
    SlotOffset(r, h');
    var lo, hi := if h < h' then h else h', if h < h' then h' else h;
    MulMono(r.es, lo + 1, hi);
    Distribute(r.es, lo, 1);
  }

  /** Slots never overlap exactly when the largest slot offset fits in 32 bits. */
  lemma SlotsDisjointExactlyWhenSane(r: Ring)
    requires Fields(r) && r.es >= 1
    ensures (forall h, h' :: 0 <= h < r.size && 0 <= h' < r.size && h != h' ==> Disjoint(r, h, h')) <==> Sane(r)
  {
    if Sane(r) {
      forall h, h' | 0 <= h < r.size && 0 <= h' < r.size && h != h'
        ensures Disjoint(r, h, h')
      {
        SlotsDisjoint(r, h, h');
      }
    } else {
      var k := FirstWrappedSlot(r);
      assert !Disjoint(r, 0, k);
    }
  }

  lemma FirstWrappedSlot(r: Ring) returns (k: nat)
    requires Fields(r) && r.es >= 1 && !Sane(r)
    ensures 1 <= k < r.size && !Disjoint(r, 0, k)
  {
    k := 0x1_0000_0000 / r.es;
    var q := k;
    assert 0x1_0000_0000 == r.es * q + 0x1_0000_0000 % r.es;
    Distribute(r.es, q, 1);
    if r.es * q < 0x1_0000_0000 {
      k := q + 1;
    }
    assert 0x1_0000_0000 <= r.es * k < 0x1_0000_0000 + r.es;
    if k >= r.size {
      MulMono(r.es, r.size - 1, k - 1);
      Distribute(r.es, k, -1);
    }
    assert r.es * k % 0x1_0000_0000 == r.es * k - 0x1_0000_0000;
    assert r.es * 0 == 0;
  }

  // ---- how the published window moves

  lemma WindowAt(r: Ring, m: Memory, head: nat, tail: nat, k: nat)
    requires head < r.size && tail < r.size && k < Count(r, head, tail)
    ensures 0 <= Index(r, tail, k) < r.size && Index(r, tail, k) != head
    ensures Window(r, m, head, tail)[k] == Slot(r, m, Index(r, tail, k))
  {
  }

  /** Memories that agree on the published slots publish the same elements. */
  lemma WindowFrame(r: Ring, m: Memory, m': Memory, head: nat, tail: nat)
    requires head < r.size && tail < r.size
    requires forall h :: 0 <= h < r.size && h != head ==> Slot(r, m, h) == Slot(r, m', h)
    ensures Window(r, m, head, tail) == Window(r, m', head, tail)
  {
    forall k | 0 <= k < Count(r, head, tail)
      ensures Window(r, m, head, tail)[k] == Window(r, m', head, tail)[k]
    {
      WindowAt(r, m, head, tail, k);
      WindowAt(r, m', head, tail, k);
    }
  }

  /** Publishing the slot at `head` appends it. */
  lemma WindowPush(r: Ring, m: Memory, head: nat, tail: nat)
    requires head < r.size && tail < r.size && Next(r, head) != tail
    ensures Next(r, head) < r.size
    ensures Window(r, m, Next(r, head), tail) == Window(r, m, head, tail) + [Slot(r, m, head)]
  {
    NextWraps(r, head);
    var h' := Next(r, head);
    assert Count(r, h', tail) == Count(r, head, tail) + 1;
    assert Index(r, tail, Count(r, head, tail)) == head;
    assert Window(r, m, h', tail) == Window(r, m, head, tail) + [Slot(r, m, head)];
  }

  /** Advancing `tail` drops the oldest element. */
  lemma WindowPop(r: Ring, m: Memory, head: nat, tail: nat)
    requires head < r.size && tail < r.size && head != tail
    ensures Next(r, tail) < r.size
    ensures Window(r, m, head, tail) == [Slot(r, m, tail)] + Window(r, m, head, Next(r, tail))
  {
    NextWraps(r, tail);
    var t' := Next(r, tail);
    assert Count(r, head, tail) == Count(r, head, t') + 1;
    assert forall k :: 0 <= k < Count(r, head, t') ==> Index(r, tail, k + 1) == Index(r, t', k);
    assert Window(r, m, head, tail) == [Slot(r, m, tail)] + Window(r, m, head, t');
  }

  lemma FullExactlyWhen(r: Ring, head: nat, tail: nat)
    requires head < r.size && tail < r.size
    ensures Next(r, head) == tail <==> Count(r, head, tail) == r.size - 1
    ensures head == tail <==> Count(r, head, tail) == 0
    ensures Count(r, head, tail) <= r.size - 1
  {
    NextWraps(r, head);
  }

  lemma SameBytes(m: Memory, m': Memory, a: nat, n: nat)
    requires forall b :: a <= b < a + n ==> ByteAt(m, b) == ByteAt(m', b)
    ensures Bytes(m, a, n) == Bytes(m', a, n)
  {
  }

  lemma UpdateBytes(m: Memory, a: nat, n: nat, i: nat, b: byte)
    requires i < n
    ensures Bytes(m[a + i := b], a, n) == Bytes(m, a, n)[i := b]
  {
  }

  /** Writing one byte of slot `h` changes that byte of slot `h` and no other slot. */
  lemma WriteSlotByte(r: Ring, m: Memory, h: nat, i: nat, b: byte)
    requires Sane(r) && h < r.size && i < r.es
    ensures Slot(r, m[SlotBase(r, h) + i := b], h) == Slot(r, m, h)[i := b]
    ensures forall h' :: 0 <= h' < r.size && h' != h ==>
              Slot(r, m[SlotBase(r, h) + i := b], h') == Slot(r, m, h')
  {
    var a := SlotBase(r, h);
    UpdateBytes(m, a, r.es, i, b);
    forall h' | 0 <= h' < r.size && h' != h
      ensures Slot(r, m[a + i := b], h') == Slot(r, m, h')
    {
      SlotsDisjoint(r, h, h');
      SameBytes(m, m[a + i := b], SlotBase(r, h'), r.es);
    }
  }

  /** A write outside the buffer touches no slot. */
  lemma WriteOutside(r: Ring, m: Memory, a: nat, b: byte)
    requires Sane(r) && !InBuffer(r, a)
    ensures forall h :: 0 <= h < r.size ==> Slot(r, m[a := b], h) == Slot(r, m, h)
  {
    forall h | 0 <= h < r.size
      ensures Slot(r, m[a := b], h) == Slot(r, m, h)
    {
      SlotOffset(r, h);
      SameBytes(m, m[a := b], SlotBase(r, h), r.es);
    }
  }
}
