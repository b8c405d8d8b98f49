/** The ring buffer operations as the host and the device run them
    (sw/libhero/include/libhero/ringbuf.h), each against the decoded queue. */
module RingBuf {
  import opened Words
  import opened RingModel

  /** Physical memory and the offset of the host's mapping of it. */
  class Platform {
    var mem: Memory
    const virt: nat
    const phy: nat

    constructor (virt: nat, phy: nat)
      ensures this.virt == virt && this.phy == phy && mem == map[]
    {
      this.virt, this.phy := virt, phy;
      mem := map[];
    }

    /** Physical address behind a host virtual address. */
    function ToPhys(v: nat): int { v - virt + phy }
  }

  class Buffer {
    const plat: Platform
    var head: nat
    var size: nat
    var tail: nat
    var elementSize: nat
    var dataV: nat
    var dataP: nat

    /** The struct as allocated, before rb_init. */
    constructor (plat: Platform, dataV: nat, dataP: nat)
      ensures this.plat == plat && this.dataV == dataV && this.dataP == dataP
    {
      this.plat, this.dataV, this.dataP := plat, dataV, dataP;
      head, size, tail, elementSize := 0, 0, 0, 0;
    }

    ghost function Layout(): Ring
      reads this
    {
      Ring(dataP, size, elementSize)
    }

    ghost predicate Valid()
      reads this
    {
      Sane(Layout()) && head < size && tail < size && plat.virt <= dataV && plat.ToPhys(dataV) == dataP
    }

    ghost function Contents(): seq<seq<byte>>
      reads this, plat
      requires Valid()
    {
      Window(Layout(), plat.mem, head, tail)
    }

    /** rb_init: an empty ring; the data pointers stay. */
    method Init(newSize: nat, newElementSize: nat)
      modifies this
      ensures head == 0 && tail == 0 && size == newSize && elementSize == newElementSize
      ensures dataV == old(dataV) && dataP == old(dataP)
      ensures Valid() ==> Contents() == []
    {
      tail := 0;
      head := 0;
      size := newSize;
      elementSize := newElementSize;
    }

    /** What a put does: -1 and no change exactly when size-1 elements are queued, else append. */
    twostate predicate PutEffect(el: seq<byte>, ret: int)
      reads this, plat
      requires old(Valid())
    {
      && Valid() && Layout() == old(Layout()) && tail == old(tail) && dataV == old(dataV)
      && (if |old(Contents())| == size - 1
          then ret == -1 && head == old(head) && plat.mem == old(plat.mem)
          else ret == 0 && Contents() == old(Contents()) + [el])
      && SameOutside(Layout(), old(plat.mem), plat.mem)
    }

    method DevicePut(el: seq<byte>) returns (ret: int)
      requires Valid() && |el| == elementSize
      modifies this`head, plat
      ensures PutEffect(el, ret)
    {
      ghost var r, m0 := Layout(), plat.mem;
      FullExactlyWhen(r, head, tail);
      var nextHead := (head + 1) % size;
      if nextHead == tail {
        return -1;
      }
      var i := 0;
      while i < elementSize
        modifies plat
        invariant i <= elementSize
        invariant CopiedIn(r, m0, plat.mem, head, el, i)
      {
        CopiedInStep(r, m0, plat.mem, head, el, i);
        var a := dataP + elementSize * head % 0x1_0000_0000 + i;
        plat.mem := plat.mem[a := el[i]];
        i := i + 1;
      }
      CopiedInDone(r, m0, plat.mem, head, tail, el);
      head := nextHead;
      ret := 0;
    }

    method HostPut(el: seq<byte>) returns (ret: int)
      requires Valid() && |el| == elementSize
      modifies this`head, plat
      ensures PutEffect(el, ret)
    {
      ghost var r, m0 := Layout(), plat.mem;
      FullExactlyWhen(r, head, tail);
      var nextHead := (head + 1) % size;
      if nextHead == tail {
        return -1;
      }
      var i := 0;
      while i < elementSize
        modifies plat
        invariant i <= elementSize
        invariant CopiedIn(r, m0, plat.mem, head, el, i)
      {
        CopiedInStep(r, m0, plat.mem, head, el, i);
        var a := plat.ToPhys(dataV + elementSize * head % 0x1_0000_0000 + i);
        plat.mem := plat.mem[a := el[i]];
        i := i + 1;
      }
      CopiedInDone(r, m0, plat.mem, head, tail, el);
      head := nextHead;
      ret := 0;
    }

    /** What a get does: -1 exactly when nothing is queued, else remove the oldest element. */
    twostate predicate GetEffect(el: seq<byte>, ret: int)
      reads this, plat
      requires old(Valid())
    {
      && Valid() && Layout() == old(Layout()) && head == old(head) && dataV == old(dataV)
      && plat.mem == old(plat.mem)
      && (if old(Contents()) == []
          then ret == -1 && tail == old(tail)
          else ret == 0 && el == old(Contents())[0] && Contents() == old(Contents())[1..])
    }

    method HostGet() returns (ret: int, el: seq<byte>)
      requires Valid()
      modifies this`tail
      ensures GetEffect(el, ret)
    {
      el := [];
      ghost var r := Layout();
      if tail == head {
        return -1, el;
      }
      WindowPop(r, plat.mem, head, tail);
      ghost var slot := Slot(r, plat.mem, tail);
      var i := 0;
      while i < elementSize
        invariant i <= elementSize && el == slot[..i]
      {
        var b := ByteAt(plat.mem, plat.ToPhys(dataV + elementSize * tail % 0x1_0000_0000 + i));
        assert b == slot[i];
        el := el + [b];
        i := i + 1;
      }
      tail := (tail + 1) % size;
      ret := 0;
    }

    method DeviceGet() returns (ret: int, el: seq<byte>)
      requires Valid()
      modifies this`tail
      ensures GetEffect(el, ret)
    {
      el := [];
      ghost var r := Layout();
      if tail == head {
        return -1, el;
      }
      WindowPop(r, plat.mem, head, tail);
      ghost var slot := Slot(r, plat.mem, tail);
      var i := 0;
      while i < elementSize
        invariant i <= elementSize && el == slot[..i]
      {
        var b := ByteAt(plat.mem, dataP + elementSize * tail % 0x1_0000_0000 + i);
        assert b == slot[i];
        el := el + [b];
        i := i + 1;
      }
      tail := (tail + 1) % size;
      ret := 0;
    }
  }

  /** Both directions through an empty ring: what one side puts the other side gets, and the ring is
      empty again. */
  method RoundTrip(b: Buffer, el: seq<byte>, fromHost: bool) returns (ret: int, got: seq<byte>)
    requires b.Valid() && b.size >= 2 && b.Contents() == [] && |el| == b.elementSize
    modifies b`head, b`tail, b.plat
    ensures ret == 0 && got == el && b.Valid() && b.Contents() == []
  {
    if fromHost {
      ret := b.HostPut(el);
      ret, got := b.DeviceGet();
    } else {
      ret := b.DevicePut(el);
      ret, got := b.HostGet();
    }
  }

  // ---- the copy loop of a put

  /** `i` bytes of `el` are in slot `h`; no other slot and nothing outside the buffer changed. */
  ghost predicate CopiedIn(r: Ring, m0: Memory, m: Memory, h: nat, el: seq<byte>, i: nat) {
    && Sane(r) && h < r.size && |el| == r.es && i <= r.es
    && Slot(r, m, h)[..i] == el[..i]
    && (forall h' :: 0 <= h' < r.size && h' != h ==> Slot(r, m0, h') == Slot(r, m, h'))
    && SameOutside(r, m0, m)
  }

  lemma CopiedInStep(r: Ring, m0: Memory, m: Memory, h: nat, el: seq<byte>, i: nat)
    requires CopiedIn(r, m0, m, h, el, i) && i < r.es
    ensures CopiedIn(r, m0, m[SlotBase(r, h) + i := el[i]], h, el, i + 1)
  {
    WriteSlotByte(r, m, h, i, el[i]);
    SlotInBuffer(r, h, i);
    var s, s' := Slot(r, m, h), Slot(r, m[SlotBase(r, h) + i := el[i]], h);
    assert s'[..i + 1] == s[..i] + [el[i]];
    assert el[..i + 1] == el[..i] + [el[i]];
  }

  lemma CopiedInDone(r: Ring, m0: Memory, m: Memory, h: nat, t: nat, el: seq<byte>)
    requires CopiedIn(r, m0, m, h, el, r.es) && t < r.size && Next(r, h) != t
    ensures Next(r, h) < r.size
    ensures Window(r, m, Next(r, h), t) == Window(r, m0, h, t) + [el]
  {
    assert Slot(r, m, h)[..r.es] == Slot(r, m, h) && el[..r.es] == el;
    WindowFrame(r, m0, m, h, t);
    WindowPush(r, m, h, t);
  }

  /** A ring whose buffer lies elsewhere is not affected by a write into this one. */
  lemma OtherRingUnchanged(r: Ring, other: Ring, m: Memory, m': Memory, head: nat, tail: nat)
    requires Sane(other) && head < other.size && tail < other.size
    requires SameOutside(r, m, m')
    requires forall a: nat :: InBuffer(other, a) ==> !InBuffer(r, a)
    ensures Window(other, m, head, tail) == Window(other, m', head, tail)
  {
    forall h | 0 <= h < other.size
      ensures Slot(other, m, h) == Slot(other, m', h)
    {
      SlotOffset(other, h);
      SameBytes(m, m', SlotBase(other, h), other.es);
    }
    WindowFrame(other, m, m', head, tail);
  }
}
