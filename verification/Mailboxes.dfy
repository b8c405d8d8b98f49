/** The host side of the mailboxes (sw/libhero/src/common/hero_api.c): heap blocks with a
    virtual and a physical address, the three mailboxes, and the blocking read and write loops. */
module Mailboxes {
  import opened Common
  import opened Words
  import opened RingModel
  import opened RingBuf
  import Protocol = RingProtocol

  const STRUCT_SIZE: nat := 32   // sizeof(struct ring_buf)
  const DATA_SIZE: nat := 64     // sizeof(uint32_t) * 16

  // ---- the L2 heap, by its contract

  /** A block the allocator may answer with: inside the heap and apart from every live block. */
  ghost predicate CanPlace(start: nat, size: nat, live: map<nat, nat>, a: nat, n: nat) {
    && 0 < n && start <= a && a + n <= start + size
    && forall b :: b in live ==> Apart(a, n, b, live[b])
  }

  /** The L2 heap manager: the blocks handed out, virtual address to size. */
  class Heap {
    const plat: Platform
    const start: nat
    const size: nat
    var live: map<nat, nat>

    constructor (plat: Platform, start: nat, size: nat)
      requires plat.virt <= start
      ensures this.plat == plat && this.start == start && this.size == size && live == map[] && Valid()
    {
      this.plat, this.start, this.size := plat, start, size;
      live := map[];
    }

    ghost predicate Valid()
      reads this
    {
      && plat.virt <= start
      && (forall a :: a in live ==> 0 < live[a] && start <= a && a + live[a] <= start + size)
      && (forall a, b :: a in live && b in live && a != b ==> Apart(a, live[a], b, live[b]))
    }

    /** hero_dev_l2_malloc: the allocator's answer and the physical address behind it. */
    method Malloc(n: nat, answer: nat) returns (result: nat, pAddr: nat)
      requires Valid() && CanPlace(start, size, live, answer, n)
      modifies this
      ensures Valid() && result == answer && pAddr == answer - plat.virt + plat.phy
      ensures answer !in old(live) && live == old(live)[answer := n]
    {
      live := live[answer := n];
      result := answer;
      pAddr := result - plat.virt + plat.phy;
    }

    /** hero_dev_l2_free of a live block. */
    method Release(a: nat)
      requires Valid() && a in live
      modifies this
      ensures Valid() && live == old(live) - {a}
    {
      live := live - {a};
    }
  }

  // ---- the device at the other end, one byte-sized step at a time

  /** A producer that sends the words of `toSend`.  `pc` is where it is inside rb_device_put.  It may
      delay, but not for ever: when it gets a turn it takes at least one step or uses up patience. */
  class Producer {
    const ring: Buffer
    var pc: Protocol.Producer
    var toSend: seq<seq<byte>>
    var patience: nat

    constructor (ring: Buffer, toSend: seq<seq<byte>>, patience: nat)
      ensures this.ring == ring && this.toSend == toSend && this.patience == patience && pc == Protocol.Idle
    {
      this.ring, this.toSend, this.patience := ring, toSend, patience;
      pc := Protocol.Idle;
    }

    /** The state of the ring protocol, the host being at `cons`. */
    ghost function Sys(cons: Protocol.Consumer): Protocol.State
      reads this, ring, ring.plat
    {
      Protocol.State(ring.head, ring.tail, ring.plat.mem, pc, cons)
    }

    ghost predicate Ready(cons: Protocol.Consumer)
      reads this, ring, ring.plat
    {
      && ring.Valid() && ring.size >= 2 && Protocol.Inv(ring.Layout(), Sys(cons))
      && (forall w :: w in toSend ==> |w| == ring.elementSize)
      && (!pc.Idle? ==> toSend != [] && pc.el == toSend[0])
    }

    /** Everything the host can still expect, in order. */
    ghost function Coming(): seq<seq<byte>>
      reads this, ring, ring.plat
      requires ring.Valid()
    {
      ring.Contents() + toSend
    }

    /** Steps left until the word under way is published, if the ring has room. */
    ghost function Work(): nat
      reads this, ring
    {
      if pc.Idle? then ring.elementSize + 3 else Protocol.PutWork(ring.Layout(), pc)
    }

    /** What steps of the producer do: words move from `toSend` to the ring, and while the ring stays
        empty the work on the next one goes on. */
    twostate predicate Moved()
      reads this, ring, ring.plat
      requires old(ring.Valid())
    {
      && ring.Valid() && Coming() == old(Coming()) && ring.Layout() == old(ring.Layout())
      && |old(ring.Contents())| <= |ring.Contents()|
      && SameOutside(ring.Layout(), old(ring.plat.mem), ring.plat.mem)
    }

    twostate predicate Progressed()
      reads this, ring, ring.plat
      requires ring.Valid()
    {
      ring.Contents() == [] && toSend != [] ==> toSend == old(toSend) && Work() < old(Work())
    }

    /** The next step of the put in progress, or the next call. */
    ghost function NextMove(): Protocol.Move
      reads this, ring
      requires !pc.Idle? || toSend != []
    {
      match pc
      case Idle => Protocol.CallPut(toSend[0])
      case Testing(_, _) => Protocol.ReadTail
      case Copying(_, _, i) => if i < ring.elementSize then Protocol.CopyIn else Protocol.PublishHead
    }

    /** Took exactly the step `mv` of the ring protocol; a word leaves `toSend` when its put is done. */
    twostate predicate Took(cons: Protocol.Consumer, mv: Protocol.Move)
      reads this, ring, ring.plat
    {
      var r, s := old(ring.Layout()), old(Sys(cons));
      && Protocol.Inv(r, s) && Protocol.Enabled(r, s, mv) && ring.Layout() == r
      && Sys(cons) == Protocol.Step(r, s, mv).0
      && toSend == if Protocol.Step(r, s, mv).1.PutDone? && old(toSend) != [] then old(toSend)[1..] else old(toSend)
    }

    /** One step: the next one of the ring protocol, or none when there is nothing left to do. */
    method Step(ghost cons: Protocol.Consumer)
      requires Ready(cons)
      modifies this`pc, this`toSend, ring`head, ring.plat
      ensures Ready(cons) && Moved() && Progressed()
      ensures if old(pc).Idle? && old(toSend) == [] then Sys(cons) == old(Sys(cons)) && toSend == []
              else Took(cons, old(NextMove()))
    {
      ghost var r, s := ring.Layout(), Sys(cons);
      FullExactlyWhen(r, ring.head, ring.tail);
      match pc {
        case Idle =>
          if toSend != [] {
            Protocol.StepRefines(r, s, Protocol.CallPut(toSend[0]));
            pc := Protocol.Testing(toSend[0], (ring.head + 1) % ring.size);
          }
        case Testing(el, next) =>
          Protocol.StepRefines(r, s, Protocol.ReadTail);
          pc := if next == ring.tail then Protocol.Idle else Protocol.Copying(el, next, 0);
        case Copying(el, next, i) =>
          if i < ring.elementSize {
            CopyByte(cons);
          } else {
            Publish(cons);
          }
      }
    }

    method CopyByte(ghost cons: Protocol.Consumer)
      requires Ready(cons) && pc.Copying? && pc.i < ring.elementSize
      modifies this`pc, ring.plat
      ensures Ready(cons) && Moved() && Progressed() && Took(cons, Protocol.CopyIn)
    {
      ghost var r, s := ring.Layout(), Sys(cons);
      Protocol.StepRefines(r, s, Protocol.CopyIn);
      SlotInBuffer(r, ring.head, pc.i);
      var a := ring.dataP + ring.elementSize * ring.head % 0x1_0000_0000 + pc.i;
      ring.plat.mem := ring.plat.mem[a := pc.el[pc.i]];
      pc := Protocol.Copying(pc.el, pc.next, pc.i + 1);
      assert Sys(cons) == Protocol.Step(r, s, Protocol.CopyIn).0;
    }

    method Publish(ghost cons: Protocol.Consumer)
      requires Ready(cons) && pc.Copying? && pc.i >= ring.elementSize
      modifies this`pc, this`toSend, ring`head
      ensures Ready(cons) && Moved() && Progressed() && Took(cons, Protocol.PublishHead)
    {
      ghost var r, s, q := ring.Layout(), Sys(cons), ring.Contents();
      Protocol.StepRefines(r, s, Protocol.PublishHead);
      assert toSend == [pc.el] + toSend[1..];
      ring.head := pc.next;
      pc := Protocol.Idle;
      toSend := toSend[1..];
      assert Sys(cons) == Protocol.Step(r, s, Protocol.PublishHead).0;
    }

    /** A turn of the producer: any number of steps. */
    method Run(ghost cons: Protocol.Consumer)
      requires Ready(cons)
      modifies this, ring`head, ring.plat
      ensures Ready(cons) && Moved()
      ensures ring.Contents() == [] && toSend != [] ==>
                && toSend == old(toSend)
                && (Work() < old(Work()) || (Work() == old(Work()) && patience < old(patience)))
    {
      var n: int := *;
      if n <= 0 && patience > 0 {
        patience := patience - 1;
        return;
      }
      Step(cons);
      while n > 1
        invariant Ready(cons) && Moved() && Progressed()
      {
        Step(cons);
        n := n - 1;
      }
      patience := *;
    }
  }

  /** A consumer that takes words in order.  `pc` is where it is inside rb_device_get; it too may
      delay, but not for ever. */
  class Consumer {
    const ring: Buffer
    var pc: Protocol.Consumer
    var taken: seq<seq<byte>>
    var patience: nat

    constructor (ring: Buffer, patience: nat)
      ensures this.ring == ring && taken == [] && this.patience == patience && pc == Protocol.Waiting
    {
      this.ring, this.patience := ring, patience;
      pc, taken := Protocol.Waiting, [];
    }

    /** The state of the ring protocol, the host being at `prod`. */
    ghost function Sys(prod: Protocol.Producer): Protocol.State
      reads this, ring, ring.plat
    {
      Protocol.State(ring.head, ring.tail, ring.plat.mem, prod, pc)
    }

    ghost predicate Ready(prod: Protocol.Producer)
      reads this, ring, ring.plat
    {
      ring.Valid() && ring.size >= 2 && Protocol.Inv(ring.Layout(), Sys(prod))
    }

    /** Everything sent to this consumer so far. */
    ghost function Sent(): seq<seq<byte>>
      reads this, ring, ring.plat
      requires ring.Valid()
    {
      taken + ring.Contents()
    }

    /** Steps left until a word is taken, if there is one. */
    ghost function Work(): nat
      reads this, ring
    {
      if pc.Waiting? then ring.elementSize + 2 else Protocol.GetWork(ring.Layout(), pc)
    }

    twostate predicate Moved()
      reads this, ring, ring.plat
      requires old(ring.Valid())
    {
      && ring.Valid() && Sent() == old(Sent()) && ring.Layout() == old(ring.Layout()) && old(taken) <= taken
      && |ring.Contents()| <= |old(ring.Contents())|
    }

    twostate predicate Progressed()
      reads this, ring, ring.plat
      requires ring.Valid()
    {
      |ring.Contents()| == ring.size - 1 ==> Work() < old(Work())
    }

    /** The next step of the get in progress, or of a new one. */
    ghost function NextMove(): Protocol.Move
      reads this, ring
    {
      match pc
      case Waiting => Protocol.ReadHead
      case Draining(got) => if |got| < ring.elementSize then Protocol.CopyOut else Protocol.PublishTail
    }

    /** Took exactly the step `mv` of the ring protocol; a word is taken when its get is done. */
    twostate predicate Took(prod: Protocol.Producer, mv: Protocol.Move)
      reads this, ring, ring.plat
    {
      var r, s := old(ring.Layout()), old(Sys(prod));
      && Protocol.Inv(r, s) && Protocol.Enabled(r, s, mv) && ring.Layout() == r
      && var (s', e) := Protocol.Step(r, s, mv);
         Sys(prod) == s' && taken == old(taken) + (if e.GetDone? then [e.el] else [])
    }

    /** One step: the next one of the ring protocol. */
    method Step(ghost prod: Protocol.Producer)
      requires Ready(prod)
      modifies this`pc, this`taken, ring`tail
      ensures Ready(prod) && Moved() && Progressed() && Took(prod, old(NextMove()))
    {
      ghost var r, s := ring.Layout(), Sys(prod);
      FullExactlyWhen(r, ring.head, ring.tail);
      match pc {
        case Waiting =>
          Protocol.StepRefines(r, s, Protocol.ReadHead);
          if ring.tail != ring.head {
            pc := Protocol.Draining([]);
          }
        case Draining(got) =>
          if |got| < ring.elementSize {
            Protocol.StepRefines(r, s, Protocol.CopyOut);
            var a := ring.dataP + ring.elementSize * ring.tail % 0x1_0000_0000 + |got|;
            pc := Protocol.Draining(got + [ByteAt(ring.plat.mem, a)]);
          } else {
            Publish(prod);
          }
      }
    }

    method Publish(ghost prod: Protocol.Producer)
      requires Ready(prod) && pc.Draining? && |pc.got| >= ring.elementSize
      modifies this`pc, this`taken, ring`tail
      ensures Ready(prod) && Moved() && Progressed() && Took(prod, Protocol.PublishTail)
    {
      ghost var r, q, before := ring.Layout(), ring.Contents(), taken;
      Protocol.StepRefines(r, Sys(prod), Protocol.PublishTail);
      FullExactlyWhen(r, ring.head, ring.tail);
      var got := pc.got;
      ring.tail := (ring.tail + 1) % ring.size;
      pc := Protocol.Waiting;
      taken := taken + [got];
      assert q == [got] + ring.Contents();
      Assoc(before, [got], ring.Contents());
    }

    /** A turn of the consumer: any number of steps. */
    method Run(ghost prod: Protocol.Producer)
      requires Ready(prod)
      modifies this, ring`tail
      ensures Ready(prod) && Moved()
      ensures |ring.Contents()| == ring.size - 1 ==>
                Work() < old(Work()) || (Work() == old(Work()) && patience < old(patience))
    {
      var n: int := *;
      if n <= 0 && patience > 0 {
        patience := patience - 1;
        return;
      }
      Step(prod);
      while n > 1
        invariant Ready(prod) && Moved() && Progressed()
      {
        Step(prod);
        n := n - 1;
      }
      patience := *;
    }
  }

  // ---- the host's operations, the device taking steps between any two accesses

  /** One byte of the copy loop of rb_host_get. */
  method GetByte(mbox: Buffer, dev: Producer, got: seq<byte>) returns (now: seq<byte>)
    requires dev.ring == mbox && dev.Ready(Protocol.Draining(got)) && |got| < mbox.elementSize
    ensures dev.Ready(Protocol.Draining(now)) && |now| == |got| + 1
  {
    Protocol.StepRefines(mbox.Layout(), dev.Sys(Protocol.Draining(got)), Protocol.CopyOut);
    var a := mbox.plat.ToPhys(mbox.dataV + mbox.elementSize * mbox.tail % 0x1_0000_0000 + |got|);
    now := got + [ByteAt(mbox.plat.mem, a)];
  }

  /** The end of rb_host_get: tail is published. */
  method PublishGet(mbox: Buffer, dev: Producer, got: seq<byte>)
    requires dev.ring == mbox && dev.Ready(Protocol.Draining(got)) && |got| == mbox.elementSize
    modifies mbox`tail
    ensures dev.Ready(Protocol.Waiting) && mbox.Layout() == old(mbox.Layout())
    ensures old(dev.Coming()) == [got] + dev.Coming()
  {
    ghost var r, q := mbox.Layout(), mbox.Contents();
    Protocol.StepRefines(r, dev.Sys(Protocol.Draining(got)), Protocol.PublishTail);
    mbox.tail := (mbox.tail + 1) % mbox.size;
    assert q == [got] + mbox.Contents();
    Assoc([got], mbox.Contents(), dev.toSend);
  }

  /** rb_host_get against a producer that runs before every access to shared memory. */
  method HostGet(mbox: Buffer, dev: Producer) returns (ret: int, word: seq<byte>)
    requires dev.ring == mbox && dev.Ready(Protocol.Waiting) && dev.Coming() != []
    modifies dev, mbox`head, mbox`tail, mbox.plat
    ensures dev.Ready(Protocol.Waiting) && mbox.Layout() == old(mbox.Layout())
    ensures old(dev.Coming()) == (if ret == 0 then [word] else []) + dev.Coming()
    ensures ret != 0 ==>
              dev.Work() < old(dev.Work()) || (dev.Work() == old(dev.Work()) && dev.patience < old(dev.patience))
    ensures SameOutside(mbox.Layout(), old(mbox.plat.mem), mbox.plat.mem)
  {
    ghost var r, all := mbox.Layout(), dev.Coming();
    word := [];
    dev.Run(Protocol.Waiting);
    FullExactlyWhen(r, mbox.head, mbox.tail);
    if mbox.tail == mbox.head {
      return -1, word;
    }
    Protocol.StepRefines(r, dev.Sys(Protocol.Waiting), Protocol.ReadHead);
    while |word| < mbox.elementSize
      modifies dev, mbox`head, mbox.plat
      invariant |word| <= mbox.elementSize && dev.Ready(Protocol.Draining(word))
      invariant mbox.Layout() == r && dev.Coming() == all
      invariant SameOutside(r, old(mbox.plat.mem), mbox.plat.mem)
    {
      dev.Run(Protocol.Draining(word));
      word := GetByte(mbox, dev, word);
    }
    dev.Run(Protocol.Draining(word));
    PublishGet(mbox, dev, word);
    ret := 0;
  }

  /** One byte of the copy loop of rb_host_put. */
  method PutByte(mbox: Buffer, dev: Consumer, word: seq<byte>, nextHead: nat, i: nat)
    requires dev.ring == mbox && i < mbox.elementSize && dev.Ready(Protocol.Copying(word, nextHead, i))
    modifies dev, mbox`tail, mbox.plat
    ensures dev.Ready(Protocol.Copying(word, nextHead, i + 1)) && mbox.Layout() == old(mbox.Layout())
    ensures dev.Sent() == old(dev.Sent()) && old(dev.taken) <= dev.taken
    ensures SameOutside(mbox.Layout(), old(mbox.plat.mem), mbox.plat.mem)
  {
    ghost var r := mbox.Layout();
    dev.Run(Protocol.Copying(word, nextHead, i));
    ghost var s := dev.Sys(Protocol.Copying(word, nextHead, i));
    Protocol.StepRefines(r, s, Protocol.CopyIn);
    SlotInBuffer(r, mbox.head, i);
    var a := mbox.plat.ToPhys(mbox.dataV + mbox.elementSize * mbox.head % 0x1_0000_0000 + i);
    mbox.plat.mem := mbox.plat.mem[a := word[i]];
    assert dev.Sys(Protocol.Copying(word, nextHead, i + 1)) == Protocol.Step(r, s, Protocol.CopyIn).0;
  }

  /** The end of rb_host_put: head is published. */
  method PublishPut(mbox: Buffer, dev: Consumer, word: seq<byte>, nextHead: nat)
    requires dev.ring == mbox && dev.Ready(Protocol.Copying(word, nextHead, mbox.elementSize))
    modifies dev, mbox`head, mbox`tail
    ensures dev.Ready(Protocol.Idle) && mbox.Layout() == old(mbox.Layout())
    ensures dev.Sent() == old(dev.Sent()) + [word] && old(dev.taken) <= dev.taken
  {
    ghost var pc := Protocol.Copying(word, nextHead, mbox.elementSize);
    dev.Run(pc);
    ghost var q := mbox.Contents();
    Protocol.StepRefines(mbox.Layout(), dev.Sys(pc), Protocol.PublishHead);
    mbox.head := nextHead;
    assert mbox.Contents() == q + [word];
    Assoc(dev.taken, q, [word]);
  }

  /** The test of rb_host_put: the consumer runs before tail is read. */
  method TestRoom(mbox: Buffer, dev: Consumer, word: seq<byte>) returns (nextHead: nat, full: bool)
    requires dev.ring == mbox && dev.Ready(Protocol.Idle) && |word| == mbox.elementSize
    modifies dev, mbox`tail
    ensures dev.Ready(if full then Protocol.Idle else Protocol.Copying(word, nextHead, 0))
    ensures mbox.Layout() == old(mbox.Layout()) && dev.Sent() == old(dev.Sent()) && old(dev.taken) <= dev.taken
    ensures full ==>
              dev.Work() < old(dev.Work()) || (dev.Work() == old(dev.Work()) && dev.patience < old(dev.patience))
  {
    Protocol.StepRefines(mbox.Layout(), dev.Sys(Protocol.Idle), Protocol.CallPut(word));
    nextHead := (mbox.head + 1) % mbox.size;
    dev.Run(Protocol.Testing(word, nextHead));
    Protocol.StepRefines(mbox.Layout(), dev.Sys(Protocol.Testing(word, nextHead)), Protocol.ReadTail);
    FullExactlyWhen(mbox.Layout(), mbox.head, mbox.tail);
    full := nextHead == mbox.tail;
  }

  /** rb_host_put against a consumer that runs before every access to shared memory. */
  method HostPut(mbox: Buffer, dev: Consumer, word: seq<byte>) returns (ret: int)
    requires dev.ring == mbox && dev.Ready(Protocol.Idle) && |word| == mbox.elementSize
    modifies dev, mbox`head, mbox`tail, mbox.plat
    ensures dev.Ready(Protocol.Idle) && mbox.Layout() == old(mbox.Layout()) && old(dev.taken) <= dev.taken
    ensures dev.Sent() == old(dev.Sent()) + (if ret == 0 then [word] else [])
    ensures ret != 0 ==>
              dev.Work() < old(dev.Work()) || (dev.Work() == old(dev.Work()) && dev.patience < old(dev.patience))
    ensures SameOutside(mbox.Layout(), old(mbox.plat.mem), mbox.plat.mem)
  {
    var nextHead, full := TestRoom(mbox, dev, word);
    if full {
      return -1;
    }
    var i := 0;
    while i < mbox.elementSize
      modifies dev, mbox`tail, mbox.plat
      invariant i <= mbox.elementSize && dev.Ready(Protocol.Copying(word, nextHead, i))
      invariant mbox.Layout() == old(mbox.Layout())
      invariant dev.Sent() == old(dev.Sent()) && old(dev.taken) <= dev.taken
      invariant SameOutside(mbox.Layout(), old(mbox.plat.mem), mbox.plat.mem)
    {
      PutByte(mbox, dev, word, nextHead, i);
      i := i + 1;
    }
    PublishPut(mbox, dev, word, nextHead);
    ret := 0;
  }

  // ---- the blocking loops

  /** hero_dev_mbox_read on mailbox `mbox`.  The k-th word read lands at buffer[n-1-k]: the words
      arrive in reverse order.  Exactly the next n words are consumed, and the loop ends because the
      producer is fair. */
  method MboxRead(mbox: Buffer, dev: Producer, buffer: array<seq<byte>>, nWords: nat) returns (ret: int)
    requires dev.ring == mbox && dev.Ready(Protocol.Waiting)
    requires buffer.Length >= nWords && |dev.Coming()| >= nWords
    modifies buffer, dev, mbox`head, mbox`tail, mbox.plat
    ensures ret == 0 && dev.Ready(Protocol.Waiting)
    ensures forall k :: 0 <= k < nWords ==> buffer[nWords - 1 - k] == old(dev.Coming())[k]
    ensures forall i :: nWords <= i < buffer.Length ==> buffer[i] == old(buffer[i])
    ensures dev.Coming() == old(dev.Coming())[nWords..]
    ensures mbox.Layout() == old(mbox.Layout())
    ensures SameOutside(mbox.Layout(), old(mbox.plat.mem), mbox.plat.mem)
  {
    ghost var all, was, mem0 := dev.Coming(), buffer[..], mbox.plat.mem;
    var n := nWords;
    while n > 0
      invariant 0 <= n <= nWords <= |all| && dev.Ready(Protocol.Waiting)
      invariant mbox.Layout() == old(mbox.Layout())
      invariant dev.Coming() == all[nWords - n..]
      invariant Filled(all, was, buffer[..], nWords, n)
      invariant SameOutside(mbox.Layout(), mem0, mbox.plat.mem)
    {
      n := n - 1;
      ReadInto(mbox, dev, buffer, nWords, n, all, was, mem0);
    }
    ret := 0;
  }

  /** The next word, into buffer[n]. */
  method ReadInto(mbox: Buffer, dev: Producer, buffer: array<seq<byte>>, nWords: nat, n: nat,
        ghost all: seq<seq<byte>>, ghost was: seq<seq<byte>>, ghost mem0: Memory)
    requires dev.ring == mbox && dev.Ready(Protocol.Waiting) && n < nWords <= |all|
    requires dev.Coming() == all[nWords - n - 1..] && Filled(all, was, buffer[..], nWords, n + 1)
    requires SameOutside(mbox.Layout(), mem0, mbox.plat.mem)
    modifies buffer, dev, mbox`head, mbox`tail, mbox.plat
    ensures dev.Ready(Protocol.Waiting) && mbox.Layout() == old(mbox.Layout())
    ensures dev.Coming() == all[nWords - n..] && Filled(all, was, buffer[..], nWords, n)
    ensures SameOutside(mbox.Layout(), mem0, mbox.plat.mem)
  {
    var word := PollWord(mbox, dev, all, nWords - n - 1);
    ghost var now := buffer[..];
    Fill(all, was, now, nWords, n, word);
    buffer[n] := word;
    assert buffer[..] == now[n := word];
  }

  /** Entries nWords-1 down to n hold the first words of `all`; the others are as before. */
  ghost predicate Filled(all: seq<seq<byte>>, was: seq<seq<byte>>, now: seq<seq<byte>>, nWords: nat, n: nat) {
    && n <= nWords <= |now| == |was| && nWords <= |all|
    && (forall k :: 0 <= k < nWords - n ==> now[nWords - 1 - k] == all[k])
    && (forall i :: 0 <= i < n || nWords <= i < |now| ==> now[i] == was[i])
  }

  lemma Fill(all: seq<seq<byte>>, was: seq<seq<byte>>, now: seq<seq<byte>>, nWords: nat, n: nat, word: seq<byte>)
    requires n + 1 <= nWords && Filled(all, was, now, nWords, n + 1) && word == all[nWords - n - 1]
    ensures Filled(all, was, now[n := word], nWords, n)
  {
  }

  lemma NextOf<T>(all: seq<T>, k: nat)
    requires k < |all|
    ensures all[k..] != [] && all[k..][0] == all[k] && all[k..][1..] == all[k + 1..]
  {
  }

  /** The inner do-while: poll until rb_host_get succeeds.  `all` is everything that was coming
      and `k` how much of it has been read. */
  method PollWord(mbox: Buffer, dev: Producer, ghost all: seq<seq<byte>>, ghost k: nat) returns (word: seq<byte>)
    requires dev.ring == mbox && dev.Ready(Protocol.Waiting) && k < |all| && dev.Coming() == all[k..]
    modifies dev, mbox`head, mbox`tail, mbox.plat
    ensures dev.Ready(Protocol.Waiting) && mbox.Layout() == old(mbox.Layout())
    ensures word == all[k] && dev.Coming() == all[k + 1..]
    ensures SameOutside(mbox.Layout(), old(mbox.plat.mem), mbox.plat.mem)
  {
    NextOf(all, k);
    var ret := -1;
    word := [];
    while ret != 0
      invariant dev.Ready(Protocol.Waiting)
      invariant mbox.Layout() == old(mbox.Layout())
      invariant if ret != 0 then dev.Coming() == all[k..] else word == all[k] && dev.Coming() == all[k + 1..]
      invariant SameOutside(mbox.Layout(), old(mbox.plat.mem), mbox.plat.mem)
      decreases ret != 0, dev.Work(), dev.patience
    {
      ghost var left := dev.Coming();
      ret, word := HostGet(mbox, dev);
      assert ret == 0 ==> left == [word] + dev.Coming() && left[1..] == dev.Coming();
    }
  }

  /** hero_dev_mbox_write: polls until there is room; the word follows everything sent before. */
  method MboxWrite(mbox: Buffer, dev: Consumer, word: seq<byte>) returns (ret: int)
    requires dev.ring == mbox && dev.Ready(Protocol.Idle) && |word| == mbox.elementSize
    modifies dev, mbox`head, mbox`tail, mbox.plat
    ensures ret == 0 && dev.Ready(Protocol.Idle)
    ensures mbox.Layout() == old(mbox.Layout())
    ensures old(dev.taken) <= dev.taken && dev.Sent() == old(dev.Sent()) + [word]
    ensures SameOutside(mbox.Layout(), old(mbox.plat.mem), mbox.plat.mem)
  {
    ret := -1;
    while ret != 0
      invariant dev.Ready(Protocol.Idle) && old(dev.taken) <= dev.taken
      invariant mbox.Layout() == old(mbox.Layout())
      invariant dev.Sent() == old(dev.Sent()) + (if ret == 0 then [word] else [])
      invariant SameOutside(mbox.Layout(), old(mbox.plat.mem), mbox.plat.mem)
      decreases ret != 0, dev.Work(), dev.patience
    {
      ret := HostPut(mbox, dev, word);
    }
  }

  // ---- the three mailboxes of a device

  class HeroDev {
    const plat: Platform
    const heap: Heap
    var h2a: Buffer?
    var a2h: Buffer?
    var rb: Buffer?
    var h2aAddr: nat
    var a2hAddr: nat
    var rbAddr: nat

    constructor (plat: Platform, heap: Heap)
      requires heap.plat == plat
      ensures this.plat == plat && this.heap == heap && h2a == null && a2h == null && rb == null
    {
      this.plat, this.heap := plat, heap;
      h2a, a2h, rb := null, null, null;
      h2aAddr, a2hAddr, rbAddr := 0, 0, 0;
    }

    /** A mailbox: its struct and its data are live heap blocks, its two data pointers name the
        same bytes, and its 16 words fit the data block. */
    ghost predicate Mailbox(b: Buffer, addr: nat)
      reads b, heap
    {
      && b.plat == plat && b.Valid() && b.size == 16 && b.elementSize == 4
      && addr in heap.live && heap.live[addr] == STRUCT_SIZE
      && b.dataV in heap.live && heap.live[b.dataV] == DATA_SIZE
    }

    ghost predicate Valid()
      reads this, h2a, a2h, rb, heap
    {
      && heap.plat == plat && heap.Valid()
      && h2a != null && a2h != null && rb != null
      && h2a != a2h && a2h != rb && h2a != rb
      && Mailbox(h2a, h2aAddr) && Mailbox(a2h, a2hAddr) && Mailbox(rb, rbAddr)
      && h2aAddr != a2hAddr && a2hAddr != rbAddr && h2aAddr != rbAddr
      && h2a.dataV != a2h.dataV && a2h.dataV != rb.dataV && h2a.dataV != rb.dataV
    }

    /** The six heap blocks of the three mailboxes. */
    ghost function Blocks(): set<nat>
      reads this, h2a, a2h, rb
      requires h2a != null && a2h != null && rb != null
    {
      {h2aAddr, a2hAddr, rbAddr, h2a.dataV, a2h.dataV, rb.dataV}
    }

    /** The live blocks after one mailbox more. */
    ghost function WithMbox(live: map<nat, nat>, sa: nat, da: nat): map<nat, nat> {
      live[sa := STRUCT_SIZE][da := DATA_SIZE]
    }

    /** The allocator may answer a request for a struct with `sa` and the next, for its data, with `da`. */
    ghost predicate MayAnswer(live: map<nat, nat>, sa: nat, da: nat) {
      && CanPlace(heap.start, heap.size, live, sa, STRUCT_SIZE)
      && CanPlace(heap.start, heap.size, live[sa := STRUCT_SIZE], da, DATA_SIZE)
    }

    lemma NewMbox(live: map<nat, nat>, sa: nat, da: nat)
      requires (forall b :: b in live ==> live[b] > 0) && MayAnswer(live, sa, da)
      ensures sa !in live && da !in live && sa != da
      ensures WithMbox(live, sa, da).Keys == live.Keys + {sa, da}
      ensures WithMbox(live, sa, da) - {sa, da} == live
    {
      var l1 := live[sa := STRUCT_SIZE];
      assert sa !in live;
      assert da !in l1;
    }

    /** The struct of one mailbox and its data array, the allocator answering `sa` and `da`. */
    method AllocMbox(sa: nat, da: nat) returns (b: Buffer, addr: nat)
      requires heap.plat == plat && heap.Valid() && MayAnswer(heap.live, sa, da)
      modifies heap
      ensures fresh(b) && b.plat == plat && b.dataV == da && b.dataP == plat.ToPhys(da) && addr == sa
      ensures heap.Valid() && plat.virt <= da
      ensures heap.live == WithMbox(old(heap.live), sa, da)
    {
      var p, dv, dp;
      addr, p := heap.Malloc(STRUCT_SIZE, sa);
      dv, dp := heap.Malloc(DATA_SIZE, da);
      b := new Buffer(plat, dv, dp);
    }

    /** Answers the allocator may give to the six requests of hero_dev_alloc_mboxes. */
    ghost predicate Answers(live: map<nat, nat>, a: seq<nat>) {
      && |a| == 6
      && MayAnswer(live, a[0], a[1])
      && MayAnswer(WithMbox(live, a[0], a[1]), a[2], a[3])
      && MayAnswer(WithMbox(WithMbox(live, a[0], a[1]), a[2], a[3]), a[4], a[5])
    }

    /** hero_dev_alloc_mboxes: three empty mailboxes in six new blocks, whose virtual and physical
        data pointers agree. */
    method AllocMboxes(answers: seq<nat>) returns (ret: int)
      requires heap.plat == plat && heap.Valid() && Answers(heap.live, answers)
      modifies this, heap
      ensures ret == 0 && Valid() && fresh(h2a) && fresh(a2h) && fresh(rb)
      ensures h2a.Contents() == [] && a2h.Contents() == [] && rb.Contents() == []
      ensures forall b :: b in {h2a, a2h, rb} ==>
                && b.size == 16 && b.elementSize == 4 && b.dataP == b.dataV - plat.virt + plat.phy
                && heap.live[b.dataV] == 64
      ensures forall a :: a in {h2aAddr, a2hAddr, rbAddr} ==> heap.live[a] == 32
      ensures Blocks() !! old(heap.live).Keys
      ensures heap.live.Keys == old(heap.live).Keys + Blocks()
      ensures heap.live - Blocks() == old(heap.live)
    {
      ThreeMboxes(heap.live, answers);
      AllocBlocks(answers);
      a2h.Init(16, 4);
      h2a.Init(16, 4);
      rb.Init(16, 4);
      SixteenWordsFit(h2a.Layout());
      SixteenWordsFit(a2h.Layout());
      SixteenWordsFit(rb.Layout());
      ret := 0;
    }

    ghost predicate Allocated(b: Buffer, da: nat)
      reads b
    {
      b.plat == plat && plat.virt <= da && b.dataV == da && b.dataP == plat.ToPhys(da)
    }

    /** The six allocations of hero_dev_alloc_mboxes, in its order. */
    method AllocBlocks(a: seq<nat>)
      requires heap.plat == plat && heap.Valid() && Answers(heap.live, a)
      modifies this, heap
      ensures h2a != null && a2h != null && rb != null && fresh(h2a) && fresh(a2h) && fresh(rb)
      ensures h2a != a2h && a2h != rb && h2a != rb && heap.Valid()
      ensures Allocated(h2a, a[1]) && Allocated(a2h, a[3]) && Allocated(rb, a[5])
      ensures h2aAddr == a[0] && a2hAddr == a[2] && rbAddr == a[4]
      ensures heap.live == AllMboxes(old(heap.live), a)
    {
      var b1, b2, b3;
      b1, h2aAddr := AllocMbox(a[0], a[1]);
      b2, a2hAddr := AllocMbox(a[2], a[3]);
      b3, rbAddr := AllocMbox(a[4], a[5]);
      h2a, a2h, rb := b1, b2, b3;
    }

    /** The live blocks once the allocator gave its six answers. */
    ghost function AllMboxes(live: map<nat, nat>, a: seq<nat>): map<nat, nat>
      requires |a| == 6
    {
      WithMbox(WithMbox(WithMbox(live, a[0], a[1]), a[2], a[3]), a[4], a[5])
    }

    lemma ThreeMboxes(live: map<nat, nat>, a: seq<nat>)
      requires (forall b :: b in live ==> live[b] > 0) && Answers(live, a)
      ensures var s := {a[0], a[2], a[4], a[1], a[3], a[5]};
              s !! live.Keys && AllMboxes(live, a).Keys == live.Keys + s && AllMboxes(live, a) - s == live
      ensures a[0] != a[2] && a[2] != a[4] && a[0] != a[4] && a[1] != a[3] && a[3] != a[5] && a[1] != a[5]
      ensures forall i {:trigger a[i]} :: 0 <= i < 6 ==>
                a[i] in AllMboxes(live, a)
                && AllMboxes(live, a)[a[i]] == if i % 2 == 0 then STRUCT_SIZE else DATA_SIZE
    {
      var l1 := WithMbox(live, a[0], a[1]);
      var l2 := WithMbox(l1, a[2], a[3]);
      NewMbox(live, a[0], a[1]);
      NewMbox(l1, a[2], a[3]);
      NewMbox(l2, a[4], a[5]);
    }

    lemma SixteenWordsFit(r: Ring)
      requires r.size == 16 && r.es == 4
      ensures Sane(r)
    {
    }

    /** Reads the data pointer out of a struct that is still allocated. */
    method DataOf(b: Buffer, addr: nat) returns (v: nat)
      requires addr in heap.live
      ensures v == b.dataV
    {
      v := b.dataV;
    }

    method FreeMbox(b: Buffer, addr: nat)
      requires heap.Valid() && addr in heap.live && b.dataV in heap.live && b.dataV != addr
      modifies heap
      ensures heap.Valid() && heap.live == old(heap.live) - {addr, b.dataV}
    {
      var v := DataOf(b, addr);
      heap.Release(v);
      heap.Release(addr);
    }

    /** hero_dev_free_mboxes: each data array, then the struct its address was read from. */
    method FreeMboxes() returns (ret: int)
      requires Valid()
      modifies heap
      ensures ret == 0 && heap.Valid()
      ensures heap.live == old(heap.live) - Blocks()
    {
      FreeMbox(h2a, h2aAddr);
      FreeMbox(a2h, a2hAddr);
      FreeMbox(rb, rbAddr);
      ret := 0;
    }

    /** Two mailboxes of a valid device never share a byte, physically or virtually. */
    lemma BuffersApart(b: Buffer, c: Buffer, addrB: nat, addrC: nat)
      requires heap.plat == plat && heap.Valid() && Mailbox(b, addrB) && Mailbox(c, addrC) && b.dataV != c.dataV
      ensures forall a: nat :: InBuffer(c.Layout(), a) ==> !InBuffer(b.Layout(), a)
    {
    }

    /** Writing a command leaves the other two mailboxes exactly as they were. */
    method Write(dev: Consumer, word: seq<byte>) returns (ret: int)
      requires Valid() && dev.ring == h2a && dev.Ready(Protocol.Idle) && |word| == 4
      modifies dev, h2a`head, h2a`tail, plat
      ensures ret == 0 && Valid() && dev.Sent() == old(dev.Sent()) + [word]
      ensures a2h.Contents() == old(a2h.Contents()) && rb.Contents() == old(rb.Contents())
    {
      BuffersApart(h2a, a2h, h2aAddr, a2hAddr);
      BuffersApart(h2a, rb, h2aAddr, rbAddr);
      ghost var m := plat.mem;
      ret := MboxWrite(h2a, dev, word);
      OtherRingUnchanged(h2a.Layout(), a2h.Layout(), m, plat.mem, a2h.head, a2h.tail);
      OtherRingUnchanged(h2a.Layout(), rb.Layout(), m, plat.mem, rb.head, rb.tail);
    }

    /** Reading answers leaves the other two mailboxes exactly as they were. */
    method Read(dev: Producer, buffer: array<seq<byte>>, nWords: nat) returns (ret: int)
      requires Valid() && dev.ring == a2h && dev.Ready(Protocol.Waiting)
      requires buffer.Length >= nWords && |dev.Coming()| >= nWords
      modifies buffer, dev, a2h`head, a2h`tail, plat
      ensures ret == 0 && Valid() && dev.Ready(Protocol.Waiting)
      ensures forall k :: 0 <= k < nWords ==> buffer[nWords - 1 - k] == old(dev.Coming())[k]
      ensures dev.Coming() == old(dev.Coming())[nWords..]
      ensures h2a.Contents() == old(h2a.Contents()) && rb.Contents() == old(rb.Contents())
    {
      BuffersApart(a2h, h2a, a2hAddr, h2aAddr);
      BuffersApart(a2h, rb, a2hAddr, rbAddr);
      ghost var m := plat.mem;
      ret := MboxRead(a2h, dev, buffer, nWords);
      OtherRingUnchanged(a2h.Layout(), h2a.Layout(), m, plat.mem, h2a.head, h2a.tail);
      OtherRingUnchanged(a2h.Layout(), rb.Layout(), m, plat.mem, rb.head, rb.tail);
    }
  }

  /** Allocating and freeing the mailboxes leaves the live blocks as they were. */
  method AllocThenFree(dev: HeroDev, answers: seq<nat>)
    requires dev.heap.plat == dev.plat && dev.heap.Valid() && dev.Answers(dev.heap.live, answers)
    modifies dev, dev.heap
    ensures dev.heap.live == old(dev.heap.live)
  {
    var r := dev.AllocMboxes(answers);
    r := dev.FreeMboxes();
  }
}
