/** The ring protocol is a FIFO exactly for layouts whose slot offsets fit 32 bits: for any other
    there is a run in which the consumer gets something that was never put. */
module RingOverlap {
  import opened Words
  import opened RingModel
  import opened RingProtocol

  datatype Trace = Trace(states: seq<State>, moves: seq<Move>, events: seq<Event>)

  ghost predicate IsRun(r: Ring, t: Trace) {
    Run(r, t.states, t.moves, t.events)
  }

  function Last(t: Trace): State
    requires |t.states| > 0
  {
    t.states[|t.states| - 1]
  }

  function Produced(t: Trace): seq<seq<byte>> { Puts(t.events, |t.events|) }

  function Consumed(t: Trace): seq<seq<byte>> { Gets(t.events, |t.events|) }

  /** Nobody is inside a call. */
  predicate AtRest(s: State) { s.prod.Idle? && s.cons.Waiting? }

  // ---- building runs

  lemma {:induction false} EarlierEvents(events: seq<Event>, e: Event, n: nat)
    requires n <= |events|
    ensures Puts(events + [e], n) == Puts(events, n) && Gets(events + [e], n) == Gets(events, n)
  {
    if n > 0 {
      EarlierEvents(events, e, n - 1);
    }
  }

  lemma Extend(r: Ring, t: Trace, mv: Move) returns (t': Trace)
    requires IsRun(r, t) && r.size >= 1 && Enabled(r, Last(t), mv)
    requires Last(t).prod.Copying? ==> |Last(t).prod.el| == r.es
    ensures var (s, e) := Step(r, Last(t), mv);
            && IsRun(r, t') && Last(t') == s
            && Produced(t') == Produced(t) + (if e.PutDone? then [e.el] else [])
            && Consumed(t') == Consumed(t) + (if e.GetDone? then [e.el] else [])
  {
    var (s, e) := Step(r, Last(t), mv);
    t' := Trace(t.states + [s], t.moves + [mv], t.events + [e]);
    forall i | 0 <= i < |t'.moves|
      ensures Transition(r, t'.states[i], t'.moves[i], t'.states[i + 1], t'.events[i])
    {
      if i < |t.moves| {
        assert Transition(r, t.states[i], t.moves[i], t.states[i + 1], t.events[i]);
      }
    }
    EarlierEvents(t.events, e, |t.events|);
  }

  /** The first i bytes of el are in slot h, and nothing else changed. */
  ghost predicate Written(r: Ring, m: Memory, m': Memory, h: nat, el: seq<byte>, i: nat)
    requires i <= |el|
  {
    var a0 := SlotBase(r, h);
    forall a: nat :: ByteAt(m', a) == if a0 <= a < a0 + i then el[a - a0] else ByteAt(m, a)
  }

  lemma CopyWhole(r: Ring, t: Trace) returns (t': Trace)
    requires IsRun(r, t) && r.size >= 1 && Last(t).prod.Copying? && Last(t).prod.i == 0
    requires |Last(t).prod.el| == r.es
    ensures IsRun(r, t') && Produced(t') == Produced(t) && Consumed(t') == Consumed(t)
    ensures var s := Last(t);
            && Last(t') == s.(mem := Last(t').mem, prod := Copying(s.prod.el, s.prod.next, r.es))
            && Written(r, s.mem, Last(t').mem, s.head, s.prod.el, r.es)
  {
    t' := t;
    var s, i := Last(t), 0;
    while i < r.es
      invariant 0 <= i <= r.es && IsRun(r, t') && Produced(t') == Produced(t) && Consumed(t') == Consumed(t)
      invariant Last(t') == s.(mem := Last(t').mem, prod := Copying(s.prod.el, s.prod.next, i))
      invariant Written(r, s.mem, Last(t').mem, s.head, s.prod.el, i)
    {
      t' := Extend(r, t', CopyIn);
      i := i + 1;
    }
  }

  /** A whole put that nobody interrupts. */
  lemma Put(r: Ring, t: Trace, el: seq<byte>) returns (t': Trace)
    requires IsRun(r, t) && Fields(r) && AtRest(Last(t)) && |el| == r.es
    requires Last(t).head < r.size && Next(r, Last(t).head) != Last(t).tail
    ensures IsRun(r, t') && Produced(t') == Produced(t) + [el] && Consumed(t') == Consumed(t)
    ensures AtRest(Last(t')) && Last(t').head == Next(r, Last(t).head) && Last(t').tail == Last(t).tail
    ensures Written(r, Last(t).mem, Last(t').mem, Last(t).head, el, r.es)
  {
    var t1 := Extend(r, t, CallPut(el));
    var t2 := Extend(r, t1, ReadTail);
    var t3 := CopyWhole(r, t2);
    t' := Extend(r, t3, PublishHead);
  }

  /** A whole get that nobody interrupts. */
  lemma Get(r: Ring, t: Trace) returns (t': Trace)
    requires IsRun(r, t) && Fields(r) && AtRest(Last(t)) && Last(t).head != Last(t).tail
    ensures IsRun(r, t') && Produced(t') == Produced(t)
    ensures Consumed(t') == Consumed(t) + [Slot(r, Last(t).mem, Last(t).tail)]
    ensures AtRest(Last(t')) && Last(t').head == Last(t).head && Last(t').tail == Next(r, Last(t).tail)
    ensures Last(t').mem == Last(t).mem
  {
    var s := Last(t);
    var slot := Slot(r, s.mem, s.tail);
    t' := Extend(r, t, ReadHead);
    var i := 0;
    assert slot[..0] == [];
    while i < r.es
      invariant 0 <= i <= r.es && IsRun(r, t') && Produced(t') == Produced(t) && Consumed(t') == Consumed(t)
      invariant Last(t') == s.(cons := Draining(slot[..i]))
    {
      t' := Extend(r, t', CopyOut);
      assert slot[..i + 1] == slot[..i] + [slot[i]];
      i := i + 1;
    }
    assert slot[..r.es] == slot;
    t' := Extend(r, t', PublishTail);
  }

  // ---- a run that is not a FIFO run

  ghost predicate Blank(m: Memory) { forall a: nat :: ByteAt(m, a) == 0 }

  function Constant(n: nat, b: byte): (el: seq<byte>)
    ensures |el| == n && forall i :: 0 <= i < n ==> el[i] == b
  {
    seq(n, _ => b)
  }

  /** Turns the ring by k slots of zeros, each got as soon as it was put. */
  lemma Turned(r: Ring, k: nat) returns (t: Trace)
    requires Fields(r) && 2 <= k < r.size
    ensures IsRun(r, t) && AtRest(Last(t)) && Last(t).head == Last(t).tail == k && Blank(Last(t).mem)
    ensures |Produced(t)| == |Consumed(t)| == k
  {
    t := Trace([State(0, 0, map[], Idle, Waiting)], [], []);
    var i := 0;
    while i < k
      invariant 0 <= i <= k && IsRun(r, t) && AtRest(Last(t)) && Last(t).head == Last(t).tail == i
      invariant Blank(Last(t).mem) && |Produced(t)| == |Consumed(t)| == i
    {
      NextWraps(r, i);
      t := Put(r, t, Constant(r.es, 0));
      t := Get(r, t);
      i := i + 1;
    }
  }

  /** Fills slots k to size-1 with zeros. */
  lemma ZerosWait(r: Ring, k: nat) returns (t: Trace)
    requires Fields(r) && 2 <= k < r.size
    ensures IsRun(r, t) && AtRest(Last(t)) && Last(t).head == 0 && Last(t).tail == k && Blank(Last(t).mem)
    ensures |Consumed(t)| == k < |Produced(t)| && Produced(t)[k] == Constant(r.es, 0)
  {
    t := Turned(r, k);
    NextWraps(r, k);
    t := Put(r, t, Constant(r.es, 0));
    var i := k + 1;
    while i < r.size
      invariant k + 1 <= i <= r.size && IsRun(r, t) && AtRest(Last(t))
      invariant Last(t).head == (if i == r.size then 0 else i) && Last(t).tail == k && Blank(Last(t).mem)
      invariant |Consumed(t)| == k < |Produced(t)| && Produced(t)[k] == Constant(r.es, 0)
    {
      NextWraps(r, i);
      t := Put(r, t, Constant(r.es, 0));
      i := i + 1;
    }
  }

  /** When slot k begins inside slot 0, an element of ones put into slot 0 spoils the zeros that wait
      in slot k. */
  lemma Spoiled(r: Ring) returns (t: Trace)
    requires Fields(r) && !Sane(r)
    ensures IsRun(r, t) && !(Consumed(t) <= Produced(t))
  {
    var k := WrappedSlot(r);
    t := ZerosWait(r, k);
    NextWraps(r, 0);
    t := Put(r, t, Constant(r.es, 1));
    var spoiled := Slot(r, Last(t).mem, k);
    assert spoiled[0] == ByteAt(Last(t).mem, SlotBase(r, k)) == 1;
    assert Produced(t)[k] == Constant(r.es, 0);
    t := Get(r, t);
    assert Consumed(t)[k] == spoiled;
  }

  /** The first slot whose offset wraps begins inside slot 0. */
  lemma WrappedSlot(r: Ring) returns (k: nat)
    requires Fields(r) && !Sane(r)
    ensures 2 <= k < r.size && SlotBase(r, 0) <= SlotBase(r, k) < SlotBase(r, 0) + r.es
  {
    assert 0 * (r.size - 1) == 0;
    assert r.es >= 1;
    k := FirstWrappedSlot(r);
    assert r.es * 0 == 0;
    assert r.es * 1 == r.es;
  }

  /** In every run what was got is a prefix of what was put, exactly for sane layouts. */
  lemma FifoExactlyWhenSane(r: Ring)
    requires Fields(r)
    ensures (forall t: Trace :: IsRun(r, t) ==> Consumed(t) <= Produced(t)) <==> Sane(r)
  {
    if Sane(r) {
      forall t: Trace | IsRun(r, t)
        ensures Consumed(t) <= Produced(t)
      {
        PutsAreGetsThenQueue(r, t.states, t.moves, t.events, |t.moves|);
      }
    } else {
      var t := Spoiled(r);
    }
  }
}
