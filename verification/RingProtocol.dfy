/** One producer and one consumer on a shared ring buffer, interleaved byte by byte.

    Each step is one access to memory shared by the two sides: reading the other side's index,
    copying one byte, or publishing the own index.  The same steps serve both directions
    (rb_device_put with rb_host_get, rb_host_put with rb_device_get).  Memory accesses are
    sequentially consistent. */
module RingProtocol {
  import opened Words
  import opened RingModel

  datatype Producer =
    | Idle
    | Testing(el: seq<byte>, next: nat)           // next_head computed, tail not read yet
    | Copying(el: seq<byte>, next: nat, i: nat)   // i bytes copied into slot `head`

  datatype Consumer =
    | Waiting
    | Draining(got: seq<byte>)                    // bytes copied out of slot `tail` so far

  datatype State = State(head: nat, tail: nat, mem: Memory, prod: Producer, cons: Consumer)

  datatype Move =
    | CallPut(el: seq<byte>)
    | ReadTail
    | CopyIn
    | PublishHead
    | ReadHead
    | CopyOut
    | PublishTail
    | WriteElsewhere(a: nat, b: byte)

  /** What the callers of put and get observe. */
  datatype Event =
    | Internal
    | PutDone(el: seq<byte>)
    | PutFull                                     // put returned -1
    | GetDone(el: seq<byte>)
    | GetEmpty                                    // get returned -1

  predicate Enabled(r: Ring, s: State, mv: Move) {
    match mv
    case CallPut(el) => s.prod.Idle? && |el| == r.es
    case ReadTail => s.prod.Testing?
    case CopyIn => s.prod.Copying? && s.prod.i < r.es
    case PublishHead => s.prod.Copying? && s.prod.i >= r.es
    case ReadHead => s.cons.Waiting?
    case CopyOut => s.cons.Draining? && |s.cons.got| < r.es
    case PublishTail => s.cons.Draining? && |s.cons.got| >= r.es
    case WriteElsewhere(a, b) => !InBuffer(r, a)
  }

  function Step(r: Ring, s: State, mv: Move): (State, Event)
    requires r.size >= 1 && Enabled(r, s, mv)
    requires s.prod.Copying? ==> |s.prod.el| == r.es
  {
    match mv
    case CallPut(el) =>
      (s.(prod := Testing(el, Next(r, s.head))), Internal)
    case ReadTail =>
      if s.prod.next == s.tail then (s.(prod := Idle), PutFull)
      else (s.(prod := Copying(s.prod.el, s.prod.next, 0)), Internal)
    case CopyIn =>
      var i := s.prod.i;
      (s.(mem := s.mem[SlotBase(r, s.head) + i := s.prod.el[i]],
          prod := Copying(s.prod.el, s.prod.next, i + 1)), Internal)
    case PublishHead =>
      (s.(head := s.prod.next, prod := Idle), PutDone(s.prod.el))
    case ReadHead =>
      if s.tail == s.head then (s, GetEmpty)
      else (s.(cons := Draining([])), Internal)
    case CopyOut =>
      var i := |s.cons.got|;
      (s.(cons := Draining(s.cons.got + [ByteAt(s.mem, SlotBase(r, s.tail) + i)])), Internal)
    case PublishTail =>
      (s.(tail := Next(r, s.tail), cons := Waiting), GetDone(s.cons.got))
    case WriteElsewhere(a, b) =>
      (s.(mem := s.mem[a := b]), Internal)
  }

  /** rb_init: both indices zero, nobody inside a call. */
  predicate Init(r: Ring, s: State) {
    s.head == 0 && s.tail == 0 && s.prod.Idle? && s.cons.Waiting?
  }

  ghost predicate Inv(r: Ring, s: State) {
    && Sane(r)
    && s.head < r.size && s.tail < r.size
    && (s.prod.Testing? ==> |s.prod.el| == r.es && s.prod.next == Next(r, s.head))
    && (s.prod.Copying? ==>
          && |s.prod.el| == r.es && s.prod.next == Next(r, s.head)
          && s.prod.next != s.tail
          && s.prod.i <= r.es
          && s.prod.el[..s.prod.i] == Slot(r, s.mem, s.head)[..s.prod.i])
    && (s.cons.Draining? ==>
          && s.head != s.tail
          && |s.cons.got| <= r.es
          && s.cons.got == Slot(r, s.mem, s.tail)[..|s.cons.got|])
  }

  /** The queue a state stands for, decoded from its shared memory. */
  function Abs(r: Ring, s: State): seq<seq<byte>>
    requires s.head < r.size && s.tail < r.size
  {
    Window(r, s.mem, s.head, s.tail)
  }

  /** An atomic bounded FIFO. */
  predicate FifoStep(q: seq<seq<byte>>, e: Event, q': seq<seq<byte>>, cap: int) {
    match e
    case Internal => q' == q
    case PutDone(el) => |q| < cap && q' == q + [el]
    case PutFull => |q| == cap && q' == q
    case GetDone(el) => |q| > 0 && el == q[0] && q' == q[1..]
    case GetEmpty => q == [] && q' == q
  }

  // ---- every step keeps the invariant and is one FIFO step

  lemma CopyInRefines(r: Ring, s: State)
    requires Inv(r, s) && Enabled(r, s, CopyIn)
    ensures Inv(r, Step(r, s, CopyIn).0) && Abs(r, Step(r, s, CopyIn).0) == Abs(r, s)
  {
    var i, s' := s.prod.i, Step(r, s, CopyIn).0;
    WriteSlotByte(r, s.mem, s.head, i, s.prod.el[i]);
    WindowFrame(r, s.mem, s'.mem, s.head, s.tail);
    var was, now := Slot(r, s.mem, s.head), Slot(r, s'.mem, s.head);
    assert s.prod.el[..i + 1] == s.prod.el[..i] + [s.prod.el[i]];
    assert now[..i + 1] == was[..i] + [s.prod.el[i]];
  }

  lemma CopyOutRefines(r: Ring, s: State)
    requires Inv(r, s) && Enabled(r, s, CopyOut)
    ensures Inv(r, Step(r, s, CopyOut).0) && Abs(r, Step(r, s, CopyOut).0) == Abs(r, s)
  {
    var i := |s.cons.got|;
    var slot := Slot(r, s.mem, s.tail);
    assert slot[i] == ByteAt(s.mem, SlotBase(r, s.tail) + i);
    assert slot[..i + 1] == slot[..i] + [slot[i]];
  }

  lemma PublishHeadRefines(r: Ring, s: State)
    requires Inv(r, s) && Enabled(r, s, PublishHead)
    ensures var (s', e) := Step(r, s, PublishHead);
            Inv(r, s') && FifoStep(Abs(r, s), e, Abs(r, s'), r.size - 1)
  {
    WindowPush(r, s.mem, s.head, s.tail);
    NextWraps(r, s.head);
    FullExactlyWhen(r, s.head, s.tail);
    var slot := Slot(r, s.mem, s.head);
    assert s.prod.el[..r.es] == s.prod.el && slot[..r.es] == slot;
  }

  lemma PublishTailRefines(r: Ring, s: State)
    requires Inv(r, s) && Enabled(r, s, PublishTail)
    ensures var (s', e) := Step(r, s, PublishTail);
            Inv(r, s') && FifoStep(Abs(r, s), e, Abs(r, s'), r.size - 1)
  {
    WindowPop(r, s.mem, s.head, s.tail);
    NextWraps(r, s.head);
    NextWraps(r, s.tail);
    FullExactlyWhen(r, s.head, s.tail);
    var slot := Slot(r, s.mem, s.tail);
    assert slot[..r.es] == slot;
  }

  lemma ElsewhereRefines(r: Ring, s: State, a: nat, b: byte)
    requires Inv(r, s) && !InBuffer(r, a)
    ensures Inv(r, Step(r, s, WriteElsewhere(a, b)).0)
    ensures Abs(r, Step(r, s, WriteElsewhere(a, b)).0) == Abs(r, s)
  {
    WriteOutside(r, s.mem, a, b);
    WindowFrame(r, s.mem, s.mem[a := b], s.head, s.tail);
  }

  /** The central simulation: from any state satisfying the invariant, any enabled step of either
      side preserves it and acts on the decoded queue as one atomic FIFO step.  A failing put sees
      a queue of exactly size-1 elements, a failing get an empty one, in the state of that step. */
  lemma StepRefines(r: Ring, s: State, mv: Move)
    requires Inv(r, s) && Enabled(r, s, mv)
    ensures var (s', e) := Step(r, s, mv);
            Inv(r, s') && FifoStep(Abs(r, s), e, Abs(r, s'), r.size - 1)
  {
    match mv {
      case CallPut(_) =>
      case ReadTail =>
        FullExactlyWhen(r, s.head, s.tail);
      case CopyIn => CopyInRefines(r, s);
      case PublishHead => PublishHeadRefines(r, s);
      case ReadHead =>
      case CopyOut => CopyOutRefines(r, s);
      case PublishTail => PublishTailRefines(r, s);
      case WriteElsewhere(a, b) => ElsewhereRefines(r, s, a, b);
    }
  }

  // ---- what each call does

  /** The full test decides the put: -1 exactly when size-1 elements are queued, else the same element
      goes on to be copied, from its first byte. */
  lemma FullTestDecides(r: Ring, s: State)
    requires Inv(r, s) && s.prod.Testing?
    ensures Enabled(r, s, ReadTail)
    ensures |Abs(r, s)| == r.size - 1 ==> Step(r, s, ReadTail) == (s.(prod := Idle), PutFull)
    ensures |Abs(r, s)| != r.size - 1 ==>
              Step(r, s, ReadTail) == (s.(prod := Copying(s.prod.el, (s.head + 1) % r.size, 0)), Internal)
  {
    FullExactlyWhen(r, s.head, s.tail);
  }

  /** The empty test decides the get: -1 exactly when nothing is queued, else nothing is copied yet. */
  lemma EmptyTestDecides(r: Ring, s: State)
    requires Inv(r, s) && s.cons.Waiting?
    ensures Enabled(r, s, ReadHead)
    ensures Abs(r, s) == [] ==> Step(r, s, ReadHead) == (s, GetEmpty)
    ensures Abs(r, s) != [] ==> Step(r, s, ReadHead) == (s.(cons := Draining([])), Internal)
  {
    FullExactlyWhen(r, s.head, s.tail);
  }

  /** A put of any element can begin when the producer is idle, and a call ends only with its answer:
      a put with PutDone of its own element or PutFull, a get with GetDone of what it copied.  These
      answers come from nowhere else. */
  lemma CallsEndWithTheirAnswer(r: Ring, s: State, mv: Move)
    requires Inv(r, s) && Enabled(r, s, mv)
    ensures s.prod.Idle? ==> forall el: seq<byte> :: |el| == r.es ==>
              && Enabled(r, s, CallPut(el))
              && Step(r, s, CallPut(el)) == (s.(prod := Testing(el, (s.head + 1) % r.size)), Internal)
    ensures var (s', e) := Step(r, s, mv);
            && (e.PutDone? || e.PutFull? <==> !s.prod.Idle? && s'.prod.Idle?)
            && (e.PutDone? ==> e.el == s.prod.el)
            && (!s.prod.Idle? && !s'.prod.Idle? ==> s'.prod.el == s.prod.el)
            && (e.GetDone? <==> s.cons.Draining? && s'.cons.Waiting?)
            && (e.GetDone? ==> e.el == s.cons.got)
            && (e.GetEmpty? ==> mv.ReadHead?)
            && (mv.CallPut? <==> s.prod.Idle? && !s'.prod.Idle?)
  {
  }

  /** Each side writes only its own index, the producer only bytes of the slot at head besides, and
      the consumer no byte at all. */
  lemma EachSideWritesItsOwn(r: Ring, s: State, mv: Move)
    requires Inv(r, s) && Enabled(r, s, mv)
    ensures var s' := Step(r, s, mv).0;
            && (ProducerMove(mv) || mv.CallPut? ==> s'.tail == s.tail && s'.cons == s.cons)
            && (ConsumerMove(mv) || mv.ReadHead? ==> s'.head == s.head && s'.prod == s.prod && s'.mem == s.mem)
            && (mv.WriteElsewhere? ==> s' == s.(mem := s.mem[mv.a := mv.b]))
            && forall a: nat :: !mv.WriteElsewhere? && (a < SlotBase(r, s.head) || SlotBase(r, s.head) + r.es <= a) ==>
                 ByteAt(s'.mem, a) == ByteAt(s.mem, a)
  {
  }

  // ---- whole runs

  ghost predicate Transition(r: Ring, s: State, mv: Move, s': State, e: Event) {
    && r.size >= 1 && Enabled(r, s, mv)
    && (s.prod.Copying? ==> |s.prod.el| == r.es)
    && Step(r, s, mv) == (s', e)
  }

  /** A run from rb_init: the states visited, one more than the moves taken. */
  ghost predicate Run(r: Ring, states: seq<State>, moves: seq<Move>, events: seq<Event>) {
    && |states| == |moves| + 1 && |events| == |moves|
    && Init(r, states[0])
    && forall i {:trigger moves[i]} :: 0 <= i < |moves| ==>
         Transition(r, states[i], moves[i], states[i + 1], events[i])
  }

  /** The elements put by the first `n` events. */
  function Puts(events: seq<Event>, n: nat): seq<seq<byte>>
    requires n <= |events|
  {
    if n == 0 then []
    else if events[n - 1].PutDone? then Puts(events, n - 1) + [events[n - 1].el]
    else Puts(events, n - 1)
  }

  /** The elements got by the first `n` events. */
  function Gets(events: seq<Event>, n: nat): seq<seq<byte>>
    requires n <= |events|
  {
    if n == 0 then []
    else if events[n - 1].GetDone? then Gets(events, n - 1) + [events[n - 1].el]
    else Gets(events, n - 1)
  }

  /** Every run, seen through the decoded queue, is a run of the atomic FIFO of capacity size-1. */
  lemma {:induction false} RunRefinesFifo(r: Ring, states: seq<State>, moves: seq<Move>, events: seq<Event>, n: nat)
    requires Sane(r) && Run(r, states, moves, events) && n <= |moves|
    ensures Inv(r, states[n])
    ensures n == 0 ==> Abs(r, states[n]) == []
    ensures n > 0 ==> Inv(r, states[n - 1])
                      && FifoStep(Abs(r, states[n - 1]), events[n - 1], Abs(r, states[n]), r.size - 1)
  {
    if n == 0 {
    } else {
      RunRefinesFifo(r, states, moves, events, n - 1);
      assert Transition(r, states[n - 1], moves[n - 1], states[n - 1 + 1], events[n - 1]);
      StepRefines(r, states[n - 1], moves[n - 1]);
    }
  }

  /** Conservation: at every point of every run, what was put is what was got followed by what is
      still queued.  In particular the consumed sequence is a prefix of the produced one. */
  lemma {:induction false} PutsAreGetsThenQueue(r: Ring, states: seq<State>, moves: seq<Move>,
        events: seq<Event>, n: nat)
    requires Sane(r) && Run(r, states, moves, events) && n <= |moves|
    ensures Inv(r, states[n])
    ensures Puts(events, n) == Gets(events, n) + Abs(r, states[n])
    ensures Gets(events, n) <= Puts(events, n)
    ensures |Puts(events, n)| - |Gets(events, n)| <= r.size - 1
  {
    RunRefinesFifo(r, states, moves, events, n);
    FullExactlyWhen(r, states[n].head, states[n].tail);
    if n > 0 {
      PutsAreGetsThenQueue(r, states, moves, events, n - 1);
      FifoConserves(Puts(events, n - 1), Gets(events, n - 1), Abs(r, states[n - 1]), events[n - 1],
                    Abs(r, states[n]), r.size - 1);
    }
  }

  lemma FifoConserves(puts: seq<seq<byte>>, gets: seq<seq<byte>>, q: seq<seq<byte>>, e: Event,
        q': seq<seq<byte>>, cap: int)
    requires FifoStep(q, e, q', cap) && puts == gets + q
    ensures (if e.PutDone? then puts + [e.el] else puts) == (if e.GetDone? then gets + [e.el] else gets) + q'
  {
    if e.GetDone? {
      assert q == [e.el] + q';
    }
  }

  /** The 32-bit indices count the elements modulo the size. */
  lemma {:induction false} IndicesCountElements(r: Ring, states: seq<State>, moves: seq<Move>,
        events: seq<Event>, n: nat)
    requires Sane(r) && Run(r, states, moves, events) && n <= |moves|
    ensures states[n].head == |Puts(events, n)| % r.size
    ensures states[n].tail == |Gets(events, n)| % r.size
  {
    if n > 0 {
      IndicesCountElements(r, states, moves, events, n - 1);
      RunRefinesFifo(r, states, moves, events, n - 1);
      assert Transition(r, states[n - 1], moves[n - 1], states[n - 1 + 1], events[n - 1]);
      IndexStep(r, states[n - 1], moves[n - 1]);
      NextOfCount(r, |Puts(events, n - 1)|);
      NextOfCount(r, |Gets(events, n - 1)|);
    }
  }

  lemma IndexStep(r: Ring, s: State, mv: Move)
    requires Inv(r, s) && Enabled(r, s, mv)
    ensures Step(r, s, mv).0.head == if Step(r, s, mv).1.PutDone? then Next(r, s.head) else s.head
    ensures Step(r, s, mv).0.tail == if Step(r, s, mv).1.GetDone? then Next(r, s.tail) else s.tail
  {
  }

  lemma NextOfCount(r: Ring, c: nat)
    requires r.size >= 1
    ensures Next(r, c % r.size) == (c + 1) % r.size
  {
    var q, t := c / r.size, c % r.size;
    NextWraps(r, t);
    if t + 1 == r.size {
      Distribute(r.size, q, 1);
      DivUnique(c + 1, r.size, q + 1, 0);
    } else {
      DivUnique(c + 1, r.size, q, t + 1);
    }
  }

  // ---- every put is answered, in order

  /** The elements of the first n moves that begin a put. */
  function Called(moves: seq<Move>, n: nat): seq<seq<byte>>
    requires n <= |moves|
  {
    if n == 0 then []
    else if moves[n - 1].CallPut? then Called(moves, n - 1) + [moves[n - 1].el]
    else Called(moves, n - 1)
  }

  datatype Answer = Stored(el: seq<byte>) | Full

  function AndAnswer(answers: seq<Answer>, e: Event): seq<Answer> {
    match e
    case PutDone(el) => answers + [Stored(el)]
    case PutFull => answers + [Full]
    case _ => answers
  }

  /** The answers to puts among the first n events. */
  function Answers(events: seq<Event>, n: nat): seq<Answer>
    requires n <= |events|
  {
    if n == 0 then [] else AndAnswer(Answers(events, n - 1), events[n - 1])
  }

  /** The k-th answer belongs to the k-th call, a stored element is the one it was called with, and
      exactly the call in progress, if any, has no answer yet. */
  ghost predicate Paired(calls: seq<seq<byte>>, answers: seq<Answer>, p: Producer) {
    && |calls| == |answers| + (if p.Idle? then 0 else 1)
    && (!p.Idle? ==> calls[|answers|] == p.el)
    && forall k :: 0 <= k < |answers| ==> (answers[k].Stored? ==> answers[k].el == calls[k])
  }

  lemma AnswerStep(r: Ring, s: State, mv: Move, calls: seq<seq<byte>>, answers: seq<Answer>)
    requires Inv(r, s) && Enabled(r, s, mv) && Paired(calls, answers, s.prod)
    ensures var (s', e) := Step(r, s, mv);
            Paired(if mv.CallPut? then calls + [mv.el] else calls, AndAnswer(answers, e), s'.prod)
  {
    CallsEndWithTheirAnswer(r, s, mv);
  }

  /** In every run the answers to puts are paired with the calls, one to one and in order. */
  lemma {:induction false} EveryPutIsAnswered(r: Ring, states: seq<State>, moves: seq<Move>, events: seq<Event>, n: nat)
    requires Sane(r) && Run(r, states, moves, events) && n <= |moves|
    ensures Paired(Called(moves, n), Answers(events, n), states[n].prod)
  {
    if n > 0 {
      EveryPutIsAnswered(r, states, moves, events, n - 1);
      RunRefinesFifo(r, states, moves, events, n - 1);
      assert Transition(r, states[n - 1], moves[n - 1], states[n - 1 + 1], events[n - 1]);
      AnswerStep(r, states[n - 1], moves[n - 1], Called(moves, n - 1), Answers(events, n - 1));
    }
  }

  // ---- no element is ever torn

  /** The slot a copy step touches: the producer's lies outside the published window, the
      consumer's inside it (at its front), and both bytes lie inside the buffer. */
  lemma NoTearing(r: Ring, s: State)
    requires Inv(r, s)
    ensures Enabled(r, s, CopyIn) ==>
              && InBuffer(r, SlotBase(r, s.head) + s.prod.i)
              && forall k :: 0 <= k < Count(r, s.head, s.tail) ==> Index(r, s.tail, k) != s.head
    ensures Enabled(r, s, CopyOut) ==>
              && InBuffer(r, SlotBase(r, s.tail) + |s.cons.got|)
              && Count(r, s.head, s.tail) > 0 && Index(r, s.tail, 0) == s.tail
    ensures Enabled(r, s, CopyIn) && Enabled(r, s, CopyOut) ==> Disjoint(r, s.head, s.tail)
  {
    if Enabled(r, s, CopyIn) {
      SlotInBuffer(r, s.head, s.prod.i);
      forall k | 0 <= k < Count(r, s.head, s.tail)
        ensures Index(r, s.tail, k) != s.head
      {
        WindowAt(r, s.mem, s.head, s.tail, k);
      }
    }
    if Enabled(r, s, CopyOut) {
      SlotInBuffer(r, s.tail, |s.cons.got|);
      if Enabled(r, s, CopyIn) {
        SlotsDisjoint(r, s.head, s.tail);
      }
    }
  }

  // ---- progress: each call ends after a bounded number of its own steps

  function PutWork(r: Ring, p: Producer): nat {
    match p
    case Idle => 0
    case Testing(_, _) => r.es + 2
    case Copying(_, _, i) => if i <= r.es then r.es - i + 1 else 1
  }

  function GetWork(r: Ring, c: Consumer): nat {
    match c
    case Waiting => 0
    case Draining(got) => if |got| <= r.es then r.es - |got| + 1 else 1
  }

  predicate ProducerMove(mv: Move) { mv.ReadTail? || mv.CopyIn? || mv.PublishHead? }

  predicate ConsumerMove(mv: Move) { mv.CopyOut? || mv.PublishTail? }

  /** Neither side can block the other: inside a call a move of its own is always enabled and
      shortens the call, and no move of the other side lengthens it. */
  lemma CallsAreWaitFree(r: Ring, s: State, mv: Move)
    requires Inv(r, s)
    ensures !s.prod.Idle? ==> exists mine :: ProducerMove(mine) && Enabled(r, s, mine)
    ensures !s.cons.Waiting? ==> exists mine :: ConsumerMove(mine) && Enabled(r, s, mine)
    ensures Enabled(r, s, mv) && ProducerMove(mv) ==> PutWork(r, Step(r, s, mv).0.prod) < PutWork(r, s.prod)
    ensures Enabled(r, s, mv) && ConsumerMove(mv) ==> GetWork(r, Step(r, s, mv).0.cons) < GetWork(r, s.cons)
    ensures Enabled(r, s, mv) && !ProducerMove(mv) && !mv.CallPut? ==> Step(r, s, mv).0.prod == s.prod
    ensures Enabled(r, s, mv) && !ConsumerMove(mv) && !mv.ReadHead? ==> Step(r, s, mv).0.cons == s.cons
  {
    if !s.prod.Idle? {
      var mine := if s.prod.Testing? then ReadTail else if s.prod.i < r.es then CopyIn else PublishHead;
      assert ProducerMove(mine) && Enabled(r, s, mine);
    }
    if !s.cons.Waiting? {
      var mine := if |s.cons.got| < r.es then CopyOut else PublishTail;
      assert ConsumerMove(mine) && Enabled(r, s, mine);
    }
  }
}
