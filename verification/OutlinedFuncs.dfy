/** The kernel wrapper pass on fork calls (toolchain/llvm-support/OmpKernelWrapper): every forked
    function gets one wrapper, found again by its name, and each call is redirected to it. */
module OutlinedFuncs {
  import opened Common
  import opened Words
  import opened MiniIR
  import opened Legalizer
  import opened LegalizerProof
  import opened WrapperBodies
  import opened KernelWrapper
  import opened KernelLaunch

  /** The functions, and what each fork call forks: a function, or None for another value. */
  datatype Program = Program(fns: Module, forks: seq<Option<nat>>)

  ghost predicate Sound(p: Program) {
    forall i :: 0 <= i < |p.forks| ==> (p.forks[i].Some? ==> p.forks[i].value < |p.fns|)
  }

  /** getFunction: the first function of that name. */
  function Find(fns: Module, name: string, from: nat): (r: Option<nat>)
    ensures r.Some? ==> from <= r.value < |fns| && fns[r.value].name == name
    ensures r.None? ==> forall f :: from <= f < |fns| ==> fns[f].name != name
    decreases |fns| - from
  {
    if from >= |fns| then None
    else if fns[from].name == name then Some(from)
    else Find(fns, name, from + 1)
  }

  function WrapFork(p: Program, c: nat): (p': Program)
    requires Sound(p) && c < |p.forks|
    ensures Sound(p') && |p'.forks| == |p.forks|
  {
    match p.forks[c]
    case None => p
    case Some(k) =>
      var name := WRAPPER_PREFIX + p.fns[k].name;
      match Find(p.fns, name, 0)
      case Some(w) => Program(p.fns, p.forks[c := Some(w)])
      case None =>
        Program(p.fns + [OutlinedWrapper(name, k, p.fns[k].params)], p.forks[c := Some(|p.fns|)])
  }

  function WrapForks(p: Program, c: nat): (p': Program)
    requires Sound(p)
    ensures Sound(p') && |p'.forks| == |p.forks|
    decreases |p.forks| - c
  {
    if c >= |p.forks| then p else WrapForks(WrapFork(p, c), c + 1)
  }

  // ---- the pass as it runs

  class OutlinedWrapperPass {
    var fns: Module
    var forks: seq<Option<nat>>

    constructor (p: Program)
      ensures Contents() == p
    {
      fns, forks := p.fns, p.forks;
    }

    ghost function Contents(): Program
      reads this
    {
      Program(fns, forks)
    }

    /** wrapOmpOutlinedFuncs. */
    method WrapOmpOutlinedFuncs()
      requires Sound(Contents())
      modifies this
      ensures Contents() == WrapForks(old(Contents()), 0)
    {
      var c := 0;
      while c < |forks|
        invariant Sound(Contents()) && 0 <= c <= |forks|
        invariant WrapForks(Contents(), c) == WrapForks(old(Contents()), 0)
      {
        if forks[c].Some? {
          var kernel := forks[c].value;
          var funcName := WRAPPER_PREFIX + fns[kernel].name;
          var wrapper := Find(fns, funcName, 0);
          if wrapper.None? {
            wrapper := Some(|fns|);
            fns := fns + [OutlinedWrapper(funcName, kernel, fns[kernel].params)];
          }
          forks := forks[c := wrapper];
        }
        c := c + 1;
      }
    }
  }

  // ---- one wrapper for each kernel

  ghost predicate NamesDistinct(fns: Module) {
    forall f, g :: 0 <= f < |fns| && 0 <= g < |fns| && fns[f].name == fns[g].name ==> f == g
  }

  /** No function has the name that the wrapper of a forked kernel would get. */
  ghost predicate NotYetWrapped(p: Program)
    requires Sound(p)
  {
    forall i, f :: 0 <= i < |p.forks| && p.forks[i].Some? && 0 <= f < |p.fns| ==>
      p.fns[f].name != WRAPPER_PREFIX + p.fns[p.forks[i].value].name
  }

  function WrapperOf(fns: Module, k: nat): Fn
    requires k < |fns|
  {
    OutlinedWrapper(WRAPPER_PREFIX + fns[k].name, k, fns[k].params)
  }

  /** Function w of p was created for kernel k of p0. */
  predicate Created(p0: Program, p: Program, w: nat, k: nat) {
    |p0.fns| <= w < |p.fns| && k < |p0.fns| && p.fns[w] == WrapperOf(p0.fns, k)
  }

  /** Function w of p was created for one of the first c fork calls. */
  ghost predicate Needed(p0: Program, p: Program, w: nat, c: nat)
    requires c <= |p0.forks|
  {
    exists i | 0 <= i < c :: p0.forks[i].Some? && Created(p0, p, w, p0.forks[i].value)
  }

  ghost predicate ForkInv(p0: Program, p: Program, c: nat)
    requires Sound(p0) && c <= |p0.forks|
  {
    && Sound(p) && |p.forks| == |p0.forks| && NamesDistinct(p.fns)
    && |p0.fns| <= |p.fns| && p.fns[..|p0.fns|] == p0.fns
    && (forall i :: c <= i < |p.forks| ==> p.forks[i] == p0.forks[i])
    && (forall i :: 0 <= i < c ==>
          if p0.forks[i].None? then p.forks[i].None?
          else p.forks[i].Some? && Created(p0, p, p.forks[i].value, p0.forks[i].value))
    && (forall w :: |p0.fns| <= w < |p.fns| ==> Needed(p0, p, w, c))
  }

  lemma PrefixInjective(a: string, b: string)
    requires WRAPPER_PREFIX + a == WRAPPER_PREFIX + b
    ensures a == b
  {
    assert (WRAPPER_PREFIX + a)[|WRAPPER_PREFIX|..] == a;
    assert (WRAPPER_PREFIX + b)[|WRAPPER_PREFIX|..] == b;
  }

  /** The function found under the wrapper name of kernel k is the wrapper of k. */
  lemma FoundIsWrapper(p0: Program, p: Program, c: nat, w: nat)
    requires Sound(p0) && NamesDistinct(p0.fns) && NotYetWrapped(p0) && c < |p0.forks|
    requires ForkInv(p0, p, c) && p0.forks[c].Some?
    requires w < |p.fns| && p.fns[w].name == WRAPPER_PREFIX + p0.fns[p0.forks[c].value].name
    ensures Created(p0, p, w, p0.forks[c].value)
  {
    assert forall f :: 0 <= f < |p0.fns| ==> p.fns[f] == p0.fns[f] by {
      assert forall f :: 0 <= f < |p0.fns| ==> p.fns[f] == p.fns[..|p0.fns|][f];
    }
    if w >= |p0.fns| {
      assert Needed(p0, p, w, c);
      var i :| 0 <= i < c && p0.forks[i].Some? && Created(p0, p, w, p0.forks[i].value);
      PrefixInjective(p0.fns[p0.forks[i].value].name, p0.fns[p0.forks[c].value].name);
    }
  }

  lemma StillNeeded(p0: Program, p: Program, p': Program, w: nat, c: nat, n: nat)
    requires c <= n <= |p0.forks| && Needed(p0, p, w, c)
    requires |p.fns| <= |p'.fns| && p'.fns[..|p.fns|] == p.fns
    ensures Needed(p0, p', w, n)
  {
    var i :| 0 <= i < c && p0.forks[i].Some? && Created(p0, p, w, p0.forks[i].value);
    assert p'.fns[w] == p'.fns[..|p.fns|][w];
    assert Created(p0, p', w, p0.forks[i].value);
  }

  /** The call that is wrapped now ends up on the wrapper of its kernel. */
  lemma ForkCreates(p0: Program, p: Program, c: nat)
    requires Sound(p0) && NamesDistinct(p0.fns) && NotYetWrapped(p0) && c < |p0.forks|
    requires ForkInv(p0, p, c) && p0.forks[c].Some?
    ensures var p' := WrapFork(p, c); p'.forks[c].Some? && Created(p0, p', p'.forks[c].value, p0.forks[c].value)
  {
    var k := p.forks[c].value;
    assert p.fns[k] == p.fns[..|p0.fns|][k] == p0.fns[k];
    match Find(p.fns, WRAPPER_PREFIX + p.fns[k].name, 0) {
      case Some(w) => FoundIsWrapper(p0, p, c, w);
      case None => assert Created(p0, WrapFork(p, c), |p.fns|, k);
    }
  }

  lemma ForkNeeds(p0: Program, p: Program, c: nat, w: nat)
    requires Sound(p0) && NamesDistinct(p0.fns) && NotYetWrapped(p0) && c < |p0.forks|
    requires ForkInv(p0, p, c) && |p0.fns| <= w < |WrapFork(p, c).fns|
    ensures Needed(p0, WrapFork(p, c), w, c + 1)
  {
    var p', n := WrapFork(p, c), c + 1;
    assert p'.fns[..|p.fns|] == p.fns;
    if w < |p.fns| {
      assert Needed(p0, p, w, c);
      StillNeeded(p0, p, p', w, c, n);
    } else {
      ForkCreates(p0, p, c);
      assert Created(p0, p', w, p0.forks[c].value);
    }
  }

  lemma ForkStep(p0: Program, p: Program, c: nat)
    requires Sound(p0) && NamesDistinct(p0.fns) && NotYetWrapped(p0) && c < |p0.forks|
    requires ForkInv(p0, p, c)
    ensures ForkInv(p0, WrapFork(p, c), c + 1)
  {
    var p', n := WrapFork(p, c), c + 1;
    assert p'.fns[..|p0.fns|] == p.fns[..|p0.fns|];
    if p0.forks[c].Some? {
      ForkCreates(p0, p, c);
    }
    forall i | 0 <= i < c && p0.forks[i].Some?
      ensures Created(p0, p', p'.forks[i].value, p0.forks[i].value)
    {
      assert Created(p0, p, p.forks[i].value, p0.forks[i].value);
    }
    forall w | |p0.fns| <= w < |p'.fns|
      ensures Needed(p0, p', w, n)
    {
      ForkNeeds(p0, p, c, w);
    }
  }

  lemma {:induction false} ForksRun(p0: Program, p: Program, c: nat)
    requires Sound(p0) && NamesDistinct(p0.fns) && NotYetWrapped(p0) && c <= |p0.forks|
    requires ForkInv(p0, p, c)
    ensures ForkInv(p0, WrapForks(p, c), |p0.forks|)
    decreases |p0.forks| - c
  {
    if c < |p0.forks| {
      ForkStep(p0, p, c);
      ForksRun(p0, WrapFork(p, c), c + 1);
    }
  }

  /** Every call ends up on the wrapper of the kernel it forked; two calls share a wrapper exactly
      when they forked the same kernel; and nothing but one wrapper for each forked kernel is added. */
  lemma OneWrapperForEachKernel(p0: Program)
    requires Sound(p0) && NamesDistinct(p0.fns) && NotYetWrapped(p0)
    ensures var p := WrapForks(p0, 0);
            && |p0.fns| <= |p.fns| && p.fns[..|p0.fns|] == p0.fns && NamesDistinct(p.fns)
            && (forall i :: 0 <= i < |p.forks| ==>
                  if p0.forks[i].None? then p.forks[i].None?
                  else p.forks[i].Some? && Created(p0, p, p.forks[i].value, p0.forks[i].value))
            && (forall i, j :: 0 <= i < |p.forks| && 0 <= j < |p.forks| ==>
                  (p.forks[i] == p.forks[j] <==> p0.forks[i] == p0.forks[j]))
            && (forall w :: |p0.fns| <= w < |p.fns| ==> Some(w) in p.forks)
  {
    var p := WrapForks(p0, 0);
    ForksRun(p0, p0, 0);
    forall w | |p0.fns| <= w < |p.fns|
      ensures Some(w) in p.forks
    {
      assert Needed(p0, p, w, |p0.forks|);
      var i :| 0 <= i < |p.forks| && p0.forks[i].Some? && Created(p0, p, w, p0.forks[i].value);
      SameName(p0, p, w, p.forks[i].value, p0.forks[i].value);
    }
    forall i, j | 0 <= i < |p.forks| && 0 <= j < |p.forks|
      ensures p.forks[i] == p.forks[j] <==> p0.forks[i] == p0.forks[j]
    {
      if p0.forks[i].Some? && p0.forks[j].Some? {
        SameWrapper(p0, p, p.forks[i].value, p0.forks[i].value, p.forks[j].value, p0.forks[j].value);
      }
    }
  }

  /** The wrapper has the kernel's name with a prefix, and takes three device pointers. */
  lemma ForkedWrapperIs(p0: Program, i: nat)
    requires Sound(p0) && NamesDistinct(p0.fns) && NotYetWrapped(p0) && i < |p0.forks| && p0.forks[i].Some?
    ensures var p, k := WrapForks(p0, 0), p0.fns[p0.forks[i].value];
            && p.forks[i].Some? && p.forks[i].value >= |p0.fns|
            && var w := p.fns[p.forks[i].value];
               w.name == "__wrapper_omp" + k.name && w.params == [PtrTy(Device), PtrTy(Device), PtrTy(Device)]
  {
    ForksRun(p0, p0, 0);
    assert Created(p0, WrapForks(p0, 0), WrapForks(p0, 0).forks[i].value, p0.forks[i].value);
  }

  lemma SameName(p0: Program, p: Program, w: nat, w': nat, k: nat)
    requires NamesDistinct(p.fns) && Created(p0, p, w, k) && Created(p0, p, w', k)
    ensures w == w'
  {
  }

  lemma SameWrapper(p0: Program, p: Program, w: nat, k: nat, w': nat, k': nat)
    requires NamesDistinct(p.fns) && NamesDistinct(p0.fns) && Created(p0, p, w, k) && Created(p0, p, w', k')
    ensures w == w' <==> k == k'
  {
    if w == w' {
      PrefixInjective(p0.fns[k].name, p0.fns[k'].name);
    }
  }

  /** Calling what a fork call forks now, with two ids and an argument array, is calling the original
      function with the ids and the dereferenced slots. */
  lemma ForkIsKernelCall(p0: Program, i: nat, id0: nat, id1: nat, q: nat, mem: Memory, fuel: nat)
    requires Sound(p0) && NamesDistinct(p0.fns) && NotYetWrapped(p0) && Closed(p0.fns)
    requires i < |p0.forks| && p0.forks[i].Some?
    requires id0 < TWO32 && id1 < TWO32 && q < TWO32
    ensures var p, k := WrapForks(p0, 0), p0.forks[i].value;
            p.forks[i].Some?
            && RunFn(p.fns, p.forks[i].value, [id0, id1, q], mem, true, fuel + 1)
               == AsVoid(RunFn(p0.fns, k, [id0, id1] + SlotValues(mem, FromArray(p0.fns[k].params), q, Device),
                               mem, true, fuel))
  {
    var p, k := WrapForks(p0, 0), p0.forks[i].value;
    OneWrapperForEachKernel(p0);
    assert Created(p0, p, p.forks[i].value, k);
    var slots := SlotValues(mem, FromArray(p0.fns[k].params), q, Device);
    OutlinedWrapperRuns(p.fns, p.forks[i].value, k, p0.fns[k].params, id0, id1, q, mem, fuel);
    forall f | 0 <= f < |p0.fns|
      ensures p.fns[f].(name := p0.fns[f].name) == p0.fns[f]
    {
      assert p.fns[f] == p.fns[..|p0.fns|][f];
    }
    BodiesDecide(p0.fns, p.fns, k, [id0, id1] + slots, mem, true, fuel);
  }

  // ---- the argument array

  /** What the runtime passes for a captured variable: at most 32 bits, a device pointer above all. */
  predicate FitsSlot(ty: Ty) {
    match ty
    case IntTy(bits) => bits in {8, 16, 32}
    case PtrTy(space) => space == Device
    case RawTy(bits) => bits in {8, 16, 32}
  }

  /** Word j of the array at q is argument j; the array ends by 2^32. */
  ghost predicate CapturedAt(mem: Memory, q: nat, args: seq<nat>) {
    && q + 4 * |args| <= TWO32
    && forall j :: 0 <= j < |args| ==> Load(mem, q + 4 * j, 4, Space32) == args[j]
  }

  lemma DeviceAddress(a: nat)
    requires a < TWO32
    ensures Address(a, Device) == a
  {
    assert Pow2(32) == TWO32 by {
      PowerTable();
    }
  }

  lemma WordAddress(q: nat, j: nat)
    requires q + 4 * j + 4 <= TWO32
    ensures SlotAddress(q, Device, j) == q + 4 * j
  {
    DeviceAddress(q + 4 * j);
  }

  lemma WordTruncates(mem: Memory, ty: Ty, a: nat, v: nat)
    requires FitsSlot(ty) && a + 4 <= TWO32 && Load(mem, a, 4, Space32) == v
    ensures DirectLoad(mem, ty, a, Device) == Mask(v, Bits(ty))
  {
    var n := Bits(ty) / 8;
    WidthBytes(Bits(ty));
    DeviceAddress(a);
    LoadTruncates(mem, a, n, 4 - n, Space32);
    LoadBound(mem, a, n, Space32);
  }

  lemma CapturedValue(mem: Memory, ty: Ty, q: nat, args: seq<nat>, j: nat)
    requires CapturedAt(mem, q, args) && j < |args| && FitsSlot(ty)
    ensures SlotValue(mem, ty, q, Device, j) == Mask(args[j], Bits(ty))
  {
    WordAddress(q, j);
    WordTruncates(mem, ty, q + 4 * j, args[j]);
  }

  lemma FramesAgree(ps: seq<Ty>, vs: seq<nat>, ws: seq<nat>)
    requires |vs| == |ws| == |ps|
    requires forall j :: 0 <= j < |ps| ==> Mask(vs[j], Bits(ps[j])) == Mask(ws[j], Bits(ps[j]))
    ensures Frame(ps, vs) == Frame(ps, ws)
  {
  }

  lemma CapturedArgument(mem: Memory, ps: seq<Ty>, id0: nat, id1: nat, q: nat, args: seq<nat>, j: nat)
    requires 2 <= j < |ps| && |args| == |ps| - 2 && CapturedAt(mem, q, args) && FitsSlot(ps[j])
    ensures ([id0, id1] + SlotValues(mem, FromArray(ps), q, Device))[j] == Mask(args[j - 2], Bits(ps[j]))
  {
    CapturedValue(mem, ps[j], q, args, j - 2);
  }

  lemma CapturedFrame(mem: Memory, ps: seq<Ty>, id0: nat, id1: nat, q: nat, args: seq<nat>)
    requires |ps| >= 2 && |args| == |ps| - 2 && CapturedAt(mem, q, args)
    requires forall j :: 2 <= j < |ps| ==> FitsSlot(ps[j])
    ensures Frame(ps, [id0, id1] + SlotValues(mem, FromArray(ps), q, Device)) == Frame(ps, [id0, id1] + args)
  {
    var vs, ws := [id0, id1] + SlotValues(mem, FromArray(ps), q, Device), [id0, id1] + args;
    forall j | 0 <= j < |ps|
      ensures Mask(vs[j], Bits(ps[j])) == Mask(ws[j], Bits(ps[j]))
    {
      if j >= 2 {
        CapturedArgument(mem, ps, id0, id1, q, args, j);
        ModRange(vs[j], Pow2(Bits(ps[j])));
      }
    }
    FramesAgree(ps, vs, ws);
  }

  /** Calling what a fork call forks now, with two ids and an array of device pointers, is calling the
      original function with the ids and those pointers. */
  lemma ForkPassesTheArray(p0: Program, i: nat, id0: nat, id1: nat, q: nat, args: seq<nat>, mem: Memory, fuel: nat)
    requires Sound(p0) && NamesDistinct(p0.fns) && NotYetWrapped(p0) && Closed(p0.fns)
    requires i < |p0.forks| && p0.forks[i].Some?
    requires id0 < TWO32 && id1 < TWO32 && q < TWO32
    requires var ps := p0.fns[p0.forks[i].value].params;
             |ps| >= 2 && |args| == |ps| - 2 && forall j :: 2 <= j < |ps| ==> FitsSlot(ps[j])
    requires CapturedAt(mem, q, args)
    ensures var p := WrapForks(p0, 0);
            p.forks[i].Some?
            && RunFn(p.fns, p.forks[i].value, [id0, id1, q], mem, true, fuel + 1)
               == AsVoid(RunFn(p0.fns, p0.forks[i].value, [id0, id1] + args, mem, true, fuel))
  {
    ForkIsKernelCall(p0, i, id0, id1, q, mem, fuel);
    CapturedFrame(mem, p0.fns[p0.forks[i].value].params, id0, id1, q, args);
  }

  /** A captured parameter of 64 bits would not be served: it takes the pointer of its own slot and, for
      its upper half, the one of the next. */
  lemma WideCaptureTakesTwoSlots(mem: Memory, ty: Ty, q: nat, args: seq<nat>, j: nat)
    requires CapturedAt(mem, q, args) && j + 1 < |args| && ty in {IntTy(64), RawTy(64), PtrTy(Host)}
    ensures SlotValue(mem, ty, q, Device, j) == args[j] + 0x1_0000_0000 * args[j + 1]
  {
    var a := q + 4 * j;
    WordAddress(q, j);
    DeviceAddress(a);
    LoadHalves(mem, a, Space32);
    LoadBound(mem, a, 8, Space32);
    PowerTable();
    assert a + 4 == q + 4 * (j + 1);
  }

  // ---- legalizing the wrapped program

  lemma OutlinedCallOk(n: nat, k: nat)
    ensures InstOk(CallI(3 + 3 * n, k, [Reg(0), Reg(1)] + LoadedRegs(n, 3, 0)), false, 4 + 3 * n)
  {
  }

  lemma OutlinedWrapperFits(name: string, k: nat, ps: seq<Ty>)
    ensures FitsAnyName(OutlinedWrapper(name, k, ps))
  {
    var f, slots := OutlinedWrapper(name, k, ps), FromArray(ps);
    forall ins | ins in f.blocks[0].code
      ensures InstOk(ins, false, f.regs)
    {
      OutlinedCallOk(|slots|, k);
      if ins in Unmarshal(slots, 2, Device, 3, 0) {
        UnmarshalOk(slots, 2, Device, 3, 0, ins, f.regs);
      }
    }
    assert BlockOk(f.blocks[0], false, f.regs);
  }

  lemma ForksFit(p0: Program)
    requires Sound(p0) && NamesDistinct(p0.fns) && NotYetWrapped(p0) && ModuleOk(p0.fns)
    ensures ModuleOk(WrapForks(p0, 0).fns)
  {
    var p := WrapForks(p0, 0);
    ForksRun(p0, p0, 0);
    forall f | f in p.fns
      ensures FnOk(f)
    {
      var w :| 0 <= w < |p.fns| && p.fns[w] == f;
      if w < |p0.fns| {
        assert f == p.fns[..|p0.fns|][w];
      } else {
        assert Needed(p0, p, w, |p0.forks|);
        var i :| 0 <= i < |p0.forks| && p0.forks[i].Some? && Created(p0, p, w, p0.forks[i].value);
        var k := p0.forks[i].value;
        OutlinedWrapperFits(WRAPPER_PREFIX + p0.fns[k].name, k, p0.fns[k].params);
        FitsThisName(f);
      }
    }
  }

  /** The build's two passes on a fork call: as long as no host access of the original function passes
      2^32, calling what the legalized program forks is calling the original function. */
  lemma ForkAfterBothPasses(p0: Program, i: nat, id0: nat, id1: nat, q: nat, args: seq<nat>, mem: Memory, fuel: nat)
    requires Sound(p0) && NamesDistinct(p0.fns) && NotYetWrapped(p0) && Closed(p0.fns) && ModuleOk(p0.fns)
    requires i < |p0.forks| && p0.forks[i].Some?
    requires id0 < TWO32 && id1 < TWO32 && q < TWO32
    requires var ps := p0.fns[p0.forks[i].value].params;
             |ps| >= 2 && |args| == |ps| - 2 && forall j :: 2 <= j < |ps| ==> FitsSlot(ps[j])
    requires CapturedAt(mem, q, args)
    requires Low(RunFn(p0.fns, p0.forks[i].value, [id0, id1] + args, mem, true, fuel))
    ensures var p := WrapForks(p0, 0);
            p.forks[i].Some?
            && RunFn(Legalize(p.fns), p.forks[i].value, [id0, id1, q], mem, true, fuel + 1)
               == AsVoid(RunFn(p0.fns, p0.forks[i].value, [id0, id1] + args, mem, true, fuel))
  {
    var p := WrapForks(p0, 0);
    ForkPassesTheArray(p0, i, id0, id1, q, args, mem, fuel);
    ForksFit(p0);
    LegalizePreserves(p.fns, p.forks[i].value, [id0, id1, q], mem, fuel + 1);
  }
}
