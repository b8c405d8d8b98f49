/** The functions that the kernel wrapper (toolchain/llvm-support/OmpKernelWrapper) creates: an
    offload wrapper takes the address of a buffer of 64-bit slots, an outlined wrapper two thread
    ids and an array of device pointers; both load the parameters and call the wrapped function. */
module WrapperBodies {
  import opened Common
  import opened Words
  import opened MiniIR
  import opened LegalizerProof

  // ---- wrapper bodies

  /** Slots are i64 in a host buffer and device pointers in a device array. */
  function SlotOffset(space: AddrSpace, i: nat): nat {
    if space == Device then 4 * i else 8 * i
  }

  /** GEP, cast and load of one parameter, which ends in register r + 2. */
  function FetchCode(ty: Ty, base: nat, space: AddrSpace, r: nat, off: nat): seq<Inst> {
    [Arith(r, Add, Reg(base), Const(Num(off)), PtrBits(space)),
     BitCast(r + 1, Reg(r), PtrTy(space)),
     LoadI(r + 2, ty, Reg(r + 1), space)]
  }

  /** Fetches parameters i, i+1, ...; parameter i ends in register r0 + 3i + 2. */
  function Unmarshal(ps: seq<Ty>, base: nat, space: AddrSpace, r0: nat, i: nat): seq<Inst>
    decreases |ps| - i
  {
    if i >= |ps| then []
    else
      FetchCode(ps[i], base, space, r0 + 3 * i, SlotOffset(space, i)) + Unmarshal(ps, base, space, r0, i + 1)
  }

  function LoadedRegs(n: nat, r0: nat, i: nat): (os: seq<Operand>)
    decreases n - i
    ensures i <= n ==> |os| == n - i
    ensures forall j :: 0 <= j < |os| ==> os[j] == Reg(r0 + 3 * (i + j) + 2)
  {
    if i >= n then [] else [Reg(r0 + 3 * i + 2)] + LoadedRegs(n, r0, i + 1)
  }

  /** Body of an offload wrapper: the 64-bit argument is the host address of the buffer. */
  function OffloadBody(k: nat, ps: seq<Ty>): seq<Block> {
    [Block([IntToPtr(1, Reg(0), Host)]
           + (Unmarshal(ps, 1, Host, 2, 0) + [CallI(2 + 3 * |ps|, k, LoadedRegs(|ps|, 2, 0))]),
           Ret(Const(Num(0))))]
  }

  function OffloadWrapper(name: string, k: nat, ps: seq<Ty>): Fn {
    Fn(name, [IntTy(64)], 3 + 3 * |ps|, OffloadBody(k, ps))
  }

  /** The parameters that come from the array: all but the two thread ids. */
  function FromArray(ps: seq<Ty>): seq<Ty> {
    if |ps| >= 2 then ps[2..] else []
  }

  /** Body of an outlined-function wrapper: two thread ids are passed on, the rest is in the array. */
  function OutlinedBody(k: nat, ps: seq<Ty>): seq<Block> {
    var slots := FromArray(ps);
    [Block(Unmarshal(slots, 2, Device, 3, 0)
           + [CallI(3 + 3 * |slots|, k, [Reg(0), Reg(1)] + LoadedRegs(|slots|, 3, 0))],
           Ret(Const(Num(0))))]
  }

  const OUTLINED_PARAMS: seq<Ty> := [PtrTy(Device), PtrTy(Device), PtrTy(Device)]

  function OutlinedWrapper(name: string, k: nat, ps: seq<Ty>): Fn {
    Fn(name, OUTLINED_PARAMS, 4 + 3 * |FromArray(ps)|, OutlinedBody(k, ps))
  }

  // ---- running the unmarshalling code

  function SlotAddress(q: nat, space: AddrSpace, i: nat): nat {
    Mask(q + SlotOffset(space, i), PtrBits(space))
  }

  function SlotValue(mem: Memory, ty: Ty, q: nat, space: AddrSpace, i: nat): nat {
    DirectLoad(mem, ty, SlotAddress(q, space, i), space)
  }

  ghost predicate SlotsLow(ps: seq<Ty>, q: nat, space: AddrSpace) {
    space == Host ==> forall i :: 0 <= i < |ps| ==> LowAccess(ps[i], SlotAddress(q, space, i))
  }

  predicate SlotIn(regs: Regs, mem: Memory, ps: seq<Ty>, q: nat, space: AddrSpace, r0: nat, i: nat)
    requires i < |ps|
  {
    Get(regs, r0 + 3 * i + 2) == SlotValue(mem, ps[i], q, space, i)
  }

  /** The slots from `i` on are in their registers. */
  ghost predicate SlotsIn(regs: Regs, mem: Memory, ps: seq<Ty>, q: nat, space: AddrSpace, r0: nat, i: nat) {
    forall j :: i <= j < |ps| ==> SlotIn(regs, mem, ps, q, space, r0, j)
  }

  lemma OneMoreSlot(a: Regs, b: Regs, mem: Memory, ps: seq<Ty>, q: nat, space: AddrSpace, r0: nat, i: nat)
    requires i < |ps| && SlotIn(a, mem, ps, q, space, r0, i) && SlotsIn(b, mem, ps, q, space, r0, i + 1)
    requires SameBelow(r0 + 3 * (i + 1), a, b)
    ensures SlotsIn(b, mem, ps, q, space, r0, i)
  {
    assert SameAt(a, b, r0 + 3 * i + 2);
  }

  /** The state after one slot was fetched: its address twice, then the value. */
  function Fetched(s: State, r: nat, a: nat, v: nat): State {
    s.(regs := s.regs[r := a][r + 1 := a][r + 2 := v])
  }

  lemma FetchedKeeps(s: State, r0: nat, i: nat, a: nat, v: nat)
    ensures var s' := Fetched(s, r0 + 3 * i, a, v);
            && Get(s'.regs, r0 + 3 * i + 2) == v
            && SameBelow(r0 + 3 * i, s.regs, s'.regs)
  {
    var regs := Fetched(s, r0 + 3 * i, a, v).regs;
    forall r: nat | r < r0 + 3 * i
      ensures SameAt(s.regs, regs, r)
    {
    }
  }

  ghost predicate SameBelow(n: nat, a: Regs, b: Regs) {
    forall r: nat :: r < n ==> SameAt(a, b, r)
  }

  lemma SameBelowBoth(n: nat, a: Regs, b: Regs, k: nat, c: Regs)
    requires SameBelow(n, a, b) && SameBelow(k, b, c) && n <= k
    ensures SameBelow(n, a, c)
  {
    forall r: nat | r < n
      ensures SameAt(a, c, r)
    {
      assert SameAt(a, b, r) && SameAt(b, c, r);
    }
  }

  lemma AddressRuns(gep: Inst, q: nat, s: State)
    requires gep.Arith? && gep.op == Add && Val(gep.l, s.regs) == q && gep.r.Const? && gep.r.e.Num?
    ensures Plain(gep, s) == SetReg(s, gep.dst, Mask(q + gep.r.e.v, gep.bits))
  {
  }

  lemma SlotLoads(r: nat, ty: Ty, a: nat, space: AddrSpace, s: State)
    requires Get(s.regs, r) == a && (space == Host ==> LowAccess(ty, a))
    ensures Plain(LoadI(r + 1, ty, Reg(r), space), s) == SetReg(s, r + 1, DirectLoad(s.mem, ty, a, space))
  {
  }

  /** `code` takes `s` to `t`, whatever follows. */
  ghost predicate Takes(m: Module, code: seq<Inst>, s: State, t: State, fuel: nat) {
    forall rest {:trigger ExecCode(m, code + rest, s, fuel)} ::
      ExecCode(m, code + rest, s, fuel) == ExecCode(m, rest, t, fuel)
  }

  lemma TakesBoth(m: Module, a: seq<Inst>, b: seq<Inst>, s: State, t: State, u: State, fuel: nat)
    requires Takes(m, a, s, t, fuel) && Takes(m, b, t, u, fuel)
    ensures Takes(m, a + b, s, u, fuel)
  {
    forall rest
      ensures ExecCode(m, (a + b) + rest, s, fuel) == ExecCode(m, rest, u, fuel)
    {
      Assoc(a, b, rest);
      assert ExecCode(m, a + (b + rest), s, fuel) == ExecCode(m, b + rest, t, fuel);
    }
  }

  lemma TakesAll(m: Module, code: seq<Inst>, s: State, t: State, fuel: nat)
    requires Takes(m, code, s, t, fuel)
    ensures ExecCode(m, code, s, fuel) == Running(t)
  {
    assert code + [] == code;
    assert ExecCode(m, code + [], s, fuel) == ExecCode(m, [], t, fuel);
  }

  lemma SlotSteps(m: Module, ty: Ty, base: nat, space: AddrSpace, r: nat, off: nat, a: nat, s: State, fuel: nat)
    requires a == Mask(Get(s.regs, base) + off, PtrBits(space)) && (space == Host ==> LowAccess(ty, a))
    ensures Takes(m, FetchCode(ty, base, space, r, off), s, Fetched(s, r, a, DirectLoad(s.mem, ty, a, space)), fuel)
  {
    var code := FetchCode(ty, base, space, r, off);
    AddressRuns(code[0], Get(s.regs, base), s);
    AddressLoads(m, code, ty, space, r, a, s, fuel);
  }

  lemma AddressLoads(m: Module, code: seq<Inst>, ty: Ty, space: AddrSpace, r: nat, a: nat, s: State, fuel: nat)
    requires |code| == 3 && !code[0].CallI? && Plain(code[0], s) == SetReg(s, r, a) && a < Pow2(PtrBits(space))
    requires code[1] == BitCast(r + 1, Reg(r), PtrTy(space)) && code[2] == LoadI(r + 2, ty, Reg(r + 1), space)
    requires space == Host ==> LowAccess(ty, a)
    ensures Takes(m, code, s, Fetched(s, r, a, DirectLoad(s.mem, ty, a, space)), fuel)
  {
    var s1 := s.(regs := s.regs[r := a]);
    var s2 := s1.(regs := s1.regs[r + 1 := a]);
    var s3 := Fetched(s, r, a, DirectLoad(s.mem, ty, a, space));
    CastKeeps(code[1], a, s1);
    SlotLoads(r + 1, ty, a, space, s2);
    assert code == [code[0], code[1], code[2]];
    ExecThree(m, code[0], code[1], code[2], s, s1, s2, s3, fuel);
  }

  lemma SlotLow(ps: seq<Ty>, q: nat, space: AddrSpace, i: nat)
    requires i < |ps| && SlotsLow(ps, q, space)
    ensures space == Host ==> LowAccess(ps[i], SlotAddress(q, space, i))
  {
  }

  lemma ExecThree(m: Module, a: Inst, b: Inst, c: Inst, s: State, s1: State, s2: State, s3: State, fuel: nat)
    requires !a.CallI? && !b.CallI? && !c.CallI?
    requires Plain(a, s) == Running(s1) && Plain(b, s1) == Running(s2) && Plain(c, s2) == Running(s3)
    ensures Takes(m, [a, b, c], s, s3, fuel)
  {
    assert [a, b, c][1..] == [b, c];
    Exec2(m, b, c, s1, fuel);
    forall rest
      ensures ExecCode(m, [a, b, c] + rest, s, fuel) == ExecCode(m, rest, s3, fuel)
    {
      ExecAppend(m, [a, b, c], rest, s, fuel);
    }
  }

  /** The state after slots i, i+1, ... were fetched. */
  function AllFetched(ps: seq<Ty>, q: nat, space: AddrSpace, r0: nat, i: nat, s: State): State
    decreases |ps| - i
  {
    if i >= |ps| then s else AllFetched(ps, q, space, r0, i + 1, FetchedSlot(ps, q, space, r0, i, s))
  }

  function FetchedSlot(ps: seq<Ty>, q: nat, space: AddrSpace, r0: nat, i: nat, s: State): State
    requires i < |ps|
  {
    Fetched(s, r0 + 3 * i, SlotAddress(q, space, i), SlotValue(s.mem, ps[i], q, space, i))
  }

  lemma OneSlot(m: Module, ps: seq<Ty>, base: nat, space: AddrSpace, r0: nat, i: nat, q: nat, s: State, fuel: nat)
    requires i < |ps| && Get(s.regs, base) == q && SlotsLow(ps, q, space)
    ensures Takes(m, FetchCode(ps[i], base, space, r0 + 3 * i, SlotOffset(space, i)), s,
                  FetchedSlot(ps, q, space, r0, i, s), fuel)
  {
    SlotLow(ps, q, space, i);
    SlotSteps(m, ps[i], base, space, r0 + 3 * i, SlotOffset(space, i), SlotAddress(q, space, i), s, fuel);
  }

  lemma TakesNothing(m: Module, code: seq<Inst>, s: State, fuel: nat)
    requires code == []
    ensures Takes(m, code, s, s, fuel)
  {
    forall rest
      ensures ExecCode(m, code + rest, s, fuel) == ExecCode(m, rest, s, fuel)
    {
      assert code + rest == rest;
    }
  }

  lemma {:induction false} SlotsRun(m: Module, ps: seq<Ty>, base: nat, space: AddrSpace, r0: nat, i: nat,
        q: nat, s: State, fuel: nat)
    requires i <= |ps| && base < r0 && Get(s.regs, base) == q && SlotsLow(ps, q, space)
    ensures Takes(m, Unmarshal(ps, base, space, r0, i), s, AllFetched(ps, q, space, r0, i, s), fuel)
    decreases |ps| - i
  {
    if i == |ps| {
      TakesNothing(m, Unmarshal(ps, base, space, r0, i), s, fuel);
    } else {
      var s1 := FetchedSlot(ps, q, space, r0, i, s);
      OneSlot(m, ps, base, space, r0, i, q, s, fuel);
      SlotsRun(m, ps, base, space, r0, i + 1, q, s1, fuel);
      TakesBoth(m, FetchCode(ps[i], base, space, r0 + 3 * i, SlotOffset(space, i)),
                Unmarshal(ps, base, space, r0, i + 1), s, s1, AllFetched(ps, q, space, r0, i + 1, s1), fuel);
    }
  }

  lemma {:induction false} AllFetchedFacts(ps: seq<Ty>, q: nat, space: AddrSpace, r0: nat, i: nat, s: State)
    requires i <= |ps|
    ensures var s' := AllFetched(ps, q, space, r0, i, s);
            && s'.mem == s.mem && s'.low == s.low
            && SlotsIn(s'.regs, s.mem, ps, q, space, r0, i) && SameBelow(r0 + 3 * i, s.regs, s'.regs)
    decreases |ps| - i
  {
    if i < |ps| {
      var s1 := FetchedSlot(ps, q, space, r0, i, s);
      var s' := AllFetched(ps, q, space, r0, i + 1, s1);
      FetchedKeeps(s, r0, i, SlotAddress(q, space, i), SlotValue(s.mem, ps[i], q, space, i));
      AllFetchedFacts(ps, q, space, r0, i + 1, s1);
      SameBelowBoth(r0 + 3 * i, s.regs, s1.regs, r0 + 3 * (i + 1), s'.regs);
      OneMoreSlot(s1.regs, s'.regs, s.mem, ps, q, space, r0, i);
    }
  }

  /** Running the unmarshalling code loads every slot and changes nothing else below. */
  lemma SlotsLoaded(m: Module, ps: seq<Ty>, base: nat, space: AddrSpace, r0: nat, q: nat, s: State, fuel: nat)
    returns (s': State)
    requires base < r0 && Get(s.regs, base) == q && SlotsLow(ps, q, space)
    ensures ExecCode(m, Unmarshal(ps, base, space, r0, 0), s, fuel) == Running(s')
    ensures s'.mem == s.mem && s'.low == s.low
    ensures SlotsIn(s'.regs, s.mem, ps, q, space, r0, 0) && SameBelow(r0, s.regs, s'.regs)
  {
    s' := AllFetched(ps, q, space, r0, 0, s);
    SlotsRun(m, ps, base, space, r0, 0, q, s, fuel);
    TakesAll(m, Unmarshal(ps, base, space, r0, 0), s, s', fuel);
    AllFetchedFacts(ps, q, space, r0, 0, s);
  }

  /** The values of the slots, in order. */
  function SlotValues(mem: Memory, ps: seq<Ty>, q: nat, space: AddrSpace): (vs: seq<nat>)
    ensures |vs| == |ps|
  {
    seq(|ps|, i requires 0 <= i < |ps| => SlotValue(mem, ps[i], q, space, i))
  }

  lemma {:induction false} ValsAt(os: seq<Operand>, regs: Regs, i: nat)
    requires i < |os|
    ensures Vals(os, regs)[i] == Val(os[i], regs)
  {
    if i > 0 {
      ValsAt(os[1..], regs, i - 1);
    }
  }

  lemma LoadedVals(mem: Memory, ps: seq<Ty>, q: nat, space: AddrSpace, r0: nat, regs: Regs)
    requires SlotsIn(regs, mem, ps, q, space, r0, 0)
    ensures Vals(LoadedRegs(|ps|, r0, 0), regs) == SlotValues(mem, ps, q, space)
  {
    var vs, ws := Vals(LoadedRegs(|ps|, r0, 0), regs), SlotValues(mem, ps, q, space);
    forall j | 0 <= j < |ps|
      ensures vs[j] == ws[j]
    {
      LoadedVal(|ps|, r0, regs, j);
      assert SlotIn(regs, mem, ps, q, space, r0, j);
    }
  }

  lemma LoadedVal(n: nat, r0: nat, regs: Regs, j: nat)
    requires j < n
    ensures Vals(LoadedRegs(n, r0, 0), regs)[j] == Get(regs, r0 + 3 * j + 2)
  {
    ValsAt(LoadedRegs(n, r0, 0), regs, j);
  }

  /** A void call: the callee's memory, whatever it returned. */
  function AsVoid(o: Outcome): Outcome {
    match o
    case Returned(mem, _, l) => Returned(mem, 0, l)
    case _ => o
  }

  /** A block that ends with a void call and a return. */
  lemma CallThenReturn(m: Module, loads: seq<Inst>, call: Inst, s: State, s': State, fuel: nat)
    requires call.CallI? && ExecCode(m, loads, s, fuel + 1) == Running(s')
    ensures RunBlocks(m, [Block(loads + [call], Ret(Const(Num(0))))], 0, s, fuel + 1)
         == AsVoid(RunFn(m, call.callee, Vals(call.args, s'.regs), s'.mem, s'.low, fuel))
  {
    ExecAppend(m, loads, [call], s, fuel + 1);
    Exec1(m, call, s', fuel + 1);
  }

  /** Calling an offload wrapper with the address of a buffer is calling the kernel on its slots. */
  lemma OffloadWrapperRuns(m: Module, w: nat, k: nat, ps: seq<Ty>, q: nat, mem: Memory, fuel: nat)
    requires w < |m| && m[w].params == [IntTy(64)] && m[w].blocks == OffloadBody(k, ps)
    requires q < TWO64 && SlotsLow(ps, q, Host)
    ensures RunFn(m, w, [q], mem, true, fuel + 1)
         == AsVoid(RunFn(m, k, SlotValues(mem, ps, q, Host), mem, true, fuel))
  {
    var s0 := State(Frame([IntTy(64)], [q]), mem, true);
    var s1 := s0.(regs := s0.regs[1 := q]);
    var first, loads := IntToPtr(1, Reg(0), Host), Unmarshal(ps, 1, Host, 2, 0);
    var call := CallI(2 + 3 * |ps|, k, LoadedRegs(|ps|, 2, 0));
    BufferPointer(q, s0, first);
    Exec1(m, first, s0, fuel + 1);
    var s2 := SlotsLoaded(m, ps, 1, Host, 2, q, s1, fuel + 1);
    ExecAppend(m, [first], loads, s0, fuel + 1);
    Assoc([first], loads, [call]);
    CallThenReturn(m, [first] + loads, call, s0, s2, fuel);
    LoadedVals(mem, ps, q, Host, 2, s2.regs);
  }

  lemma BufferPointer(q: nat, s: State, first: Inst)
    requires q < TWO64 && s.regs == Frame([IntTy(64)], [q]) && first == IntToPtr(1, Reg(0), Host)
    ensures Plain(first, s) == SetReg(s, 1, q)
  {
    assert Pow2(64) == TWO64 by {
      PowerTable();
    }
  }

  lemma OutlinedFrame(id0: nat, id1: nat, q: nat)
    requires id0 < TWO32 && id1 < TWO32 && q < TWO32
    ensures var regs := Frame(OUTLINED_PARAMS, [id0, id1, q]);
            Get(regs, 0) == id0 && Get(regs, 1) == id1 && Get(regs, 2) == q
  {
    assert Pow2(32) == TWO32 by {
      PowerTable();
    }
  }

  lemma IdsFirst(os: seq<Operand>, regs: Regs)
    ensures Vals([Reg(0), Reg(1)] + os, regs) == [Get(regs, 0), Get(regs, 1)] + Vals(os, regs)
  {
    var args := [Reg(0), Reg(1)] + os;
    assert args[1..] == [Reg(1)] + os && args[1..][1..] == os;
  }

  /** The registers of an outlined wrapper, once the slots are loaded, as arguments of the call. */
  lemma OutlinedArguments(slots: seq<Ty>, q: nat, s0: State, s1: State)
    requires s1.mem == s0.mem && SlotsIn(s1.regs, s0.mem, slots, q, Device, 3, 0) && SameBelow(3, s0.regs, s1.regs)
    ensures Vals([Reg(0), Reg(1)] + LoadedRegs(|slots|, 3, 0), s1.regs)
         == [Get(s0.regs, 0), Get(s0.regs, 1)] + SlotValues(s0.mem, slots, q, Device)
  {
    assert SameAt(s0.regs, s1.regs, 0) && SameAt(s0.regs, s1.regs, 1);
    LoadedVals(s0.mem, slots, q, Device, 3, s1.regs);
    IdsFirst(LoadedRegs(|slots|, 3, 0), s1.regs);
  }

  lemma OutlinedBodyRuns(m: Module, k: nat, ps: seq<Ty>, q: nat, s0: State, fuel: nat)
    requires Get(s0.regs, 2) == q
    ensures RunBlocks(m, OutlinedBody(k, ps), 0, s0, fuel + 1)
         == AsVoid(RunFn(m, k, [Get(s0.regs, 0), Get(s0.regs, 1)] + SlotValues(s0.mem, FromArray(ps), q, Device),
                         s0.mem, s0.low, fuel))
  {
    var slots := FromArray(ps);
    var loads := Unmarshal(slots, 2, Device, 3, 0);
    var call := CallI(3 + 3 * |slots|, k, [Reg(0), Reg(1)] + LoadedRegs(|slots|, 3, 0));
    var s1 := SlotsLoaded(m, slots, 2, Device, 3, q, s0, fuel + 1);
    OutlinedArguments(slots, q, s0, s1);
    CallThenReturn(m, loads, call, s0, s1, fuel);
  }

  /** Calling an outlined wrapper is calling the function on the ids and the dereferenced slots. */
  lemma OutlinedWrapperRuns(m: Module, w: nat, k: nat, ps: seq<Ty>, id0: nat, id1: nat, q: nat, mem: Memory, fuel: nat)
    requires w < |m| && m[w].params == OUTLINED_PARAMS && m[w].blocks == OutlinedBody(k, ps)
    requires id0 < TWO32 && id1 < TWO32 && q < TWO32
    ensures RunFn(m, w, [id0, id1, q], mem, true, fuel + 1)
         == AsVoid(RunFn(m, k, [id0, id1] + SlotValues(mem, FromArray(ps), q, Device), mem, true, fuel))
  {
    var s0 := State(Frame(OUTLINED_PARAMS, [id0, id1, q]), mem, true);
    OutlinedFrame(id0, id1, q);
    OutlinedBodyRuns(m, k, ps, q, s0, fuel);
  }
}
