/** A small compiler IR with the constructs the two OpenMP passes rewrite, and its interpreter.

    Values are bit patterns.  Host pointers are 64 bits wide and device pointers 32 bits wide; both
    reach the same flat memory, a device pointer being the low half of the host one. */
module MiniIR {
  import opened Words
  import opened Hero64

  // ---- syntax

  datatype AddrSpace = Host | Device | Foreign(id: nat)

  /** The two spaces that constants are cast between. */
  type HeroSpace = s: AddrSpace | s == Host || s == Device witness Host

  function PtrBits(s: AddrSpace): nat {
    if s == Device then 32 else 64
  }

  function Reach(s: AddrSpace): Space {
    if s == Device then Space32 else Space64
  }

  datatype Ty =
    | IntTy(bits: nat)
    | PtrTy(space: AddrSpace)
    | RawTy(bits: nat)             // first-class and neither integer nor pointer: float, vector

  function Bits(t: Ty): nat {
    match t
    case IntTy(b) => b
    case PtrTy(s) => PtrBits(s)
    case RawTy(b) => b
  }

  datatype CExpr =
    | Num(v: nat)
    | CastC(e: CExpr, dest: HeroSpace)     // address space cast from the other of the two spaces
    | ToIntC(e: CExpr, bits: nat)
    | ToPtrC(e: CExpr, to: AddrSpace)
    | SumC(l: CExpr, r: CExpr, bits: nat)

  datatype Operand = Reg(r: nat) | Const(e: CExpr)

  datatype Op = Add | Sub | Mul | Eq | Less

  datatype Inst =
    | LoadI(dst: nat, ty: Ty, ptr: Operand, space: AddrSpace)
    | StoreI(ty: Ty, val: Operand, ptr: Operand, space: AddrSpace)
    | CastI(dst: nat, src: Operand, from: AddrSpace, to: AddrSpace)
    | PtrToInt(dst: nat, src: Operand, bits: nat)
    | IntToPtr(dst: nat, src: Operand, space: AddrSpace)
    | BitCast(dst: nat, src: Operand, ty: Ty)
    | Arith(dst: nat, op: Op, l: Operand, r: Operand, bits: nat)
    | RtLoad(dst: nat, bits: nat, addr: Operand)              // call hero_load_uint<bits>
    | RtStore(bits: nat, addr: Operand, val: Operand)         // call hero_store_uint<bits>
    | CallI(dst: nat, callee: nat, args: seq<Operand>)

  datatype Term = Ret(v: Operand) | Br(target: nat) | CondBr(c: Operand, yes: nat, no: nat)

  datatype Block = Block(code: seq<Inst>, term: Term)

  /** A function uses registers 0..regs-1; its parameters arrive in the first ones. */
  datatype Fn = Fn(name: string, params: seq<Ty>, regs: nat, blocks: seq<Block>)

  type Module = seq<Fn>

  // ---- values

  function EvalC(e: CExpr): nat {
    match e
    case Num(v) => v
    case CastC(e1, to) => Mask(EvalC(e1), PtrBits(to))
    case ToIntC(e1, bits) => Mask(EvalC(e1), bits)
    case ToPtrC(e1, to) => Mask(EvalC(e1), PtrBits(to))
    case SumC(l, r, bits) => Mask(EvalC(l) + EvalC(r), bits)
  }

  type Regs = map<nat, nat>

  function Get(regs: Regs, r: nat): nat {
    if r in regs then regs[r] else 0
  }

  function Val(o: Operand, regs: Regs): nat {
    match o
    case Reg(r) => Get(regs, r)
    case Const(e) => EvalC(e)
  }

  function Vals(os: seq<Operand>, regs: Regs): (vs: seq<nat>)
    ensures |vs| == |os|
  {
    if os == [] then [] else [Val(os[0], regs)] + Vals(os[1..], regs)
  }

  function ArithOp(op: Op, l: nat, r: nat, bits: nat): nat {
    match op
    case Add => Mask(l + r, bits)
    case Sub => Mask(Mask(l, bits) + Pow2(bits) - Mask(r, bits), bits)
    case Mul => Mask(l * r, bits)
    case Eq => if Mask(l, bits) == Mask(r, bits) then 1 else 0
    case Less => if Mask(l, bits) < Mask(r, bits) then 1 else 0
  }

  // ---- memory accesses

  function AccessBytes(bits: nat): nat { (bits + 7) / 8 }

  function Address(v: nat, s: AddrSpace): nat { Mask(v, PtrBits(s)) }

  function DirectLoad(m: Memory, ty: Ty, p: nat, s: AddrSpace): nat {
    Mask(Load(m, Address(p, s), AccessBytes(Bits(ty)), Reach(s)), Bits(ty))
  }

  function DirectStore(m: Memory, ty: Ty, v: nat, p: nat, s: AddrSpace): Memory {
    Store(m, Address(p, s), AccessBytes(Bits(ty)), Mask(v, Bits(ty)), Reach(s))
  }

  /** A host access that ends by 2^32. */
  predicate LowAccess(ty: Ty, p: nat) {
    Address(p, Host) + AccessBytes(Bits(ty)) <= TWO32
  }

  predicate RuntimeWidth(bits: nat) {
    bits == 8 || bits == 16 || bits == 32 || bits == 64
  }

  // ---- execution

  /** `low`: every host access so far ended by 2^32. */
  datatype State = State(regs: Regs, mem: Memory, low: bool)

  datatype Outcome =
    | Running(st: State)
    | Returned(mem: Memory, val: nat, wasLow: bool)
    | Stuck(wasLow: bool)            // undefined function, bad label, wrong argument count
    | Timeout(wasLow: bool)

  function Low(o: Outcome): bool {
    match o
    case Running(st) => st.low
    case Returned(_, _, l) => l
    case Stuck(l) => l
    case Timeout(l) => l
  }

  function SetReg(st: State, r: nat, v: nat): Outcome {
    Running(st.(regs := st.regs[r := v]))
  }

  /** Everything but calls of functions. */
  function Plain(i: Inst, st: State): (o: Outcome)
    requires !i.CallI?
    ensures Low(o) ==> st.low
    ensures !o.Returned?
  {
    match i
    case LoadI(dst, ty, ptr, space) =>
      var p := Val(ptr, st.regs);
      SetReg(st.(low := st.low && (space == Host ==> LowAccess(ty, p))), dst, DirectLoad(st.mem, ty, p, space))
    case StoreI(ty, val, ptr, space) =>
      var p := Val(ptr, st.regs);
      Running(st.(mem := DirectStore(st.mem, ty, Val(val, st.regs), p, space),
                  low := st.low && (space == Host ==> LowAccess(ty, p))))
    case CastI(dst, src, from, to) => SetReg(st, dst, Mask(Val(src, st.regs), PtrBits(to)))
    case PtrToInt(dst, src, bits) => SetReg(st, dst, Mask(Val(src, st.regs), bits))
    case IntToPtr(dst, src, space) => SetReg(st, dst, Mask(Val(src, st.regs), PtrBits(space)))
    case BitCast(dst, src, ty) => SetReg(st, dst, Mask(Val(src, st.regs), Bits(ty)))
    case Arith(dst, op, l, r, bits) => SetReg(st, dst, ArithOp(op, Val(l, st.regs), Val(r, st.regs), bits))
    case RtLoad(dst, bits, addr) =>
      if RuntimeWidth(bits)
      then SetReg(st, dst, RuntimeLoad(st.mem, Mask(Val(addr, st.regs), 64), bits / 8))
      else Stuck(st.low)
    case RtStore(bits, addr, val) =>
      if RuntimeWidth(bits)
      then Running(st.(mem := RuntimeStore(st.mem, Mask(Val(addr, st.regs), 64), bits / 8,
                                           Mask(Val(val, st.regs), bits))))
      else Stuck(st.low)
  }

  function ExecInst(m: Module, i: Inst, st: State, fuel: nat): (o: Outcome)
    ensures Low(o) ==> st.low
    ensures !o.Returned?
    decreases fuel, 0, 0
  {
    if !i.CallI? then Plain(i, st)
    else if fuel == 0 then Timeout(st.low)
    else
      var r := RunFn(m, i.callee, Vals(i.args, st.regs), st.mem, st.low, fuel - 1);
      if r.Returned? then Running(State(st.regs[i.dst := r.val], r.mem, r.wasLow)) else r
  }

  function ExecCode(m: Module, code: seq<Inst>, st: State, fuel: nat): (o: Outcome)
    ensures Low(o) ==> st.low
    ensures !o.Returned?
    decreases fuel, 1, |code|
  {
    if code == [] then Running(st)
    else
      var r := ExecInst(m, code[0], st, fuel);
      if r.Running? then ExecCode(m, code[1..], r.st, fuel) else r
  }

  /** Runs from block `b` on; a branch costs one unit of fuel. */
  function RunBlocks(m: Module, blocks: seq<Block>, b: nat, st: State, fuel: nat): (o: Outcome)
    ensures Low(o) ==> st.low
    ensures !o.Running?
    decreases fuel, 2, 0
  {
    if b >= |blocks| then Stuck(st.low)
    else
      var r := ExecCode(m, blocks[b].code, st, fuel);
      if !r.Running? then r
      else
        var s1 := r.st;
        match blocks[b].term
        case Ret(v) => Returned(s1.mem, Val(v, s1.regs), s1.low)
        case Br(t) => if fuel == 0 then Timeout(s1.low) else RunBlocks(m, blocks, t, s1, fuel - 1)
        case CondBr(c, yes, no) =>
          if fuel == 0 then Timeout(s1.low)
          else RunBlocks(m, blocks, if Val(c, s1.regs) % 2 == 1 then yes else no, s1, fuel - 1)
  }

  /** The arguments, cut to the parameters' widths, in the first registers. */
  function Frame(params: seq<Ty>, args: seq<nat>): Regs
    requires |args| == |params|
  {
    map i: nat | i < |params| :: Mask(args[i], Bits(params[i]))
  }

  function RunFn(m: Module, f: nat, args: seq<nat>, mem: Memory, low: bool, fuel: nat): (o: Outcome)
    ensures Low(o) ==> low
    ensures !o.Running?
    decreases fuel, 3, 0
  {
    if f >= |m| || |args| != |m[f].params| then Stuck(low)
    else RunBlocks(m, m[f].blocks, 0, State(Frame(m[f].params, args), mem, low), fuel)
  }

  lemma {:induction false} ExecAppend(m: Module, a: seq<Inst>, b: seq<Inst>, st: State, fuel: nat)
    ensures ExecCode(m, a + b, st, fuel)
         == match ExecCode(m, a, st, fuel)
            case Running(s1) => ExecCode(m, b, s1, fuel)
            case o => o
    decreases |a|
  {
    if a == [] {
      assert a + b == b;
    } else {
      assert (a + b)[0] == a[0] && (a + b)[1..] == a[1..] + b;
      match ExecInst(m, a[0], st, fuel) {
        case Running(s1) => ExecAppend(m, a[1..], b, s1, fuel);
        case _ =>
      }
    }
  }
}
