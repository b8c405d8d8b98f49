/** The host pointer legalizer (toolchain/llvm-support/OmpHostPointerLegalizer): replaces host-space
    loads, stores and host/device casts by runtime calls and integer conversions, first in
    instructions, then in constant expressions.  LegalizerPass has the pass as it runs. */
module Legalizer {
  import opened ConstExprs
  import opened MiniIR

  /** Only casts between the host and the device space are rewritten. */
  predicate HostDevicePair(from: AddrSpace, to: AddrSpace) {
    (from == Host && to == Device) || (from == Device && to == Host)
  }

  predicate StartsWith(s: string, prefix: string) {
    |prefix| <= |s| && s[..|prefix|] == prefix
  }

  /** Functions whose loads are left alone: those with a support-function prefix in their name. */
  predicate Exempt(name: string) {
    StartsWith(name, "hero_load") || StartsWith(name, "hero_store")
  }

  // ---- instructions; `t` and `t + 1` are fresh registers

  /** visitLoadInst for a host load: the call, and a cast back unless the type is an integer. */
  function VisitLoad(dst: nat, ty: Ty, ptr: Operand, t: nat): seq<Inst> {
    [PtrToInt(t, ptr, PtrBits(Host))]
    + match ty
      case IntTy(bits) => [RtLoad(dst, bits, Reg(t))]
      case PtrTy(s) => [RtLoad(t + 1, Bits(ty), Reg(t)), IntToPtr(dst, Reg(t + 1), s)]
      case RawTy(bits) => [RtLoad(t + 1, bits, Reg(t)), BitCast(dst, Reg(t + 1), ty)]
  }

  /** visitStoreInst for a host store. */
  function VisitStore(ty: Ty, val: Operand, ptr: Operand, t: nat): seq<Inst> {
    [PtrToInt(t, ptr, PtrBits(Host))]
    + match ty
      case IntTy(bits) => [RtStore(bits, Reg(t), val)]
      case PtrTy(_) => [PtrToInt(t + 1, val, Bits(ty)), RtStore(Bits(ty), Reg(t), Reg(t + 1))]
      case RawTy(bits) => [BitCast(t + 1, val, IntTy(bits)), RtStore(bits, Reg(t), Reg(t + 1))]
  }

  /** visitAddrSpaceCastInst for a host/device pair. */
  function VisitCast(dst: nat, src: Operand, to: AddrSpace, t: nat): seq<Inst> {
    [PtrToInt(t, src, PtrBits(to)), IntToPtr(dst, Reg(t), to)]
  }

  function VisitInst(i: Inst, exempt: bool, t: nat): seq<Inst> {
    match i
    case LoadI(dst, ty, ptr, space) =>
      if exempt || space != Host then [i] else VisitLoad(dst, ty, ptr, t)
    case StoreI(ty, val, ptr, space) =>
      if space != Host then [i] else VisitStore(ty, val, ptr, t)
    case CastI(dst, src, from, to) =>
      if HostDevicePair(from, to) then VisitCast(dst, src, to, t) else [i]
    case _ => [i]
  }

  // ---- whole functions: `Visit` is the instruction visitor, `Replace` replaces one constant in all
  // operands, `Consts` converts all casts in them at once, `Keep` changes nothing

  datatype Pass = Keep | Consts | Replace(x: Cast) | Visit

  function MapC(p: Pass, e: CExpr): CExpr {
    match p
    case Consts => LegalizeC(e)
    case Replace(x) => Subst(e, x, Converted(x))
    case _ => e
  }

  function MapO(p: Pass, o: Operand): Operand {
    match o
    case Reg(_) => o
    case Const(e) => Const(MapC(p, e))
  }

  function MapOs(p: Pass, os: seq<Operand>): (r: seq<Operand>)
    ensures |r| == |os|
  {
    if os == [] then [] else [MapO(p, os[0])] + MapOs(p, os[1..])
  }

  function MapInst(p: Pass, i: Inst): Inst {
    match i
    case LoadI(dst, ty, ptr, space) => LoadI(dst, ty, MapO(p, ptr), space)
    case StoreI(ty, val, ptr, space) => StoreI(ty, MapO(p, val), MapO(p, ptr), space)
    case CastI(dst, src, from, to) => CastI(dst, MapO(p, src), from, to)
    case PtrToInt(dst, src, bits) => PtrToInt(dst, MapO(p, src), bits)
    case IntToPtr(dst, src, space) => IntToPtr(dst, MapO(p, src), space)
    case BitCast(dst, src, ty) => BitCast(dst, MapO(p, src), ty)
    case Arith(dst, op, l, r, bits) => Arith(dst, op, MapO(p, l), MapO(p, r), bits)
    case RtLoad(dst, bits, addr) => RtLoad(dst, bits, MapO(p, addr))
    case RtStore(bits, addr, val) => RtStore(bits, MapO(p, addr), MapO(p, val))
    case CallI(dst, callee, args) => CallI(dst, callee, MapOs(p, args))
  }

  function MapTerm(p: Pass, t: Term): Term {
    match t
    case Ret(v) => Ret(MapO(p, v))
    case Br(_) => t
    case CondBr(c, yes, no) => CondBr(MapO(p, c), yes, no)
  }

  predicate OnOperands(p: Pass) { p.Consts? || p.Replace? }

  function Expand(p: Pass, exempt: bool, i: Inst, t: nat): seq<Inst> {
    if OnOperands(p) then [MapInst(p, i)] else if p.Visit? then VisitInst(i, exempt, t) else [i]
  }

  function ExpandCode(p: Pass, exempt: bool, code: seq<Inst>, t: nat): seq<Inst> {
    if code == [] then []
    else Expand(p, exempt, code[0], t) + ExpandCode(p, exempt, code[1..], t + 2)
  }

  function ExpandBlock(p: Pass, exempt: bool, b: Block, t: nat): Block {
    Block(ExpandCode(p, exempt, b.code, t), if OnOperands(p) then MapTerm(p, b.term) else b.term)
  }

  function ExpandBlocks(p: Pass, exempt: bool, blocks: seq<Block>, t: nat): (r: seq<Block>)
    ensures |r| == |blocks|
  {
    if blocks == [] then []
    else [ExpandBlock(p, exempt, blocks[0], t)]
         + ExpandBlocks(p, exempt, blocks[1..], t + 2 * |blocks[0].code|)
  }

  function CodeSize(blocks: seq<Block>): nat {
    if blocks == [] then 0 else |blocks[0].code| + CodeSize(blocks[1..])
  }

  function ExpandFn(p: Pass, f: Fn): Fn {
    Fn(f.name, f.params, if p.Visit? then f.regs + 2 * CodeSize(f.blocks) else f.regs,
       ExpandBlocks(p, Exempt(f.name), f.blocks, f.regs))
  }

  function ExpandModule(p: Pass, m: Module): (r: Module)
    ensures |r| == |m|
  {
    if m == [] then [] else [ExpandFn(p, m[0])] + ExpandModule(p, m[1..])
  }

  /** The pass: instructions first, then the constant expressions of all instructions. */
  function Legalize(m: Module): Module {
    ExpandModule(Consts, ExpandModule(Visit, m))
  }
}
