/** The legalizer preserves meaning: a simulation between a module and its rewriting, proved once
    for both phases of the pass and for modules that only gain functions. */
module LegalizerProof {
  import opened ConstExprs
  import opened Words
  import opened Hero64
  import opened MiniIR
  import opened Legalizer

  // ---- constant expressions

  /** Replacing one cast never changes a value. */
  lemma {:induction false} SubstValue(e: CExpr, x: Cast)
    ensures EvalC(Subst(e, x, Converted(x))) == EvalC(e)
  {
    if e != x {
      match e {
        case Num(_) =>
        case CastC(e1, _) => SubstValue(e1, x);
        case ToIntC(e1, _) => SubstValue(e1, x);
        case ToPtrC(e1, _) => SubstValue(e1, x);
        case SumC(l, r, _) => SubstValue(l, x); SubstValue(r, x);
      }
    }
  }

  lemma MapOValue(p: Pass, o: Operand, regs: Regs)
    ensures Val(MapO(p, o), regs) == Val(o, regs)
  {
    if o.Const? {
      match p {
        case Consts => LegalizeCValue(o.e);
        case Replace(x) => SubstValue(o.e, x);
        case _ =>
      }
    }
  }

  lemma {:induction false} MapOsValue(p: Pass, os: seq<Operand>, regs: Regs)
    ensures Vals(MapOs(p, os), regs) == Vals(os, regs)
  {
    if os != [] {
      MapOValue(p, os[0], regs);
      MapOsValue(p, os[1..], regs);
      assert MapOs(p, os)[1..] == MapOs(p, os[1..]);
    }
  }

  // ---- when two states agree

  predicate SameAt(a: Regs, b: Regs, r: nat) { Get(a, r) == Get(b, r) }

  /** After the visitor the registers below `base` agree, the ones above are its temporaries;
      the other rewritings keep all registers. */
  ghost predicate Agree(p: Pass, base: nat, s: State, s': State) {
    && s.mem == s'.mem && s.low == s'.low
    && (if p.Visit? then forall r: nat :: r < base ==> SameAt(s.regs, s'.regs, r)
        else s.regs == s'.regs)
  }

  ghost predicate OutAgree(p: Pass, base: nat, o: Outcome, o': Outcome) {
    if o.Running? then o'.Running? && Agree(p, base, o.st, o'.st) else o == o'
  }

  // ---- what the visitor needs of a function

  predicate OperandOk(o: Operand, base: nat) { o.Reg? ==> o.r < base }

  predicate InstOk(i: Inst, exempt: bool, base: nat) {
    match i
    case LoadI(dst, ty, ptr, space) =>
      dst < base && OperandOk(ptr, base) && (space == Host && !exempt ==> RuntimeWidth(Bits(ty)))
    case StoreI(ty, val, ptr, space) =>
      OperandOk(val, base) && OperandOk(ptr, base) && (space == Host ==> RuntimeWidth(Bits(ty)))
    case CastI(dst, src, _, _) => dst < base && OperandOk(src, base)
    case PtrToInt(dst, src, _) => dst < base && OperandOk(src, base)
    case IntToPtr(dst, src, _) => dst < base && OperandOk(src, base)
    case BitCast(dst, src, _) => dst < base && OperandOk(src, base)
    case Arith(dst, _, l, r, _) => dst < base && OperandOk(l, base) && OperandOk(r, base)
    case RtLoad(dst, _, addr) => dst < base && OperandOk(addr, base)
    case RtStore(_, addr, val) => OperandOk(addr, base) && OperandOk(val, base)
    case CallI(dst, _, args) => dst < base && forall o :: o in args ==> OperandOk(o, base)
  }

  predicate TermOk(t: Term, base: nat) {
    match t
    case Ret(v) => OperandOk(v, base)
    case Br(_) => true
    case CondBr(c, _, _) => OperandOk(c, base)
  }

  ghost predicate BlockOk(b: Block, exempt: bool, base: nat) {
    (forall i :: i in b.code ==> InstOk(i, exempt, base)) && TermOk(b.term, base)
  }

  /** Registers stay below the declared count, and host accesses have a width the runtime serves. */
  ghost predicate FnOk(f: Fn) {
    forall b :: b in f.blocks ==> BlockOk(b, Exempt(f.name), f.regs)
  }

  ghost predicate ModuleOk(m: Module) {
    forall f :: f in m ==> FnOk(f)
  }

  // ---- executing the replacements

  lemma Exec1(m: Module, a: Inst, st: State, fuel: nat)
    ensures ExecCode(m, [a], st, fuel) == ExecInst(m, a, st, fuel)
  {
    assert [a][1..] == [];
  }

  lemma Exec2(m: Module, a: Inst, b: Inst, st: State, fuel: nat)
    requires !a.CallI? && !b.CallI?
    ensures ExecCode(m, [a, b], st, fuel)
         == match Plain(a, st) case Running(s1) => Plain(b, s1) case o => o
  {
    assert [a, b][1..] == [b];
    match Plain(a, st) {
      case Running(s1) => Exec1(m, b, s1, fuel);
      case _ =>
    }
  }

  lemma Exec3(m: Module, a: Inst, b: Inst, c: Inst, st: State, fuel: nat)
    requires a.PtrToInt? && !b.CallI? && !c.CallI?
    ensures ExecCode(m, [a, b, c], st, fuel)
         == match Plain(b, Plain(a, st).st) case Running(s2) => Plain(c, s2) case o => o
  {
    assert [a, b, c][1..] == [b, c];
    Exec2(m, b, c, Plain(a, st).st, fuel);
  }

  lemma WidthBytes(bits: nat)
    requires RuntimeWidth(bits)
    ensures Width(bits / 8) && AccessBytes(bits) == bits / 8
    ensures Pow2(bits) == Pow256(bits / 8)
  {
    PowersAgree(bits / 8);
  }

  /** A runtime load of a low host address is the direct load. */
  lemma RuntimeLoadIsDirect(mem: Memory, ty: Ty, p: nat)
    requires RuntimeWidth(Bits(ty)) && LowAccess(ty, p)
    ensures RuntimeLoad(mem, Address(p, Host), Bits(ty) / 8) == DirectLoad(mem, ty, p, Host)
    ensures DirectLoad(mem, ty, p, Host) < Pow2(Bits(ty))
  {
    var a, n := Address(p, Host), Bits(ty) / 8;
    WidthBytes(Bits(ty));
    LoadIsOneAccess(mem, a, n);
    LoadBound(mem, a, n, Space64);
  }

  lemma RuntimeStoreIsDirect(mem: Memory, ty: Ty, v: nat, p: nat)
    requires RuntimeWidth(Bits(ty)) && LowAccess(ty, p)
    ensures RuntimeStore(mem, Address(p, Host), Bits(ty) / 8, Mask(v, Bits(ty))) == DirectStore(mem, ty, v, p, Host)
  {
    WidthBytes(Bits(ty));
    StoreIsOneAccess(mem, Address(p, Host), Bits(ty) / 8, Mask(v, Bits(ty)));
  }

  lemma SameOperand(o: Operand, base: nat, s: State, s': State)
    requires OperandOk(o, base) && Agree(Visit, base, s, s')
    ensures Val(o, s.regs) == Val(o, s'.regs)
  {
    if o.Reg? {
      assert SameAt(s.regs, s'.regs, o.r);
    }
  }

  lemma {:induction false} SameOperands(os: seq<Operand>, base: nat, s: State, s': State)
    requires (forall o :: o in os ==> OperandOk(o, base)) && Agree(Visit, base, s, s')
    ensures Vals(os, s.regs) == Vals(os, s'.regs)
  {
    if os != [] {
      SameOperand(os[0], base, s, s');
      SameOperands(os[1..], base, s, s');
    }
  }

  /** A temporary does not disturb the agreement. */
  lemma TempKeeps(base: nat, t: nat, v: nat, s: State, s': State)
    requires base <= t && Agree(Visit, base, s, s')
    ensures Agree(Visit, base, s, s'.(regs := s'.regs[t := v]))
    ensures Val(Reg(t), s'.regs[t := v]) == v
  {
    var regs := s'.regs[t := v];
    forall r: nat | r < base
      ensures SameAt(s.regs, regs, r)
    {
      assert SameAt(s.regs, s'.regs, r);
    }
  }

  lemma BothSet(base: nat, dst: nat, v: nat, s: State, s': State)
    requires Agree(Visit, base, s, s')
    ensures Agree(Visit, base, s.(regs := s.regs[dst := v]), s'.(regs := s'.regs[dst := v]))
  {
    var a, b := s.regs[dst := v], s'.regs[dst := v];
    forall r: nat | r < base
      ensures SameAt(a, b, r)
    {
      assert SameAt(s.regs, s'.regs, r);
    }
  }

  /** A host load of an integer type. */
  lemma IntLoadVisited(m: Module, dst: nat, bits: nat, ptr: Operand, base: nat, t: nat, s: State, s': State, fuel: nat)
    requires base <= t && Agree(Visit, base, s, s') && InstOk(LoadI(dst, IntTy(bits), ptr, Host), false, base)
    requires LowAccess(IntTy(bits), Val(ptr, s.regs))
    ensures OutAgree(Visit, base, Plain(LoadI(dst, IntTy(bits), ptr, Host), s),
                     ExecCode(m, VisitLoad(dst, IntTy(bits), ptr, t), s', fuel))
  {
    var first, call := PtrToInt(t, ptr, PtrBits(Host)), RtLoad(dst, bits, Reg(t));
    var p := Val(ptr, s.regs);
    var s1 := s'.(regs := s'.regs[t := Address(p, Host)]);
    SameOperand(ptr, base, s, s');
    TempKeeps(base, t, Address(p, Host), s, s');
    CallLoads(call, IntTy(bits), p, t, s1);
    Exec2(m, first, call, s', fuel);
    BothSet(base, dst, DirectLoad(s.mem, IntTy(bits), p, Host), s, s1);
  }

  /** The state after a legalized load of a pointer or raw type, or store of one: both
      temporaries set, to the address and to the value in transit. */
  function WithTemps(s: State, t: nat, a: nat, v: nat): State {
    s.(regs := s.regs[t := a][t + 1 := v])
  }

  lemma TempsKeep(base: nat, t: nat, a: nat, v: nat, s: State, s': State)
    requires base <= t && Agree(Visit, base, s, s')
    ensures Agree(Visit, base, s, WithTemps(s', t, a, v))
  {
    TempKeeps(base, t, a, s, s');
    TempKeeps(base, t + 1, v, s, s'.(regs := s'.regs[t := a]));
  }

  lemma CastLoadRuns(m: Module, dst: nat, ty: Ty, ptr: Operand, p: nat, t: nat, s: State, fuel: nat)
    requires !ty.IntTy? && RuntimeWidth(Bits(ty)) && p == Val(ptr, s.regs) && LowAccess(ty, p)
    ensures var v := DirectLoad(s.mem, ty, p, Host);
            ExecCode(m, VisitLoad(dst, ty, ptr, t), s, fuel) == SetReg(WithTemps(s, t, Address(p, Host), v), dst, v)
  {
    var first, call := PtrToInt(t, ptr, PtrBits(Host)), RtLoad(t + 1, Bits(ty), Reg(t));
    var last := if ty.PtrTy? then IntToPtr(dst, Reg(t + 1), ty.space) else BitCast(dst, Reg(t + 1), ty);
    var v := DirectLoad(s.mem, ty, p, Host);
    var s1 := s.(regs := s.regs[t := Address(p, Host)]);
    var s2 := WithTemps(s, t, Address(p, Host), v);
    assert VisitLoad(dst, ty, ptr, t) == [first, call, last];
    assert Plain(first, s) == Running(s1);
    assert Plain(call, s1) == Running(s2) by {
      CallLoads(call, ty, p, t, s1);
    }
    assert Plain(last, s2) == SetReg(s2, dst, v) by {
      RuntimeLoadIsDirect(s.mem, ty, p);
      CastKeeps(last, v, s2);
    }
    Exec3(m, first, call, last, s, fuel);
  }

  /** A host load of a pointer or raw type: the call's integer is cast back. */
  lemma CastLoadVisited(m: Module, dst: nat, ty: Ty, ptr: Operand, base: nat, t: nat, s: State, s': State, fuel: nat)
    requires base <= t && Agree(Visit, base, s, s') && InstOk(LoadI(dst, ty, ptr, Host), false, base)
    requires !ty.IntTy? && LowAccess(ty, Val(ptr, s.regs))
    ensures OutAgree(Visit, base, Plain(LoadI(dst, ty, ptr, Host), s),
                     ExecCode(m, VisitLoad(dst, ty, ptr, t), s', fuel))
  {
    SameOperand(ptr, base, s, s');
    var p := Val(ptr, s.regs);
    var v := DirectLoad(s.mem, ty, p, Host);
    CastLoadRuns(m, dst, ty, ptr, p, t, s', fuel);
    TempsKeep(base, t, Address(p, Host), v, s, s');
    BothSet(base, dst, v, s, WithTemps(s', t, Address(p, Host), v));
  }

  /** Casting a value to a type it fits does not change it. */
  lemma CastKeeps(cast: Inst, v: nat, s: State)
    requires cast.IntToPtr? || cast.BitCast?
    requires v < Pow2(if cast.IntToPtr? then PtrBits(cast.space) else Bits(cast.ty)) && Val(cast.src, s.regs) == v
    ensures Plain(cast, s) == SetReg(s, cast.dst, v)
  {
  }

  /** The runtime call of a legalized load, its address being in register `t`. */
  lemma CallLoads(call: Inst, ty: Ty, p: nat, t: nat, s: State)
    requires RuntimeWidth(Bits(ty)) && LowAccess(ty, p) && Get(s.regs, t) == Address(p, Host)
    requires call.RtLoad? && call.bits == Bits(ty) && call.addr == Reg(t)
    ensures Plain(call, s) == SetReg(s, call.dst, DirectLoad(s.mem, ty, p, Host))
  {
    RuntimeLoadIsDirect(s.mem, ty, p);
  }

  lemma CallStores(call: Inst, ty: Ty, v: nat, p: nat, t: nat, s: State)
    requires RuntimeWidth(Bits(ty)) && LowAccess(ty, p) && Get(s.regs, t) == Address(p, Host)
    requires call.RtStore? && call.bits == Bits(ty) && call.addr == Reg(t)
    requires Mask(Val(call.val, s.regs), Bits(ty)) == Mask(v, Bits(ty))
    ensures Plain(call, s) == Running(s.(mem := DirectStore(s.mem, ty, v, p, Host)))
  {
    RuntimeStoreIsDirect(s.mem, ty, v, p);
  }

  lemma IntStoreVisited(m: Module, bits: nat, val: Operand, ptr: Operand, base: nat, t: nat, s: State,
        s': State, fuel: nat)
    requires base <= t && Agree(Visit, base, s, s') && InstOk(StoreI(IntTy(bits), val, ptr, Host), false, base)
    requires LowAccess(IntTy(bits), Val(ptr, s.regs))
    ensures OutAgree(Visit, base, Plain(StoreI(IntTy(bits), val, ptr, Host), s),
                     ExecCode(m, VisitStore(IntTy(bits), val, ptr, t), s', fuel))
  {
    var first, call := PtrToInt(t, ptr, PtrBits(Host)), RtStore(bits, Reg(t), val);
    var p, v := Val(ptr, s.regs), Val(val, s.regs);
    var s1 := s'.(regs := s'.regs[t := Address(p, Host)]);
    SameOperand(ptr, base, s, s');
    TempKeeps(base, t, Address(p, Host), s, s');
    SameOperand(val, base, s, s1);
    CallStores(call, IntTy(bits), v, p, t, s1);
    Exec2(m, first, call, s', fuel);
  }

  /** The cast before a legalized store. */
  function StoreCast(ty: Ty, val: Operand, t: nat): Inst
    requires !ty.IntTy?
  {
    if ty.PtrTy? then PtrToInt(t + 1, val, Bits(ty)) else BitCast(t + 1, val, IntTy(ty.bits))
  }

  lemma StoreCastRuns(ty: Ty, val: Operand, t: nat, s: State)
    requires !ty.IntTy?
    ensures Plain(StoreCast(ty, val, t), s) == SetReg(s, t + 1, Mask(Val(val, s.regs), Bits(ty)))
  {
  }

  lemma CastStoreRuns(m: Module, ty: Ty, val: Operand, ptr: Operand, v: nat, p: nat, t: nat, s: State, fuel: nat)
    requires !ty.IntTy? && RuntimeWidth(Bits(ty)) && p == Val(ptr, s.regs) && LowAccess(ty, p)
    requires v == Val(val, s.regs) && v == Val(val, s.regs[t := Address(p, Host)])
    ensures ExecCode(m, VisitStore(ty, val, ptr, t), s, fuel)
         == Running(WithTemps(s, t, Address(p, Host), Mask(v, Bits(ty))).(mem := DirectStore(s.mem, ty, v, p, Host)))
  {
    var first, call := PtrToInt(t, ptr, PtrBits(Host)), RtStore(Bits(ty), Reg(t), Reg(t + 1));
    var cast := StoreCast(ty, val, t);
    var s1 := s.(regs := s.regs[t := Address(p, Host)]);
    var s2 := WithTemps(s, t, Address(p, Host), Mask(v, Bits(ty)));
    assert VisitStore(ty, val, ptr, t) == [first, cast, call];
    assert Plain(first, s) == Running(s1);
    StoreCastRuns(ty, val, t, s1);
    CallStores(call, ty, v, p, t, s2);
    Exec3(m, first, cast, call, s, fuel);
  }

  /** A host store of a pointer or raw type: the value is cast to an integer first. */
  lemma CastStoreVisited(m: Module, ty: Ty, val: Operand, ptr: Operand, base: nat, t: nat, s: State, s': State,
        fuel: nat)
    requires base <= t && Agree(Visit, base, s, s') && InstOk(StoreI(ty, val, ptr, Host), false, base)
    requires !ty.IntTy? && LowAccess(ty, Val(ptr, s.regs))
    ensures OutAgree(Visit, base, Plain(StoreI(ty, val, ptr, Host), s),
                     ExecCode(m, VisitStore(ty, val, ptr, t), s', fuel))
  {
    SameOperand(ptr, base, s, s');
    SameOperand(val, base, s, s');
    var p, v := Val(ptr, s.regs), Val(val, s.regs);
    CastStoreRuns(m, ty, val, ptr, v, p, t, s', fuel);
    TempsKeep(base, t, Address(p, Host), Mask(v, Bits(ty)), s, s');
  }

  lemma CastVisited(m: Module, dst: nat, src: Operand, from: AddrSpace, to: AddrSpace, base: nat, t: nat,
        s: State, s': State, fuel: nat)
    requires base <= t && Agree(Visit, base, s, s') && InstOk(CastI(dst, src, from, to), false, base)
    ensures OutAgree(Visit, base, Plain(CastI(dst, src, from, to), s),
                     ExecCode(m, VisitCast(dst, src, to, t), s', fuel))
  {
    SameOperand(src, base, s, s');
    var v := Mask(Val(src, s.regs), PtrBits(to));
    var s1 := s'.(regs := s'.regs[t := v]);
    TempKeeps(base, t, v, s, s');
    BothSet(base, dst, v, s, s1);
    Exec2(m, PtrToInt(t, src, PtrBits(to)), IntToPtr(dst, Reg(t), to), s', fuel);
  }

  lemma UntouchedVisited(i: Inst, exempt: bool, base: nat, s: State, s': State)
    requires !i.CallI? && InstOk(i, exempt, base) && Agree(Visit, base, s, s')
    ensures OutAgree(Visit, base, Plain(i, s), Plain(i, s'))
  {
    match i {
      case LoadI(_, _, ptr, _) => SameOperand(ptr, base, s, s');
      case StoreI(_, val, ptr, _) => SameOperand(ptr, base, s, s'); SameOperand(val, base, s, s');
      case CastI(_, src, _, _) => SameOperand(src, base, s, s');
      case PtrToInt(_, src, _) => SameOperand(src, base, s, s');
      case IntToPtr(_, src, _) => SameOperand(src, base, s, s');
      case BitCast(_, src, _) => SameOperand(src, base, s, s');
      case Arith(_, _, l, r, _) => SameOperand(l, base, s, s'); SameOperand(r, base, s, s');
      case RtLoad(_, _, addr) => SameOperand(addr, base, s, s');
      case RtStore(_, addr, val) => SameOperand(addr, base, s, s'); SameOperand(val, base, s, s');
    }
    var o := Plain(i, s);
    if o.Running? && !i.StoreI? && !i.RtStore? {
      BothSet(base, i.dst, o.st.regs[i.dst], s, s');
    }
  }

  lemma PlainVisited(m: Module, i: Inst, exempt: bool, base: nat, t: nat, s: State, s': State, fuel: nat)
    requires !i.CallI? && InstOk(i, exempt, base) && base <= t && Agree(Visit, base, s, s')
    requires Low(Plain(i, s))
    ensures OutAgree(Visit, base, Plain(i, s), ExecCode(m, VisitInst(i, exempt, t), s', fuel))
  {
    if i.LoadI? && i.space == Host && !exempt {
      if i.ty.IntTy? {
        IntLoadVisited(m, i.dst, i.ty.bits, i.ptr, base, t, s, s', fuel);
      } else {
        CastLoadVisited(m, i.dst, i.ty, i.ptr, base, t, s, s', fuel);
      }
    } else if i.StoreI? && i.space == Host {
      if i.ty.IntTy? {
        IntStoreVisited(m, i.ty.bits, i.val, i.ptr, base, t, s, s', fuel);
      } else {
        CastStoreVisited(m, i.ty, i.val, i.ptr, base, t, s, s', fuel);
      }
    } else if i.CastI? && HostDevicePair(i.from, i.to) {
      CastVisited(m, i.dst, i.src, i.from, i.to, base, t, s, s', fuel);
    } else {
      UntouchedVisited(i, exempt, base, s, s');
      Exec1(m, i, s', fuel);
    }
  }

  lemma MapInstSame(p: Pass, i: Inst, s: State)
    requires !i.CallI?
    ensures !MapInst(p, i).CallI? && Plain(MapInst(p, i), s) == Plain(i, s)
  {
    match i {
      case LoadI(_, _, ptr, _) => MapOValue(p, ptr, s.regs);
      case StoreI(_, val, ptr, _) => MapOValue(p, ptr, s.regs); MapOValue(p, val, s.regs);
      case CastI(_, src, _, _) => MapOValue(p, src, s.regs);
      case PtrToInt(_, src, _) => MapOValue(p, src, s.regs);
      case IntToPtr(_, src, _) => MapOValue(p, src, s.regs);
      case BitCast(_, src, _) => MapOValue(p, src, s.regs);
      case Arith(_, _, l, r, _) => MapOValue(p, l, s.regs); MapOValue(p, r, s.regs);
      case RtLoad(_, _, addr) => MapOValue(p, addr, s.regs);
      case RtStore(_, addr, val) => MapOValue(p, addr, s.regs); MapOValue(p, val, s.regs);
    }
  }

  // ---- whole modules

  predicate Calls(i: Inst, count: nat) { i.CallI? ==> i.callee < count }

  /** No function calls past the end of the module. */
  ghost predicate Closed(m: Module) {
    forall f, b, i :: f in m && b in f.blocks && i in b.code ==> Calls(i, |m|)
  }

  /** `f'` is the rewriting of `f` under pass `p`; its name does not matter. */
  ghost predicate FnRel(p: Pass, f: Fn, f': Fn) {
    && f'.params == f.params
    && f'.blocks == ExpandBlocks(p, Exempt(f.name), f.blocks, f.regs)
    && (p.Visit? ==> FnOk(f))
  }

  /** `m'` is `m` rewritten function by function, possibly with more functions behind. */
  ghost predicate Rel(p: Pass, m: Module, m': Module) {
    && |m| <= |m'|
    && (|m| < |m'| ==> Closed(m))
    && forall f :: 0 <= f < |m| ==> FnRel(p, m[f], m'[f])
  }

  lemma {:induction false} BlockAt(p: Pass, exempt: bool, blocks: seq<Block>, t: nat, b: nat) returns (t': nat)
    requires b < |blocks|
    ensures t <= t' && ExpandBlocks(p, exempt, blocks, t)[b] == ExpandBlock(p, exempt, blocks[b], t')
  {
    if b == 0 {
      t' := t;
    } else {
      t' := BlockAt(p, exempt, blocks[1..], t + 2 * |blocks[0].code|, b - 1);
    }
  }

  /** What the simulation of one instruction needs to know about it. */
  ghost predicate Fits(p: Pass, m: Module, m': Module, i: Inst, exempt: bool, base: nat) {
    (p.Visit? ==> InstOk(i, exempt, base)) && (|m| < |m'| ==> Calls(i, |m|))
  }

  lemma {:induction false} SimInst(p: Pass, m: Module, m': Module, i: Inst, exempt: bool, base: nat, t: nat,
        s: State, s': State, fuel: nat)
    requires Rel(p, m, m') && Fits(p, m, m', i, exempt, base) && base <= t && Agree(p, base, s, s')
    requires p.Visit? ==> Low(ExecInst(m, i, s, fuel))
    ensures OutAgree(p, base, ExecInst(m, i, s, fuel), ExecCode(m', Expand(p, exempt, i, t), s', fuel))
    decreases fuel, 0, 0
  {
    if !i.CallI? {
      if OnOperands(p) {
        MapInstSame(p, i, s);
        Exec1(m', MapInst(p, i), s', fuel);
      } else if p.Visit? {
        PlainVisited(m', i, exempt, base, t, s, s', fuel);
      } else {
        Exec1(m', i, s', fuel);
      }
    } else {
      var i' := Expand(p, exempt, i, t)[0];
      Exec1(m', i', s', fuel);
      if OnOperands(p) {
        MapOsValue(p, i.args, s.regs);
      } else if p.Visit? {
        SameOperands(i.args, base, s, s');
      }
      if fuel > 0 {
        SimFn(p, m, m', i.callee, Vals(i.args, s.regs), s.mem, s.low, fuel - 1);
        var o := ExecInst(m, i, s, fuel);
        if p.Visit? && o.Running? {
          BothSet(base, i.dst, o.st.regs[i.dst], s, s');
        }
      }
    }
  }

  lemma {:induction false} SimCode(p: Pass, m: Module, m': Module, code: seq<Inst>, exempt: bool, base: nat,
        t: nat, s: State, s': State, fuel: nat)
    requires Rel(p, m, m') && (forall i :: i in code ==> Fits(p, m, m', i, exempt, base))
    requires base <= t && Agree(p, base, s, s')
    requires p.Visit? ==> Low(ExecCode(m, code, s, fuel))
    ensures OutAgree(p, base, ExecCode(m, code, s, fuel), ExecCode(m', ExpandCode(p, exempt, code, t), s', fuel))
    decreases fuel, 1, |code|
  {
    if code != [] {
      var e, rest := Expand(p, exempt, code[0], t), ExpandCode(p, exempt, code[1..], t + 2);
      assert Fits(p, m, m', code[0], exempt, base);
      SimInst(p, m, m', code[0], exempt, base, t, s, s', fuel);
      ExecAppend(m', e, rest, s', fuel);
      match ExecInst(m, code[0], s, fuel) {
        case Running(s1) =>
          SimCode(p, m, m', code[1..], exempt, base, t + 2, s1, ExecCode(m', e, s', fuel).st, fuel);
        case _ =>
      }
    }
  }

  lemma SameTerm(p: Pass, t: Term, base: nat, s: State, s': State)
    requires Agree(p, base, s, s') && (p.Visit? ==> TermOk(t, base))
    ensures var t' := if OnOperands(p) then MapTerm(p, t) else t;
            match t
            case Ret(v) => t'.Ret? && Val(t'.v, s'.regs) == Val(v, s.regs)
            case Br(b) => t' == t
            case CondBr(c, yes, no) =>
              t'.CondBr? && t'.yes == yes && t'.no == no && Val(t'.c, s'.regs) == Val(c, s.regs)
  {
    if !t.Br? {
      var o := if t.Ret? then t.v else t.c;
      MapOValue(p, o, s.regs);
      if p.Visit? {
        SameOperand(o, base, s, s');
      }
    }
  }

  ghost predicate BlocksFit(p: Pass, m: Module, m': Module, blocks: seq<Block>, exempt: bool, base: nat) {
    forall b :: b in blocks ==>
      (forall i :: i in b.code ==> Fits(p, m, m', i, exempt, base)) && (p.Visit? ==> TermOk(b.term, base))
  }

  lemma {:induction false} SimBlocks(p: Pass, m: Module, m': Module, blocks: seq<Block>, exempt: bool,
        base: nat, b: nat, s: State, s': State, fuel: nat)
    requires Rel(p, m, m') && BlocksFit(p, m, m', blocks, exempt, base) && Agree(p, base, s, s')
    requires p.Visit? ==> Low(RunBlocks(m, blocks, b, s, fuel))
    ensures RunBlocks(m', ExpandBlocks(p, exempt, blocks, base), b, s', fuel) == RunBlocks(m, blocks, b, s, fuel)
    decreases fuel, 2, 0
  {
    if b < |blocks| {
      var t := BlockAt(p, exempt, blocks, base, b);
      assert blocks[b] in blocks;
      SimCode(p, m, m', blocks[b].code, exempt, base, t, s, s', fuel);
      match ExecCode(m, blocks[b].code, s, fuel) {
        case Running(s1) =>
          var s1' := ExecCode(m', ExpandCode(p, exempt, blocks[b].code, t), s', fuel).st;
          SameTerm(p, blocks[b].term, base, s1, s1');
          if fuel > 0 {
            match blocks[b].term {
              case Ret(_) =>
              case Br(k) => SimBlocks(p, m, m', blocks, exempt, base, k, s1, s1', fuel - 1);
              case CondBr(c, yes, no) =>
                var k := if Val(c, s1.regs) % 2 == 1 then yes else no;
                SimBlocks(p, m, m', blocks, exempt, base, k, s1, s1', fuel - 1);
            }
          }
        case _ =>
      }
    }
  }

  lemma RelFits(p: Pass, m: Module, m': Module, f: nat)
    requires Rel(p, m, m') && f < |m|
    ensures BlocksFit(p, m, m', m[f].blocks, Exempt(m[f].name), m[f].regs)
  {
    assert FnRel(p, m[f], m'[f]);
    assert m[f] in m;
  }

  /** The simulation theorem: the rewritten function has the same outcome on the same arguments and
      memory, for every amount of fuel; for the visitor, as long as no host access passes 2^32. */
  lemma {:induction false} SimFn(p: Pass, m: Module, m': Module, f: nat, args: seq<nat>, mem: Memory,
        low: bool, fuel: nat)
    requires Rel(p, m, m') && (|m| < |m'| ==> f < |m|)
    requires p.Visit? ==> Low(RunFn(m, f, args, mem, low, fuel))
    ensures RunFn(m', f, args, mem, low, fuel) == RunFn(m, f, args, mem, low, fuel)
    decreases fuel, 3, 0
  {
    if f < |m| && |args| == |m[f].params| {
      assert FnRel(p, m[f], m'[f]);
      RelFits(p, m, m', f);
      var s := State(Frame(m[f].params, args), mem, low);
      SimBlocks(p, m, m', m[f].blocks, Exempt(m[f].name), m[f].regs, 0, s, s, fuel);
    } else if f < |m| {
      assert FnRel(p, m[f], m'[f]);
    }
  }

  lemma {:induction false} ModuleAt(p: Pass, m: Module, f: nat)
    requires f < |m|
    ensures ExpandModule(p, m)[f] == ExpandFn(p, m[f])
  {
    if f > 0 {
      ModuleAt(p, m[1..], f - 1);
    }
  }

  lemma ExpandedRel(p: Pass, m: Module)
    requires p.Visit? ==> ModuleOk(m)
    ensures Rel(p, m, ExpandModule(p, m))
  {
    forall f | 0 <= f < |m|
      ensures FnRel(p, m[f], ExpandModule(p, m)[f])
    {
      ModuleAt(p, m, f);
    }
  }

  /** Preservation: a legalized function returns the same value, leaves the same memory, gets stuck
      and runs out of time exactly like the original, unless a host access passes 2^32. */
  lemma LegalizePreserves(m: Module, f: nat, args: seq<nat>, mem: Memory, fuel: nat)
    requires ModuleOk(m)
    requires Low(RunFn(m, f, args, mem, true, fuel))
    ensures RunFn(Legalize(m), f, args, mem, true, fuel) == RunFn(m, f, args, mem, true, fuel)
  {
    var m1 := ExpandModule(Visit, m);
    ExpandedRel(Visit, m);
    SimFn(Visit, m, m1, f, args, mem, true, fuel);
    ExpandedRel(Consts, m1);
    SimFn(Consts, m1, Legalize(m), f, args, mem, true, fuel);
  }
}
