/** What is left after the legalizer: exactly when no host access and no host/device cast remains,
    which widths the runtime serves, and what casts preserve. */
module LegalizerComplete {
  import opened Words
  import opened ConstExprs
  import opened MiniIR
  import opened Legalizer
  import opened LegalizerPass
  import opened LegalizerProof

  // ---- instructions

  predicate AllClean(os: seq<Operand>) { forall o :: o in os ==> CastFree(o) }

  lemma AllLeft(os: seq<Operand>)
    ensures AllClean(MapOs(Consts, os))
  {
    forall o | o in MapOs(Consts, os)
      ensures CastFree(o)
    {
      var k :| 0 <= k < |os| && o == MapOs(Consts, os)[k];
      MapOsAt(Consts, os, k);
      if os[k].Const? {
        LegalizeCClean(os[k].e);
      }
    }
  }

  predicate HostLoad(i: Inst) { i.LoadI? && i.space == Host }

  predicate HostStore(i: Inst) { i.StoreI? && i.space == Host }

  predicate HostDeviceCast(i: Inst) { i.CastI? && {i.from, i.to} == {Host, Device} }

  lemma PairIs(i: Inst)
    requires i.CastI?
    ensures HostDeviceCast(i) <==> HostDevicePair(i.from, i.to)
  {
    if HostDeviceCast(i) {
      assert Host in {i.from, i.to} && Device in {i.from, i.to};
    }
  }

  /** No operand is a constant with a host/device cast in it. */
  predicate OperandsClean(i: Inst) {
    match i
    case LoadI(_, _, ptr, _) => CastFree(ptr)
    case StoreI(_, val, ptr, _) => CastFree(val) && CastFree(ptr)
    case CastI(_, src, _, _) => CastFree(src)
    case PtrToInt(_, src, _) => CastFree(src)
    case IntToPtr(_, src, _) => CastFree(src)
    case BitCast(_, src, _) => CastFree(src)
    case Arith(_, _, l, r, _) => CastFree(l) && CastFree(r)
    case RtLoad(_, _, addr) => CastFree(addr)
    case RtStore(_, addr, val) => CastFree(addr) && CastFree(val)
    case CallI(_, _, args) => AllClean(args)
  }

  predicate TermClean(t: Term) {
    match t
    case Ret(v) => CastFree(v)
    case Br(_) => true
    case CondBr(c, _, _) => CastFree(c)
  }

  lemma OperandsAre(i: Inst)
    ensures OperandsClean(i) <==> AllClean(InstOperands(i))
  {
    if !i.CallI? {
      var os := InstOperands(i);
      assert os[0] in os && os[|os| - 1] in os;
    }
  }

  lemma TermOperandsAre(t: Term)
    ensures TermClean(t) <==> AllClean(TermOperands(t))
  {
    if !t.Br? {
      assert TermOperands(t)[0] in TermOperands(t);
    }
  }

  /** No access to the host space and no host/device cast, as an instruction or in an operand. */
  predicate InstClean(i: Inst) {
    !HostLoad(i) && !HostStore(i) && !HostDeviceCast(i) && OperandsClean(i)
  }

  predicate CodeClean(code: seq<Inst>) { code == [] || (InstClean(code[0]) && CodeClean(code[1..])) }

  /** No load from the host space. */
  predicate LoadsNoHost(code: seq<Inst>) { code == [] || (!HostLoad(code[0]) && LoadsNoHost(code[1..])) }

  lemma {:induction false} CodeCleanAppend(a: seq<Inst>, b: seq<Inst>)
    ensures CodeClean(a + b) <==> CodeClean(a) && CodeClean(b)
  {
    if a == [] {
      assert a + b == b;
    } else {
      assert (a + b)[0] == a[0] && (a + b)[1..] == a[1..] + b;
      CodeCleanAppend(a[1..], b);
    }
  }

  lemma {:induction false} ConstsAppend(exempt: bool, a: seq<Inst>, b: seq<Inst>, t: nat)
    ensures ExpandCode(Consts, exempt, a + b, t) == ExpandCode(Consts, exempt, a, t) + ExpandCode(Consts, exempt, b, t)
  {
    if a == [] {
      assert a + b == b;
    } else {
      assert (a + b)[0] == a[0] && (a + b)[1..] == a[1..] + b;
      ConstsAppend(exempt, a[1..], b, t + 2);
      ConstsTemps(exempt, b, t, t + 2);
    }
  }

  lemma {:induction false} ConstsTemps(exempt: bool, a: seq<Inst>, t: nat, t': nat)
    ensures ExpandCode(Consts, exempt, a, t) == ExpandCode(Consts, exempt, a, t')
  {
    if a != [] {
      ConstsTemps(exempt, a[1..], t + 2, t' + 2);
    }
  }

  lemma Two(a: Inst, b: Inst)
    ensures CodeClean([a]) <==> InstClean(a)
    ensures CodeClean([a, b]) <==> InstClean(a) && InstClean(b)
  {
    assert [a][1..] == [] && [a, b][1..] == [b] && [b][1..] == [];
  }

  lemma Three(a: Inst, b: Inst, c: Inst)
    ensures CodeClean([a, b, c]) <==> InstClean(a) && InstClean(b) && InstClean(c)
  {
    assert [a, b, c][1..] == [b, c];
    Two(b, c);
  }

  lemma Consts1(exempt: bool, a: Inst, u: nat)
    ensures ExpandCode(Consts, exempt, [a], u) == [MapInst(Consts, a)]
  {
    assert [a][1..] == [];
  }

  lemma ConstsSome(exempt: bool, a: Inst, b: Inst, c: Inst, u: nat)
    ensures ExpandCode(Consts, exempt, [a, b], u) == [MapInst(Consts, a), MapInst(Consts, b)]
    ensures ExpandCode(Consts, exempt, [a, b, c], u) == [MapInst(Consts, a), MapInst(Consts, b), MapInst(Consts, c)]
  {
    assert [a, b][1..] == [b] && [a, b, c][1..] == [b, c] && [b, c][1..] == [c];
    Consts1(exempt, b, u + 2);
    Consts1(exempt, c, u + 4);
  }

  /** After the constants are converted, only what the instruction does itself can be unclean. */
  lemma OperandsLeft(i: Inst)
    ensures InstClean(MapInst(Consts, i)) <==> !HostLoad(i) && !HostStore(i) && !HostDeviceCast(i)
  {
    InstMapped(Consts, i);
    AllLeft(InstOperands(i));
    OperandsAre(MapInst(Consts, i));
  }

  lemma TwoLeft(exempt: bool, a: Inst, b: Inst, u: nat)
    ensures CodeClean(ExpandCode(Consts, exempt, [a, b], u))
       <==> InstClean(MapInst(Consts, a)) && InstClean(MapInst(Consts, b))
  {
    ConstsSome(exempt, a, b, b, u);
    Two(MapInst(Consts, a), MapInst(Consts, b));
  }

  lemma ThreeLeft(exempt: bool, a: Inst, b: Inst, c: Inst, u: nat)
    ensures CodeClean(ExpandCode(Consts, exempt, [a, b, c], u))
       <==> InstClean(MapInst(Consts, a)) && InstClean(MapInst(Consts, b)) && InstClean(MapInst(Consts, c))
  {
    ConstsSome(exempt, a, b, c, u);
    Three(MapInst(Consts, a), MapInst(Consts, b), MapInst(Consts, c));
  }

  lemma LoadLeft(dst: nat, ty: Ty, ptr: Operand, exempt: bool, t: nat, u: nat)
    ensures CodeClean(ExpandCode(Consts, exempt, VisitLoad(dst, ty, ptr, t), u))
  {
    var first := PtrToInt(t, ptr, PtrBits(Host));
    var call := RtLoad(if ty.IntTy? then dst else t + 1, Bits(ty), Reg(t));
    OperandsLeft(first);
    OperandsLeft(call);
    if ty.IntTy? {
      TwoLeft(exempt, first, call, u);
    } else {
      var last := if ty.PtrTy? then IntToPtr(dst, Reg(t + 1), ty.space) else BitCast(dst, Reg(t + 1), ty);
      OperandsLeft(last);
      ThreeLeft(exempt, first, call, last, u);
    }
  }

  lemma StoreLeft(ty: Ty, val: Operand, ptr: Operand, exempt: bool, t: nat, u: nat)
    ensures CodeClean(ExpandCode(Consts, exempt, VisitStore(ty, val, ptr, t), u))
  {
    var first := PtrToInt(t, ptr, PtrBits(Host));
    var call := RtStore(Bits(ty), Reg(t), if ty.IntTy? then val else Reg(t + 1));
    OperandsLeft(first);
    OperandsLeft(call);
    if ty.IntTy? {
      TwoLeft(exempt, first, call, u);
    } else {
      OperandsLeft(StoreCast(ty, val, t));
      ThreeLeft(exempt, first, StoreCast(ty, val, t), call, u);
    }
  }

  /** What both phases make of one instruction is clean, unless it is a host load of a function with
      a support-function name. */
  lemma InstLeft(i: Inst, exempt: bool, t: nat, u: nat)
    ensures CodeClean(ExpandCode(Consts, exempt, VisitInst(i, exempt, t), u)) <==> !(HostLoad(i) && exempt)
  {
    if i.CastI? {
      PairIs(i);
    }
    if HostLoad(i) && !exempt {
      LoadLeft(i.dst, i.ty, i.ptr, exempt, t, u);
    } else if HostStore(i) {
      StoreLeft(i.ty, i.val, i.ptr, exempt, t, u);
    } else if HostDeviceCast(i) {
      var first, last := PtrToInt(t, i.src, PtrBits(i.to)), IntToPtr(i.dst, Reg(t), i.to);
      OperandsLeft(first);
      OperandsLeft(last);
      TwoLeft(exempt, first, last, u);
    } else {
      OperandsLeft(i);
      Consts1(exempt, i, u);
      Two(MapInst(Consts, i), MapInst(Consts, i));
    }
  }

  lemma {:induction false} CodeLeft(code: seq<Inst>, exempt: bool, t: nat, u: nat)
    ensures CodeClean(ExpandCode(Consts, exempt, ExpandCode(Visit, exempt, code, t), u))
       <==> !exempt || LoadsNoHost(code)
  {
    if code != [] {
      var a, b := VisitInst(code[0], exempt, t), ExpandCode(Visit, exempt, code[1..], t + 2);
      ConstsAppend(exempt, a, b, u);
      CodeCleanAppend(ExpandCode(Consts, exempt, a, u), ExpandCode(Consts, exempt, b, u));
      InstLeft(code[0], exempt, t, u);
      CodeLeft(code[1..], exempt, t + 2, u);
    }
  }

  // ---- modules

  predicate BlockClean(b: Block) { CodeClean(b.code) && TermClean(b.term) }

  predicate BlocksClean(blocks: seq<Block>) {
    blocks == [] || (BlockClean(blocks[0]) && BlocksClean(blocks[1..]))
  }

  predicate BlocksLoadNoHost(blocks: seq<Block>) {
    blocks == [] || (LoadsNoHost(blocks[0].code) && BlocksLoadNoHost(blocks[1..]))
  }

  predicate ModuleClean(m: Module) { forall f :: 0 <= f < |m| ==> BlocksClean(m[f].blocks) }

  lemma BlockLeft(b: Block, exempt: bool, t: nat, u: nat)
    ensures BlockClean(ExpandBlock(Consts, exempt, ExpandBlock(Visit, exempt, b, t), u))
       <==> !exempt || LoadsNoHost(b.code)
  {
    CodeLeft(b.code, exempt, t, u);
    TermMapped(Consts, b.term);
    AllLeft(TermOperands(b.term));
    TermOperandsAre(MapTerm(Consts, b.term));
  }

  lemma FirstBlock(p: Pass, exempt: bool, b: Block, rest: seq<Block>, t: nat)
    ensures ExpandBlocks(p, exempt, [b] + rest, t)
         == [ExpandBlock(p, exempt, b, t)] + ExpandBlocks(p, exempt, rest, t + 2 * |b.code|)
  {
    assert ([b] + rest)[1..] == rest;
  }

  lemma CleanFirst(b: Block, rest: seq<Block>)
    ensures BlocksClean([b] + rest) <==> BlockClean(b) && BlocksClean(rest)
  {
    assert ([b] + rest)[1..] == rest;
  }

  /** The two phases on one block and on what follows. */
  lemma FirstBlockTwice(exempt: bool, blocks: seq<Block>, t: nat, u: nat) returns (rest: seq<Block>, u1: nat)
    requires blocks != []
    ensures rest == ExpandBlocks(Visit, exempt, blocks[1..], t + 2 * |blocks[0].code|)
    ensures ExpandBlocks(Consts, exempt, ExpandBlocks(Visit, exempt, blocks, t), u)
         == [ExpandBlock(Consts, exempt, ExpandBlock(Visit, exempt, blocks[0], t), u)]
            + ExpandBlocks(Consts, exempt, rest, u1)
  {
    var b1 := ExpandBlock(Visit, exempt, blocks[0], t);
    rest, u1 := ExpandBlocks(Visit, exempt, blocks[1..], t + 2 * |blocks[0].code|), u + 2 * |b1.code|;
    assert ExpandBlocks(Visit, exempt, blocks, t) == [b1] + rest by {
      FirstBlock(Visit, exempt, blocks[0], blocks[1..], t);
      assert [blocks[0]] + blocks[1..] == blocks;
    }
    FirstBlock(Consts, exempt, b1, rest, u);
  }

  lemma {:induction false} BlocksLeft(blocks: seq<Block>, exempt: bool, t: nat, u: nat)
    ensures BlocksClean(ExpandBlocks(Consts, exempt, ExpandBlocks(Visit, exempt, blocks, t), u))
       <==> !exempt || BlocksLoadNoHost(blocks)
  {
    if blocks != [] {
      var rest, u1 := FirstBlockTwice(exempt, blocks, t, u);
      var first := ExpandBlock(Consts, exempt, ExpandBlock(Visit, exempt, blocks[0], t), u);
      CleanFirst(first, ExpandBlocks(Consts, exempt, rest, u1));
      BlockLeft(blocks[0], exempt, t, u);
      BlocksLeft(blocks[1..], exempt, t + 2 * |blocks[0].code|, u1);
    }
  }

  // ---- a host load that is left alone

  lemma {:induction false} LoadsAppend(a: seq<Inst>, b: seq<Inst>)
    ensures LoadsNoHost(a + b) <==> LoadsNoHost(a) && LoadsNoHost(b)
  {
    if a == [] {
      assert a + b == b;
    } else {
      assert (a + b)[0] == a[0] && (a + b)[1..] == a[1..] + b;
      LoadsAppend(a[1..], b);
    }
  }

  lemma {:induction false} CleanLoadsNoHost(code: seq<Inst>)
    requires CodeClean(code)
    ensures LoadsNoHost(code)
  {
    if code != [] {
      CleanLoadsNoHost(code[1..]);
    }
  }

  lemma {:induction false} CodeKeepsLoads(code: seq<Inst>, exempt: bool, t: nat, u: nat)
    ensures LoadsNoHost(ExpandCode(Consts, exempt, ExpandCode(Visit, exempt, code, t), u))
       <==> !exempt || LoadsNoHost(code)
  {
    CodeLeft(code, exempt, t, u);
    if !exempt || LoadsNoHost(code) {
      CleanLoadsNoHost(ExpandCode(Consts, exempt, ExpandCode(Visit, exempt, code, t), u));
    } else {
      var a, b := VisitInst(code[0], exempt, t), ExpandCode(Visit, exempt, code[1..], t + 2);
      ConstsAppend(exempt, a, b, u);
      LoadsAppend(ExpandCode(Consts, exempt, a, u), ExpandCode(Consts, exempt, b, u));
      CodeKeepsLoads(code[1..], exempt, t + 2, u);
      if HostLoad(code[0]) {
        Consts1(exempt, code[0], u);
      }
    }
  }

  lemma LoadsFirst(b: Block, rest: seq<Block>)
    ensures BlocksLoadNoHost([b] + rest) <==> LoadsNoHost(b.code) && BlocksLoadNoHost(rest)
  {
    assert ([b] + rest)[1..] == rest;
  }

  lemma {:induction false} BlocksKeepLoads(blocks: seq<Block>, exempt: bool, t: nat, u: nat)
    ensures BlocksLoadNoHost(ExpandBlocks(Consts, exempt, ExpandBlocks(Visit, exempt, blocks, t), u))
       <==> !exempt || BlocksLoadNoHost(blocks)
  {
    if blocks != [] {
      var rest, u1 := FirstBlockTwice(exempt, blocks, t, u);
      var first := ExpandBlock(Consts, exempt, ExpandBlock(Visit, exempt, blocks[0], t), u);
      LoadsFirst(first, ExpandBlocks(Consts, exempt, rest, u1));
      CodeKeepsLoads(blocks[0].code, exempt, t, u);
      BlocksKeepLoads(blocks[1..], exempt, t + 2 * |blocks[0].code|, u1);
    }
  }

  // ---- which functions are exempt

  /** A name of the runtime's load and store functions. */
  ghost predicate SupportName(name: string) {
    exists t: string :: name == "hero_load" + t || name == "hero_store" + t
  }

  lemma StartsExactlyWhen(name: string, prefix: string)
    ensures StartsWith(name, prefix) <==> exists t: string :: name == prefix + t
  {
    if StartsWith(name, prefix) {
      assert name == prefix + name[|prefix|..];
    }
  }

  lemma ExemptExactlyWhen(name: string)
    ensures Exempt(name) <==> SupportName(name)
  {
    StartsExactlyWhen(name, "hero_load");
    StartsExactlyWhen(name, "hero_store");
  }

  // ---- the theorems

  lemma LegalizedAt(m: Module, f: nat)
    requires f < |m|
    ensures Legalize(m)[f] == ExpandFn(Consts, ExpandFn(Visit, m[f]))
  {
    ModuleAt(Visit, m, f);
    ModuleAt(Consts, ExpandModule(Visit, m), f);
  }

  /** Completeness, function by function.  A function that loads from the host space still does so
      exactly when its name starts with hero_load or hero_store; that is also the only way in which an
      access to the host space or a host/device cast is left, in any instruction or constant operand. */
  lemma LegalizedFnExactlyWhen(m: Module, f: nat)
    requires f < |m|
    ensures Legalize(m)[f].name == m[f].name
    ensures !BlocksLoadNoHost(Legalize(m)[f].blocks) <==>
              !BlocksLoadNoHost(m[f].blocks)
              && exists t: string :: m[f].name == "hero_load" + t || m[f].name == "hero_store" + t
    ensures BlocksClean(Legalize(m)[f].blocks) <==> BlocksLoadNoHost(Legalize(m)[f].blocks)
  {
    var g := m[f];
    LegalizedAt(m, f);
    ExemptExactlyWhen(g.name);
    BlocksLeft(g.blocks, Exempt(g.name), g.regs, ExpandFn(Visit, g).regs);
    BlocksKeepLoads(g.blocks, Exempt(g.name), g.regs, ExpandFn(Visit, g).regs);
  }

  /** Completeness, with its exact condition: the legalized module has no access to the host space
      and no host/device cast left, in any instruction or constant operand, exactly when no function
      with a support-function name loads from the host space. */
  lemma LegalizedCleanExactlyWhen(m: Module)
    ensures ModuleClean(Legalize(m)) <==>
              forall f :: 0 <= f < |m| ==> SupportName(m[f].name) ==> BlocksLoadNoHost(m[f].blocks)
  {
    forall f | 0 <= f < |m|
      ensures BlocksClean(Legalize(m)[f].blocks) <==> (SupportName(m[f].name) ==> BlocksLoadNoHost(m[f].blocks))
    {
      LegalizedFnExactlyWhen(m, f);
    }
  }

  // ---- what has nothing to rewrite is left alone

  lemma OperandsStay(os: seq<Operand>)
    requires AllClean(os)
    ensures Fixed(Consts, os)
  {
    forall o | o in os
      ensures MapO(Consts, o) == o
    {
      assert CastFree(o);
      if o.Const? {
        CleanStays(o.e);
      }
    }
  }

  lemma {:induction false} CodeStays(code: seq<Inst>, exempt: bool, t: nat, u: nat)
    requires CodeClean(code)
    ensures ExpandCode(Visit, exempt, code, t) == code && ExpandCode(Consts, exempt, code, u) == code
  {
    if code != [] {
      var i := code[0];
      if i.CastI? {
        PairIs(i);
      }
      OperandsAre(i);
      OperandsStay(InstOperands(i));
      InstFixed(Consts, i);
      CodeStays(code[1..], exempt, t + 2, u + 2);
    }
  }

  lemma BlockStays(b: Block, exempt: bool, t: nat, u: nat)
    requires BlockClean(b)
    ensures ExpandBlock(Visit, exempt, b, t) == b && ExpandBlock(Consts, exempt, b, u) == b
  {
    CodeStays(b.code, exempt, t, u);
    TermOperandsAre(b.term);
    OperandsStay(TermOperands(b.term));
    TermFixed(Consts, b.term);
  }

  lemma ExpandFirst(p: Pass, exempt: bool, blocks: seq<Block>, t: nat)
    requires blocks != [] && ExpandBlock(p, exempt, blocks[0], t) == blocks[0]
    requires ExpandBlocks(p, exempt, blocks[1..], t + 2 * |blocks[0].code|) == blocks[1..]
    ensures ExpandBlocks(p, exempt, blocks, t) == blocks
  {
  }

  lemma {:induction false} BlocksStay(blocks: seq<Block>, exempt: bool, t: nat, u: nat)
    requires BlocksClean(blocks)
    ensures ExpandBlocks(Visit, exempt, blocks, t) == blocks && ExpandBlocks(Consts, exempt, blocks, u) == blocks
  {
    if blocks != [] {
      var n := 2 * |blocks[0].code|;
      BlockStays(blocks[0], exempt, t, u);
      BlocksStay(blocks[1..], exempt, t + n, u + n);
      ExpandFirst(Visit, exempt, blocks, t);
      ExpandFirst(Consts, exempt, blocks, u);
    }
  }

  /** A function without host accesses and host/device casts is left as it is, casts that involve
      other address spaces included; so the pass changes nothing in what it has cleaned. */
  lemma CleanFnStays(m: Module, f: nat)
    requires f < |m| && BlocksClean(m[f].blocks)
    ensures Legalize(m)[f].blocks == m[f].blocks
  {
    LegalizedAt(m, f);
    BlocksStay(m[f].blocks, Exempt(m[f].name), m[f].regs, ExpandFn(Visit, m[f]).regs);
  }

  // ---- widths

  lemma CallDecides(m: Module, first: Inst, call: Inst, last: Inst, s: State, fuel: nat)
    requires first.PtrToInt? && call.RtLoad? && (last.IntToPtr? || last.BitCast?)
    ensures ExecCode(m, [first, call], s, fuel).Running? <==> RuntimeWidth(call.bits)
    ensures ExecCode(m, [first, call, last], s, fuel).Running? <==> RuntimeWidth(call.bits)
  {
    Exec2(m, first, call, s, fuel);
    Exec3(m, first, call, last, s, fuel);
  }

  /** A legalized host load runs exactly when the type is 8, 16, 32 or 64 bits wide: for any other
      width the runtime function it calls does not exist, while the original load runs. */
  lemma LegalizedLoadRunsExactlyForRuntimeWidths(m: Module, dst: nat, ty: Ty, ptr: Operand, t: nat, s: State, fuel: nat)
    ensures ExecCode(m, VisitLoad(dst, ty, ptr, t), s, fuel).Running? <==> Bits(ty) in {8, 16, 32, 64}
    ensures Plain(LoadI(dst, ty, ptr, Host), s).Running?
  {
    var first := PtrToInt(t, ptr, PtrBits(Host));
    var call := RtLoad(if ty.IntTy? then dst else t + 1, Bits(ty), Reg(t));
    var last := if ty.PtrTy? then IntToPtr(dst, Reg(t + 1), ty.space) else BitCast(dst, Reg(t + 1), ty);
    assert VisitLoad(dst, ty, ptr, t) == if ty.IntTy? then [first, call] else [first, call, last];
    CallDecides(m, first, call, last, s, fuel);
  }

  lemma StoreCallDecides(m: Module, first: Inst, cast: Inst, call: Inst, s: State, fuel: nat)
    requires first.PtrToInt? && (cast.PtrToInt? || cast.BitCast?) && call.RtStore?
    ensures ExecCode(m, [first, call], s, fuel).Running? <==> RuntimeWidth(call.bits)
    ensures ExecCode(m, [first, cast, call], s, fuel).Running? <==> RuntimeWidth(call.bits)
  {
    Exec2(m, first, call, s, fuel);
    Exec3(m, first, cast, call, s, fuel);
  }

  /** The same for a legalized host store. */
  lemma LegalizedStoreRunsExactlyForRuntimeWidths(m: Module, ty: Ty, val: Operand, ptr: Operand, t: nat, s: State,
        fuel: nat)
    ensures ExecCode(m, VisitStore(ty, val, ptr, t), s, fuel).Running? <==> Bits(ty) in {8, 16, 32, 64}
    ensures Plain(StoreI(ty, val, ptr, Host), s).Running?
  {
    var first := PtrToInt(t, ptr, PtrBits(Host));
    var call := RtStore(Bits(ty), Reg(t), if ty.IntTy? then val else Reg(t + 1));
    var cast := if ty.IntTy? then first else StoreCast(ty, val, t);
    assert VisitStore(ty, val, ptr, t) == if ty.IntTy? then [first, call] else [first, cast, call];
    StoreCallDecides(m, first, cast, call, s, fuel);
  }

  /** Preservation asks that no host access passes 2^32; an access keeps that promise exactly when
      its last byte is below 2^32. */
  lemma LowIsKeptExactlyWhen(dst: nat, ty: Ty, ptr: Operand, val: Operand, s: State)
    requires s.low
    ensures var end := Val(ptr, s.regs) % 0x1_0000_0000_0000_0000 + (Bits(ty) + 7) / 8;
            && (Low(Plain(LoadI(dst, ty, ptr, Host), s)) <==> end <= 0x1_0000_0000)
            && (Low(Plain(StoreI(ty, val, ptr, Host), s)) <==> end <= 0x1_0000_0000)
    ensures Low(Plain(LoadI(dst, ty, ptr, Device), s)) && Low(Plain(StoreI(ty, val, ptr, Device), s))
  {
    PowerTable();
  }

  // ---- casts

  /** Device to host and back is the identity on device pointers; host to device and back is the
      identity exactly on addresses below 2^32. */
  lemma CastRoundTrips(e: CExpr)
    ensures EvalC(e) < TWO32 ==> EvalC(CastC(CastC(e, Host), Device)) == EvalC(e)
    ensures EvalC(e) < TWO64 ==> (EvalC(CastC(CastC(e, Device), Host)) == EvalC(e) <==> EvalC(e) < TWO32)
  {
    var v := EvalC(e);
    assert Pow2(32) == TWO32 && Pow2(64) == TWO64 by {
      PowerTable();
    }
    if v < TWO32 {
      ModRange(v, TWO32);
    }
    ModRange(v, TWO64);
    ModRange(v, TWO32);
    var d := Mask(v, 32);
    assert d < TWO32;
    ModRange(d, TWO64);
  }
}
