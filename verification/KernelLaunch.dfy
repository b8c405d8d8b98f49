/** Launching an offload entry after the kernel wrapper, and after the legalizer as well, in the
    order the build runs them (apps/omp/common/default.mk). */
module KernelLaunch {
  import opened Words
  import opened MiniIR
  import opened Legalizer
  import opened LegalizerPass
  import opened LegalizerProof
  import opened LegalizerComplete
  import opened WrapperBodies
  import opened KernelWrapper

  // ---- the wrapped module still runs the kernels

  lemma {:induction false} KeepCode(exempt: bool, code: seq<Inst>, t: nat)
    ensures ExpandCode(Keep, exempt, code, t) == code
  {
    if code != [] {
      KeepCode(exempt, code[1..], t + 2);
    }
  }

  lemma {:induction false} KeepBlocks(exempt: bool, blocks: seq<Block>, t: nat)
    ensures ExpandBlocks(Keep, exempt, blocks, t) == blocks
  {
    if blocks != [] {
      KeepCode(exempt, blocks[0].code, t);
      KeepBlocks(exempt, blocks[1..], t + 2 * |blocks[0].code|);
    }
  }

  /** Names and added functions do not matter to a closed module. */
  lemma BodiesDecide(m: Module, m': Module, f: nat, args: seq<nat>, mem: Memory, low: bool, fuel: nat)
    requires Closed(m) && f < |m| <= |m'|
    requires forall g :: 0 <= g < |m| ==> m'[g].(name := m[g].name) == m[g]
    ensures RunFn(m', f, args, mem, low, fuel) == RunFn(m, f, args, mem, low, fuel)
  {
    forall g | 0 <= g < |m|
      ensures FnRel(Keep, m[g], m'[g])
    {
      assert m'[g].(name := m[g].name) == m[g];
      KeepBlocks(Exempt(m[g].name), m[g].blocks, m[g].regs);
    }
    SimFn(Keep, m, m', f, args, mem, low, fuel);
  }

  /** Wrapping does not change what any function that was there before does. */
  lemma WrappedRunsTheSame(s0: Image, f: nat, args: seq<nat>, mem: Memory, low: bool, fuel: nat)
    requires Valid(s0) && Closed(s0.fns) && f < |s0.fns|
    ensures RunFn(WrapFrom(s0, 0).fns, f, args, mem, low, fuel) == RunFn(s0.fns, f, args, mem, low, fuel)
  {
    WrapAll(s0);
    BodiesDecide(s0.fns, WrapFrom(s0, 0).fns, f, args, mem, low, fuel);
  }

  // ---- the argument buffer

  predicate WidthsOk(ps: seq<Ty>) { forall p :: p in ps ==> RuntimeWidth(Bits(p)) }

  /** Slot j of the buffer at q holds argument j as a little-endian 64-bit word; the buffer ends by
      2^32. */
  ghost predicate ArgsAt(mem: Memory, q: nat, args: seq<nat>) {
    && q + 8 * |args| <= TWO32
    && forall j :: 0 <= j < |args| ==> Load(mem, q + 8 * j, 8, Space64) == args[j]
  }

  lemma HostAddress(a: nat)
    requires a < TWO64
    ensures Address(a, Host) == a
  {
    assert Pow2(64) == TWO64 by {
      PowerTable();
    }
  }

  lemma SlotAddressIs(q: nat, j: nat)
    requires q + 8 * j + 8 <= TWO32
    ensures SlotAddress(q, Host, j) == q + 8 * j
  {
    HostAddress(q + 8 * j);
  }

  lemma SlotLowAt(ty: Ty, a: nat)
    requires RuntimeWidth(Bits(ty)) && a + 8 <= TWO32
    ensures LowAccess(ty, a)
  {
    HostAddress(a);
  }

  lemma BufferIsLow(ps: seq<Ty>, mem: Memory, q: nat, args: seq<nat>)
    requires ArgsAt(mem, q, args) && |args| == |ps| && WidthsOk(ps)
    ensures SlotsLow(ps, q, Host)
  {
    forall i | 0 <= i < |ps|
      ensures LowAccess(ps[i], SlotAddress(q, Host, i))
    {
      SlotAddressIs(q, i);
      SlotLowAt(ps[i], q + 8 * i);
    }
  }

  /** Loading a parameter of any width from its 64-bit slot truncates the slot. */
  lemma SlotTruncates(mem: Memory, ty: Ty, a: nat, v: nat)
    requires RuntimeWidth(Bits(ty)) && a + 8 <= TWO32 && Load(mem, a, 8, Space64) == v
    ensures DirectLoad(mem, ty, a, Host) == Mask(v, Bits(ty))
  {
    var n := Bits(ty) / 8;
    WidthBytes(Bits(ty));
    HostAddress(a);
    LoadTruncates(mem, a, n, 8 - n, Space64);
    LoadBound(mem, a, n, Space64);
  }

  lemma SlotHolds(mem: Memory, ps: seq<Ty>, q: nat, args: seq<nat>, j: nat)
    requires ArgsAt(mem, q, args) && |args| == |ps| && WidthsOk(ps) && j < |ps|
    ensures SlotValue(mem, ps[j], q, Host, j) == Mask(args[j], Bits(ps[j]))
  {
    SlotAddressIs(q, j);
    SlotTruncates(mem, ps[j], q + 8 * j, args[j]);
  }

  lemma FramesEqual(ps: seq<Ty>, vs: seq<nat>, args: seq<nat>)
    requires |vs| == |ps| == |args|
    requires forall j :: 0 <= j < |ps| ==> vs[j] == Mask(args[j], Bits(ps[j]))
    ensures Frame(ps, vs) == Frame(ps, args)
  {
  }

  lemma SameFrame(mem: Memory, ps: seq<Ty>, q: nat, args: seq<nat>)
    requires ArgsAt(mem, q, args) && |args| == |ps| && WidthsOk(ps)
    ensures Frame(ps, SlotValues(mem, ps, q, Host)) == Frame(ps, args)
  {
    var vs := SlotValues(mem, ps, q, Host);
    forall j: nat | j < |ps|
      ensures vs[j] == Mask(args[j], Bits(ps[j]))
    {
      SlotHolds(mem, ps, q, args, j);
    }
    FramesEqual(ps, vs, args);
  }

  // ---- launching

  /** Launching an entry whose kernel is listed once, with a buffer that holds the arguments, is
      calling the original kernel on those arguments. */
  lemma LaunchIsKernelCall(s0: Image, i: nat, q: nat, args: seq<nat>, mem: Memory, fuel: nat)
    requires Valid(s0) && Closed(s0.fns) && i < |s0.table| && s0.table[i].Some?
    requires Count(s0.table, s0.table[i], |s0.table|) == 1
    requires var ps := s0.fns[s0.table[i].value].params; WidthsOk(ps) && |args| == |ps|
    requires ArgsAt(mem, q, args)
    ensures var s := WrapFrom(s0, 0);
            && s.table[i].Some?
            && s.fns[s.table[i].value].name == s0.fns[s0.table[i].value].name
            && RunFn(s.fns, s.table[i].value, [q], mem, true, fuel + 1)
               == AsVoid(RunFn(s0.fns, s0.table[i].value, args, mem, true, fuel))
  {
    var s, k := WrapFrom(s0, 0), s0.table[i].value;
    DirectExactlyWhenListedOnce(s0, i);
    WrappingKeeps(s0, i, i);
    var ps := s0.fns[k].params;
    BufferIsLow(ps, mem, q, args);
    OffloadWrapperRuns(s.fns, s.table[i].value, k, ps, q, mem, fuel);
    SameFrame(mem, ps, q, args);
    WrappedRunsTheSame(s0, k, SlotValues(mem, ps, q, Host), mem, true, fuel);
  }

  /** Launching an entry whose kernel is listed more than once is not: it launches another wrapper,
      with the first slot of the buffer for its buffer address. */
  lemma DoublyListedLaunchesAgain(s0: Image, i: nat, q: nat, v: nat, mem: Memory, fuel: nat) returns (k: nat)
    requires Valid(s0) && i < |s0.table| && s0.table[i].Some?
    requires Count(s0.table, s0.table[i], |s0.table|) > 1
    requires ArgsAt(mem, q, [v])
    ensures var s := WrapFrom(s0, 0);
            && s.table[i].Some? && |s0.fns| <= k < s.table[i].value
            && RunFn(s.fns, s.table[i].value, [q], mem, true, fuel + 1) == AsVoid(RunFn(s.fns, k, [v], mem, true, fuel))
  {
    var s := WrapFrom(s0, 0);
    WrapAll(s0);
    assert EntryIs(s0, s, i, Count(s0.table, s0.table[i], |s0.table|));
    var w, ps := s.table[i].value, [IntTy(64)];
    k :| |s0.fns| <= k < w && IsWrapper(s.fns[w], k, ps);
    BufferIsLow(ps, mem, q, [v]);
    OffloadWrapperRuns(s.fns, w, k, ps, q, mem, fuel);
    SlotIsTheArgument(mem, q, v);
  }

  lemma SlotIsTheArgument(mem: Memory, q: nat, v: nat)
    requires ArgsAt(mem, q, [v])
    ensures SlotValues(mem, [IntTy(64)], q, Host) == [v]
  {
    SlotHolds(mem, [IntTy(64)], q, [v], 0);
    LoadBound(mem, q, 8, Space64);
    PowerTable();
    assert Load(mem, q + 8 * 0, 8, Space64) == v;
  }

  // ---- legalizing the wrapped module

  /** Fit for the legalizer under any name: renaming a kernel changes which prefix rule applies. */
  ghost predicate FitsAnyName(f: Fn) {
    forall b :: b in f.blocks ==> BlockOk(b, false, f.regs)
  }

  lemma FitsThisName(f: Fn)
    requires FitsAnyName(f)
    ensures FnOk(f)
  {
    forall b | b in f.blocks
      ensures BlockOk(b, Exempt(f.name), f.regs)
    {
      assert BlockOk(b, false, f.regs);
      forall i | i in b.code
        ensures InstOk(i, Exempt(f.name), f.regs)
      {
        assert InstOk(i, false, f.regs);
      }
    }
  }

  lemma {:induction false} UnmarshalOk(ps: seq<Ty>, base: nat, space: AddrSpace, r0: nat, i: nat, ins: Inst, regs: nat)
    requires (space == Host ==> WidthsOk(ps)) && base < regs && r0 + 3 * |ps| <= regs
    requires ins in Unmarshal(ps, base, space, r0, i)
    ensures InstOk(ins, false, regs)
    decreases |ps| - i
  {
    if i < |ps| {
      assert ps[i] in ps;
      var first := FetchCode(ps[i], base, space, r0 + 3 * i, SlotOffset(space, i));
      if ins !in first {
        assert Unmarshal(ps, base, space, r0, i) == first + Unmarshal(ps, base, space, r0, i + 1);
        UnmarshalOk(ps, base, space, r0, i + 1, ins, regs);
      }
    }
  }

  lemma CallOk(n: nat, k: nat)
    ensures InstOk(CallI(2 + 3 * n, k, LoadedRegs(n, 2, 0)), false, 3 + 3 * n)
  {
  }

  lemma OffloadWrapperFits(f: Fn, k: nat, ps: seq<Ty>)
    requires IsWrapper(f, k, ps) && WidthsOk(ps)
    ensures FitsAnyName(f)
  {
    var b := f.blocks[0];
    forall ins | ins in b.code
      ensures InstOk(ins, false, f.regs)
    {
      CallOk(|ps|, k);
      if ins in Unmarshal(ps, 1, Host, 2, 0) {
        UnmarshalOk(ps, 1, Host, 2, 0, ins, f.regs);
      }
    }
    assert BlockOk(b, false, f.regs);
  }

  /** Every function fits, and every kernel's parameters have a width the runtime serves. */
  ghost predicate ImageFits(s: Image) {
    && Valid(s)
    && (forall f :: 0 <= f < |s.fns| ==> FitsAnyName(s.fns[f]))
    && (forall i :: 0 <= i < |s.table| && s.table[i].Some? ==> WidthsOk(s.fns[s.table[i].value].params))
  }

  lemma WrapEntryFits(s: Image, e: nat)
    requires ImageFits(s) && e < |s.table|
    ensures ImageFits(WrapEntry(s, e))
  {
    if s.table[e].Some? {
      var s', k := WrapEntry(s, e), s.table[e].value;
      assert IsWrapper(s'.fns[|s.fns|], k, s.fns[k].params);
      OffloadWrapperFits(s'.fns[|s.fns|], k, s.fns[k].params);
      forall f | 0 <= f < |s'.fns|
        ensures FitsAnyName(s'.fns[f])
      {
        if f < |s.fns| {
          assert FitsAnyName(s.fns[f]);
        }
      }
    }
  }

  lemma {:induction false} WrapFits(s: Image, e: nat)
    requires ImageFits(s)
    ensures ImageFits(WrapFrom(s, e))
    decreases |s.table| - e
  {
    if e < |s.table| {
      WrapEntryFits(s, e);
      WrapFits(WrapEntry(s, e), e + 1);
    }
  }

  /** The build's two passes: launching an entry of the wrapped and legalized module is calling the
      original kernel, as long as no host access of the kernel passes 2^32. */
  lemma LaunchAfterBothPasses(s0: Image, i: nat, q: nat, args: seq<nat>, mem: Memory, fuel: nat)
    requires ImageFits(s0) && Closed(s0.fns) && i < |s0.table| && s0.table[i].Some?
    requires Count(s0.table, s0.table[i], |s0.table|) == 1
    requires |args| == |s0.fns[s0.table[i].value].params| && ArgsAt(mem, q, args)
    requires Low(RunFn(s0.fns, s0.table[i].value, args, mem, true, fuel))
    ensures var s := WrapFrom(s0, 0);
            && s.table[i].Some?
            && Legalize(s.fns)[s.table[i].value].name == s0.fns[s0.table[i].value].name
            && RunFn(Legalize(s.fns), s.table[i].value, [q], mem, true, fuel + 1)
               == AsVoid(RunFn(s0.fns, s0.table[i].value, args, mem, true, fuel))
  {
    var s := WrapFrom(s0, 0);
    LaunchIsKernelCall(s0, i, q, args, mem, fuel);
    WrapFits(s0, 0);
    forall f | f in s.fns
      ensures FnOk(f)
    {
      FitsThisName(f);
    }
    LegalizePreserves(s.fns, s.table[i].value, [q], mem, fuel + 1);
    LegalizedAt(s.fns, s.table[i].value);
  }

  // ---- why this order

  lemma {:induction false} HostLoadAt(code: seq<Inst>, k: nat)
    requires k < |code| && HostLoad(code[k])
    ensures !LoadsNoHost(code)
  {
    if k > 0 {
      HostLoadAt(code[1..], k - 1);
    }
  }

  lemma WrapperLoads(k: nat, ps: seq<Ty>)
    ensures LoadsNoHost(OffloadBody(k, ps)[0].code) <==> ps == []
  {
    var code := OffloadBody(k, ps)[0].code;
    if ps == [] {
      assert LoadsNoHost(code[1..][1..]);
      assert LoadsNoHost(code[1..]);
    } else {
      assert code[3] == FetchCode(ps[0], 1, Host, 2, 0)[2];
      HostLoadAt(code, 3);
    }
  }

  lemma LoadsAreNotClean(ps: seq<Ty>)
    requires ps != []
    ensures !CodeClean(Unmarshal(ps, 1, Host, 2, 0))
  {
    var fetch := FetchCode(ps[0], 1, Host, 2, 0);
    Three(fetch[0], fetch[1], fetch[2]);
    CodeCleanAppend(fetch, Unmarshal(ps, 1, Host, 2, 1));
  }

  lemma WrapperCodeClean(k: nat, ps: seq<Ty>)
    ensures CodeClean(OffloadBody(k, ps)[0].code) <==> ps == []
  {
    var first, call := IntToPtr(1, Reg(0), Host), CallI(2 + 3 * |ps|, k, LoadedRegs(|ps|, 2, 0));
    var loads := Unmarshal(ps, 1, Host, 2, 0);
    CodeCleanAppend([first], loads + [call]);
    CodeCleanAppend(loads, [call]);
    if ps != [] {
      LoadsAreNotClean(ps);
    } else {
      Two(first, call);
      assert [first] + (loads + [call]) == [first, call];
    }
  }

  lemma OneBlock(blocks: seq<Block>, b: Block)
    requires blocks == [b] && TermClean(b.term)
    ensures BlocksClean(blocks) <==> CodeClean(b.code)
    ensures BlocksLoadNoHost(blocks) <==> LoadsNoHost(b.code)
  {
    assert blocks[1..] == [];
  }

  lemma WrapperClean(m: Module, w: nat, k: nat, ps: seq<Ty>)
    requires w < |m| && m[w].blocks == OffloadBody(k, ps)
    ensures BlocksClean(m[w].blocks) <==> ps == []
    ensures BlocksClean(Legalize(m)[w].blocks) <==> (ps == [] || !SupportName(m[w].name))
  {
    WrapperLoads(k, ps);
    WrapperCodeClean(k, ps);
    OneBlock(m[w].blocks, m[w].blocks[0]);
    LegalizedFnExactlyWhen(m, w);
  }

  /** In the module that both passes produce, the wrapper of a kernel listed once has no host load
      left exactly when it loads nothing or the name it has taken over does not start like a support
      function's.  Without the second pass it is clean only if it loads nothing. */
  lemma WrapperCleanExactlyWhen(s0: Image, i: nat)
    requires Valid(s0) && i < |s0.table| && s0.table[i].Some?
    requires Count(s0.table, s0.table[i], |s0.table|) == 1
    ensures var s, k := WrapFrom(s0, 0), s0.fns[s0.table[i].value];
            && s.table[i].Some?
            && (BlocksClean(Legalize(s.fns)[s.table[i].value].blocks) <==> (k.params == [] || !SupportName(k.name)))
            && (BlocksClean(s.fns[s.table[i].value].blocks) <==> k.params == [])
  {
    var s, k := WrapFrom(s0, 0), s0.table[i].value;
    DirectExactlyWhenListedOnce(s0, i);
    WrappingKeeps(s0, i, i);
    WrapperClean(s.fns, s.table[i].value, k, s0.fns[k].params);
  }

  /** The kernels themselves are always cleaned: whatever a kernel was called, even like a support
      function, the name it gets when it is wrapped does not exempt it. */
  lemma WrappedKernelIsClean(s0: Image, i: nat)
    requires Valid(s0) && i < |s0.table| && s0.table[i].Some?
    ensures var m, k := Legalize(WrapFrom(s0, 0).fns), s0.table[i].value;
            k < |m| && m[k].name == "__wrapped_omp" + s0.fns[k].name && BlocksClean(m[k].blocks)
  {
    var s, k := WrapFrom(s0, 0), s0.table[i].value;
    KernelIsRenamedOnce(s0, i);
    LegalizedFnExactlyWhen(s.fns, k);
    assert s.fns[k].name[0] == '_';
    assert forall t: string :: ("hero_load" + t)[0] == 'h' && ("hero_store" + t)[0] == 'h';
  }
}
