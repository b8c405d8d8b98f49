/** The host pointer legalizer as it runs (toolchain/llvm-support/OmpHostPointerLegalizer): the module
    is rewritten in place, and replacing a constant reaches every use of it. */
module LegalizerPass {
  import opened Common
  import opened ConstExprs
  import opened Legalizer
  import opened MiniIR

  /** Replacing one element of a list by a list. */
  lemma Splice<T>(c: seq<T>, pos: nat, e: seq<T>)
    requires pos < |c|
    ensures c[pos..] != [] && c[pos..][0] == c[pos] && c[pos..][1..] == c[pos + 1..]
    ensures var c' := c[..pos] + e + c[pos + 1..];
            c'[..pos + |e|] == c[..pos] + e && c'[pos + |e|..] == c[pos + 1..]
  {
  }

  // ---- the operands of a module, in the order of the walk

  function InstOperands(i: Inst): seq<Operand> {
    match i
    case LoadI(_, _, ptr, _) => [ptr]
    case StoreI(_, val, ptr, _) => [val, ptr]
    case CastI(_, src, _, _) => [src]
    case PtrToInt(_, src, _) => [src]
    case IntToPtr(_, src, _) => [src]
    case BitCast(_, src, _) => [src]
    case Arith(_, _, l, r, _) => [l, r]
    case RtLoad(_, _, addr) => [addr]
    case RtStore(_, addr, val) => [addr, val]
    case CallI(_, _, args) => args
  }

  function TermOperands(t: Term): seq<Operand> {
    match t
    case Ret(v) => [v]
    case Br(_) => []
    case CondBr(c, _, _) => [c]
  }

  function CodeOperands(code: seq<Inst>): seq<Operand> {
    if code == [] then [] else InstOperands(code[0]) + CodeOperands(code[1..])
  }

  function BlocksOperands(blocks: seq<Block>): seq<Operand> {
    if blocks == [] then []
    else CodeOperands(blocks[0].code) + TermOperands(blocks[0].term) + BlocksOperands(blocks[1..])
  }

  function Operands(m: Module): seq<Operand> {
    if m == [] then [] else BlocksOperands(m[0].blocks) + Operands(m[1..])
  }

  // ---- rewriting operands rewrites the list of operands

  lemma {:induction false} MapOsAppend(p: Pass, a: seq<Operand>, b: seq<Operand>)
    ensures MapOs(p, a + b) == MapOs(p, a) + MapOs(p, b)
  {
    if a == [] {
      assert a + b == b;
    } else {
      assert (a + b)[0] == a[0] && (a + b)[1..] == a[1..] + b;
      MapOsAppend(p, a[1..], b);
    }
  }

  lemma MapOsShort(p: Pass, a: Operand, b: Operand)
    ensures MapOs(p, [a]) == [MapO(p, a)] && MapOs(p, [a, b]) == [MapO(p, a), MapO(p, b)]
  {
    assert [a][1..] == [] && [a, b][1..] == [b];
  }

  lemma InstMapped(p: Pass, i: Inst)
    ensures InstOperands(MapInst(p, i)) == MapOs(p, InstOperands(i))
  {
    var os := InstOperands(i);
    if !i.CallI? {
      MapOsShort(p, os[0], os[|os| - 1]);
    }
  }

  lemma TermMapped(p: Pass, t: Term)
    ensures TermOperands(MapTerm(p, t)) == MapOs(p, TermOperands(t))
  {
    if !t.Br? {
      MapOsShort(p, TermOperands(t)[0], TermOperands(t)[0]);
    }
  }

  lemma {:induction false} CodeMapped(p: Pass, exempt: bool, code: seq<Inst>, t: nat)
    requires OnOperands(p)
    ensures CodeOperands(ExpandCode(p, exempt, code, t)) == MapOs(p, CodeOperands(code))
  {
    if code != [] {
      var i, rest := MapInst(p, code[0]), ExpandCode(p, exempt, code[1..], t + 2);
      assert ([i] + rest)[1..] == rest;
      InstMapped(p, code[0]);
      CodeMapped(p, exempt, code[1..], t + 2);
      MapOsAppend(p, InstOperands(code[0]), CodeOperands(code[1..]));
    }
  }

  lemma {:induction false} BlocksMapped(p: Pass, exempt: bool, blocks: seq<Block>, t: nat)
    requires OnOperands(p)
    ensures BlocksOperands(ExpandBlocks(p, exempt, blocks, t)) == MapOs(p, BlocksOperands(blocks))
  {
    if blocks != [] {
      var b, t1 := blocks[0], t + 2 * |blocks[0].code|;
      var rest := ExpandBlocks(p, exempt, blocks[1..], t1);
      assert ([ExpandBlock(p, exempt, b, t)] + rest)[1..] == rest;
      CodeMapped(p, exempt, b.code, t);
      TermMapped(p, b.term);
      BlocksMapped(p, exempt, blocks[1..], t1);
      MapOsAppend(p, CodeOperands(b.code), TermOperands(b.term));
      MapOsAppend(p, CodeOperands(b.code) + TermOperands(b.term), BlocksOperands(blocks[1..]));
    }
  }

  lemma {:induction false} ModuleMapped(p: Pass, m: Module)
    requires OnOperands(p)
    ensures Operands(ExpandModule(p, m)) == MapOs(p, Operands(m))
  {
    if m != [] {
      var rest := ExpandModule(p, m[1..]);
      assert ([ExpandFn(p, m[0])] + rest)[1..] == rest;
      BlocksMapped(p, Exempt(m[0].name), m[0].blocks, m[0].regs);
      ModuleMapped(p, m[1..]);
      MapOsAppend(p, BlocksOperands(m[0].blocks), Operands(m[1..]));
    }
  }

  lemma {:induction false} MapOsAt(p: Pass, os: seq<Operand>, k: nat)
    requires k < |os|
    ensures MapOs(p, os)[k] == MapO(p, os[k])
  {
    if k > 0 {
      MapOsAt(p, os[1..], k - 1);
    }
  }

  // ---- a module none of whose operands changes does not change

  ghost predicate Fixed(p: Pass, os: seq<Operand>) {
    forall o :: o in os ==> MapO(p, o) == o
  }

  lemma {:induction false} MapOsFixed(p: Pass, os: seq<Operand>)
    requires Fixed(p, os)
    ensures MapOs(p, os) == os
  {
    if os != [] {
      MapOsFixed(p, os[1..]);
    }
  }

  lemma InstFixed(p: Pass, i: Inst)
    requires Fixed(p, InstOperands(i))
    ensures MapInst(p, i) == i
  {
    if i.CallI? {
      MapOsFixed(p, i.args);
    }
  }

  lemma TermFixed(p: Pass, t: Term)
    requires Fixed(p, TermOperands(t))
    ensures MapTerm(p, t) == t
  {
  }

  lemma {:induction false} CodeFixed(p: Pass, exempt: bool, code: seq<Inst>, t: nat)
    requires OnOperands(p) && Fixed(p, CodeOperands(code))
    ensures ExpandCode(p, exempt, code, t) == code
  {
    if code != [] {
      InstFixed(p, code[0]);
      CodeFixed(p, exempt, code[1..], t + 2);
    }
  }

  lemma {:induction false} BlocksFixed(p: Pass, exempt: bool, blocks: seq<Block>, t: nat)
    requires OnOperands(p) && Fixed(p, BlocksOperands(blocks))
    ensures ExpandBlocks(p, exempt, blocks, t) == blocks
  {
    if blocks != [] {
      CodeFixed(p, exempt, blocks[0].code, t);
      TermFixed(p, blocks[0].term);
      BlocksFixed(p, exempt, blocks[1..], t + 2 * |blocks[0].code|);
    }
  }

  lemma {:induction false} ModuleFixed(p: Pass, m: Module)
    requires OnOperands(p) && Fixed(p, Operands(m))
    ensures ExpandModule(p, m) == m
  {
    if m != [] {
      BlocksFixed(p, Exempt(m[0].name), m[0].blocks, m[0].regs);
      ModuleFixed(p, m[1..]);
    }
  }

  // ---- converting all casts after replacing one is converting all casts

  lemma OperandAgain(x: Cast, o: Operand)
    ensures MapO(Consts, MapO(Replace(x), o)) == MapO(Consts, o)
  {
    if o.Const? {
      SubstLegalizes(o.e, x);
    }
  }

  lemma {:induction false} OperandsAgain(x: Cast, os: seq<Operand>)
    ensures MapOs(Consts, MapOs(Replace(x), os)) == MapOs(Consts, os)
  {
    if os != [] {
      OperandAgain(x, os[0]);
      OperandsAgain(x, os[1..]);
      assert MapOs(Replace(x), os)[1..] == MapOs(Replace(x), os[1..]);
    }
  }

  lemma InstAgain(x: Cast, i: Inst)
    ensures MapInst(Consts, MapInst(Replace(x), i)) == MapInst(Consts, i)
  {
    if i.CallI? {
      OperandsAgain(x, i.args);
    } else {
      var os := InstOperands(i);
      OperandAgain(x, os[0]);
      OperandAgain(x, os[|os| - 1]);
    }
  }

  lemma TermAgain(x: Cast, t: Term)
    ensures MapTerm(Consts, MapTerm(Replace(x), t)) == MapTerm(Consts, t)
  {
    if !t.Br? {
      OperandAgain(x, TermOperands(t)[0]);
    }
  }

  lemma {:induction false} CodeAgain(x: Cast, exempt: bool, code: seq<Inst>, t: nat)
    ensures |ExpandCode(Replace(x), exempt, code, t)| == |code|
    ensures ExpandCode(Consts, exempt, ExpandCode(Replace(x), exempt, code, t), t)
         == ExpandCode(Consts, exempt, code, t)
  {
    if code != [] {
      var i, rest := MapInst(Replace(x), code[0]), ExpandCode(Replace(x), exempt, code[1..], t + 2);
      assert ([i] + rest)[1..] == rest;
      InstAgain(x, code[0]);
      CodeAgain(x, exempt, code[1..], t + 2);
    }
  }

  lemma {:induction false} BlocksAgain(x: Cast, exempt: bool, blocks: seq<Block>, t: nat)
    ensures ExpandBlocks(Consts, exempt, ExpandBlocks(Replace(x), exempt, blocks, t), t)
         == ExpandBlocks(Consts, exempt, blocks, t)
  {
    if blocks != [] {
      var b, rest := ExpandBlock(Replace(x), exempt, blocks[0], t),
                     ExpandBlocks(Replace(x), exempt, blocks[1..], t + 2 * |blocks[0].code|);
      assert ([b] + rest)[1..] == rest;
      CodeAgain(x, exempt, blocks[0].code, t);
      TermAgain(x, blocks[0].term);
      BlocksAgain(x, exempt, blocks[1..], t + 2 * |blocks[0].code|);
    }
  }

  lemma {:induction false} ModuleAgain(x: Cast, m: Module)
    ensures ExpandModule(Consts, ExpandModule(Replace(x), m)) == ExpandModule(Consts, m)
  {
    if m != [] {
      var f, rest := ExpandFn(Replace(x), m[0]), ExpandModule(Replace(x), m[1..]);
      assert ([f] + rest)[1..] == rest;
      BlocksAgain(x, Exempt(m[0].name), m[0].blocks, m[0].regs);
      ModuleAgain(x, m[1..]);
    }
  }

  // ---- a walk over the constants of a module

  function ReplaceAll(xs: seq<Cast>, m: Module): Module
    decreases |xs|
  {
    if xs == [] then m else ReplaceAll(xs[1..], ExpandModule(Replace(xs[0]), m))
  }

  lemma {:induction false} ReplaceAllTwice(xs: seq<Cast>, ys: seq<Cast>, m: Module)
    ensures ReplaceAll(xs + ys, m) == ReplaceAll(ys, ReplaceAll(xs, m))
    decreases |xs|
  {
    if xs == [] {
      assert xs + ys == ys;
    } else {
      assert (xs + ys)[0] == xs[0] && (xs + ys)[1..] == xs[1..] + ys;
      ReplaceAllTwice(xs[1..], ys, ExpandModule(Replace(xs[0]), m));
    }
  }

  function ReplacedO(xs: seq<Cast>, o: Operand): Operand {
    if o.Const? then Const(Replaced(xs, o.e)) else o
  }

  lemma {:induction false} ReplaceAllOperands(xs: seq<Cast>, m: Module)
    ensures ExpandModule(Consts, ReplaceAll(xs, m)) == ExpandModule(Consts, m)
    ensures |Operands(ReplaceAll(xs, m))| == |Operands(m)|
    ensures forall k :: 0 <= k < |Operands(m)| ==> Operands(ReplaceAll(xs, m))[k] == ReplacedO(xs, Operands(m)[k])
    decreases |xs|
  {
    if xs != [] {
      var m1 := ExpandModule(Replace(xs[0]), m);
      ModuleAgain(xs[0], m);
      ModuleMapped(Replace(xs[0]), m);
      ReplaceAllOperands(xs[1..], m1);
      var before, after := Operands(m), Operands(ReplaceAll(xs, m));
      forall k | 0 <= k < |before|
        ensures after[k] == ReplacedO(xs, before[k])
      {
        MapOsAt(Replace(xs[0]), before, k);
      }
    }
  }

  predicate CastFree(o: Operand) { o.Const? ==> !HasCast(o.e) }

  /** Operands without casts are fixed. */
  lemma CastFreeFixed(m: Module)
    requires forall k :: 0 <= k < |Operands(m)| ==> CastFree(Operands(m)[k])
    ensures ExpandModule(Consts, m) == m
  {
    var os := Operands(m);
    forall o | o in os
      ensures MapO(Consts, o) == o
    {
      var k :| 0 <= k < |os| && os[k] == o;
      assert CastFree(os[k]);
      if o.Const? {
        CleanStays(o.e);
      }
    }
    ModuleFixed(Consts, m);
  }

  /** Walking the constant of operand k frees it of casts, and the operands before it stay free. */
  lemma WalkFrees(m: Module, k: nat)
    requires k < |Operands(m)| && Operands(m)[k].Const?
    requires forall j :: 0 <= j < k ==> CastFree(Operands(m)[j])
    ensures var m' := ReplaceAll(Plan(Operands(m)[k].e), m);
            && |Operands(m')| == |Operands(m)|
            && forall j :: 0 <= j < k + 1 ==> CastFree(Operands(m')[j])
  {
    var e := Operands(m)[k].e;
    var m' := ReplaceAll(Plan(e), m);
    ReplaceAllOperands(Plan(e), m);
    WalkCleans(e);
    forall j | 0 <= j < k + 1
      ensures CastFree(Operands(m')[j])
    {
      var o := Operands(m)[j];
      assert Operands(m')[j] == ReplacedO(Plan(e), o);
      if j < k && o.Const? {
        assert CastFree(o);
        ReplacedClean(Plan(e), o.e);
      }
    }
  }

  // ---- the pass as it runs, rewriting the module in place

  lemma NextBlock(p: Pass, exempt: bool, blocks: seq<Block>, t: nat)
    requires blocks != []
    ensures ExpandBlocks(p, exempt, blocks, t)
         == [ExpandBlock(p, exempt, blocks[0], t)] + ExpandBlocks(p, exempt, blocks[1..], t + 2 * |blocks[0].code|)
    ensures CodeSize(blocks) == |blocks[0].code| + CodeSize(blocks[1..])
  {
  }

  // ---- the pass as it runs

  class HostPointerLegalizer {
    var mod: Module
    var held: seq<CExpr>   // constants that walks in progress come back to

    constructor (m: Module)
      ensures mod == m && held == []
    {
      mod, held := m, [];
    }

    /** Replaces each instruction of `code` where it stands by what the visitor puts in its place. */
    method RewriteCode(p: Pass, exempt: bool, code: seq<Inst>, fresh0: nat) returns (c: seq<Inst>)
      ensures c == ExpandCode(p, exempt, code, fresh0)
    {
      c := code;
      var pos, t := 0, fresh0;
      while pos < |c|
        invariant 0 <= pos <= |c|
        invariant c[..pos] + ExpandCode(p, exempt, c[pos..], t) == ExpandCode(p, exempt, code, fresh0)
        decreases |c| - pos
      {
        var e := Expand(p, exempt, c[pos], t);
        Splice(c, pos, e);
        Assoc(c[..pos], e, ExpandCode(p, exempt, c[pos + 1..], t + 2));
        c := c[..pos] + e + c[pos + 1..];
        pos := pos + |e|;
        t := t + 2;
      }
    }

    method RewriteBlock(p: Pass, exempt: bool, b: Block, t: nat) returns (r: Block)
      ensures r == ExpandBlock(p, exempt, b, t)
    {
      var code := RewriteCode(p, exempt, b.code, t);
      r := Block(code, if OnOperands(p) then MapTerm(p, b.term) else b.term);
    }

    method RewriteBlocks(p: Pass, exempt: bool, all: seq<Block>, t0: nat) returns (blocks: seq<Block>, t: nat)
      ensures blocks == ExpandBlocks(p, exempt, all, t0) && t == t0 + 2 * CodeSize(all)
    {
      ghost var want, size := ExpandBlocks(p, exempt, all, t0), t0 + 2 * CodeSize(all);
      var todo := all;
      blocks, t := [], t0;
      while todo != []
        invariant blocks + ExpandBlocks(p, exempt, todo, t) == want && t + 2 * CodeSize(todo) == size
        decreases |todo|
      {
        var b := RewriteBlock(p, exempt, todo[0], t);
        NextBlock(p, exempt, todo, t);
        t := t + 2 * |todo[0].code|;
        todo := todo[1..];
        Assoc(blocks, [b], ExpandBlocks(p, exempt, todo, t));
        blocks := blocks + [b];
      }
    }

    method RewriteFn(p: Pass, f: Fn) returns (r: Fn)
      ensures r == ExpandFn(p, f)
    {
      var blocks, t := RewriteBlocks(p, Exempt(f.name), f.blocks, f.regs);
      r := Fn(f.name, f.params, if p.Visit? then t else f.regs, blocks);
    }

    method RunPhase(p: Pass)
      modifies this`mod
      ensures mod == ExpandModule(p, old(mod))
    {
      var k := 0;
      while k < |mod|
        invariant 0 <= k <= |mod|
        invariant mod[..k] + ExpandModule(p, mod[k..]) == ExpandModule(p, old(mod))
        decreases |mod| - k
      {
        var f := RewriteFn(p, mod[k]);
        Splice(mod, k, [f]);
        Assoc(mod[..k], [f], ExpandModule(p, mod[k + 1..]));
        assert mod[k := f] == mod[..k] + [f] + mod[k + 1..];
        mod := mod[k := f];
        k := k + 1;
      }
    }

    /** replaceAllUsesWith: in all operands of the module, and in the constants a walk still holds. */
    method ReplaceAllUses(x: Cast)
      modifies this
      ensures mod == ExpandModule(Replace(x), old(mod))
      ensures |held| == |old(held)|
      ensures forall k :: 0 <= k < |held| ==> held[k] == Subst(old(held)[k], x, Converted(x))
    {
      RunPhase(Replace(x));
      var k := 0;
      while k < |held|
        modifies this`held
        invariant 0 <= k <= |held| == |old(held)|
        invariant forall j :: 0 <= j < k ==> held[j] == Subst(old(held)[j], x, Converted(x))
        invariant forall j :: k <= j < |held| ==> held[j] == old(held)[j]
      {
        held := held[k := Subst(held[k], x, Converted(x))];
        k := k + 1;
      }
    }

    /** handleConstExpr.  The second operand of a sum is held during the walk of the first, which may
        change it. */
    method HandleConstExpr(e: CExpr)
      modifies this
      ensures mod == ReplaceAll(Plan(e), old(mod))
      ensures |held| == |old(held)| && forall k :: 0 <= k < |held| ==> held[k] == Replaced(Plan(e), old(held)[k])
      decreases Weight(e)
    {
      match e {
        case Num(_) =>
        case CastC(e1, _) =>
          ReplaceAllUses(e);
          HandleConstExpr(e1);
          assert ([e] + Plan(e1))[1..] == Plan(e1);
        case ToIntC(e1, _) => HandleConstExpr(e1);
        case ToPtrC(e1, _) => HandleConstExpr(e1);
        case SumC(l, r, _) => HandleBoth(l, r);
      }
    }

    method HandleBoth(l: CExpr, r: CExpr)
      modifies this
      ensures var xs := Plan(l) + Plan(Replaced(Plan(l), r));
              && mod == ReplaceAll(xs, old(mod))
              && |held| == |old(held)| && forall k :: 0 <= k < |held| ==> held[k] == Replaced(xs, old(held)[k])
      decreases Weight(l) + Weight(r)
    {
      ghost var xs, ys := Plan(l), Plan(Replaced(Plan(l), r));
      ghost var before := held;
      held := held + [r];
      HandleConstExpr(l);
      var last := |held| - 1;
      var r1 := held[last];
      held := held[..last];
      ReplacedWeight(xs, r);
      HandleConstExpr(r1);
      ReplaceAllTwice(xs, ys, old(mod));
      forall k | 0 <= k < |before|
        ensures held[k] == Replaced(xs + ys, before[k])
      {
        ReplacedTwice(xs, ys, before[k]);
      }
    }

    /** The walk over the constant operands of all instructions: although every replacement changes
        the whole module, it comes to converting the casts of each operand on its own. */
    method PatchConstants()
      requires held == []
      modifies this
      ensures held == [] && mod == ExpandModule(Consts, old(mod))
    {
      var k := 0;
      while k < |Operands(mod)|
        invariant held == [] && 0 <= k <= |Operands(mod)| == |Operands(old(mod))|
        invariant ExpandModule(Consts, mod) == ExpandModule(Consts, old(mod))
        invariant forall j :: 0 <= j < k ==> CastFree(Operands(mod)[j])
        decreases |Operands(mod)| - k
      {
        var o := Operands(mod)[k];
        if o.Const? {
          WalkFrees(mod, k);
          ReplaceAllOperands(Plan(o.e), mod);
          HandleConstExpr(o.e);
        }
        k := k + 1;
      }
      CastFreeFixed(mod);
    }

    /** runOnModule. */
    method RunOnModule() returns (changed: bool)
      requires held == []
      modifies this
      ensures changed && held == [] && mod == Legalize(old(mod))
    {
      RunPhase(Visit);
      PatchConstants();
      changed := true;
    }
  }
}
