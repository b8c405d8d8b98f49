/** The kernel wrapper pass on the offload table (toolchain/llvm-support/OmpKernelWrapper): every
    kernel gets a wrapper that takes its name and its place in the table. */
module KernelWrapper {
  import opened Common
  import opened MiniIR
  import opened WrapperBodies

  const WRAPPER_PREFIX: string := "__wrapper_omp"
  const WRAPPED_PREFIX: string := "__wrapped_omp"

  /** The functions, and what the offload entries denote: a function, or None for a variable. */
  datatype Image = Image(fns: Module, table: seq<Option<nat>>)

  ghost predicate Valid(s: Image) {
    forall i :: 0 <= i < |s.table| ==> (s.table[i].Some? ==> s.table[i].value < |s.fns|)
  }

  // ---- specification

  function Renamed(fns: Module, f: nat, name: string): Module
    requires f < |fns|
  {
    fns[f := fns[f].(name := name)]
  }

  /** setOmpOffloadFunction changes the pointer constant itself, which all entries for the same
      function share. */
  function Retarget(table: seq<Option<nat>>, from: Option<nat>, to: Option<nat>): (r: seq<Option<nat>>)
    ensures |r| == |table|
    ensures forall i :: 0 <= i < |table| ==> r[i] == if table[i] == from then to else table[i]
  {
    seq(|table|, i requires 0 <= i < |table| => if table[i] == from then to else table[i])
  }

  function WrapEntry(s: Image, e: nat): (s': Image)
    requires Valid(s) && e < |s.table|
    ensures Valid(s') && |s'.table| == |s.table|
  {
    match s.table[e]
    case None => s
    case Some(k) =>
      var name := s.fns[k].name;
      Image(Renamed(s.fns, k, WRAPPED_PREFIX + name) + [OffloadWrapper(name, k, s.fns[k].params)],
            Retarget(s.table, s.table[e], Some(|s.fns|)))
  }

  /** Wraps the entries from `e` on. */
  function WrapFrom(s: Image, e: nat): (s': Image)
    requires Valid(s)
    ensures Valid(s') && |s'.table| == |s.table|
    decreases |s.table| - e
  {
    if e >= |s.table| then s else WrapFrom(WrapEntry(s, e), e + 1)
  }

  // ---- the pass as it runs

  class OmpKernelWrapper {
    var fns: Module
    var table: seq<Option<nat>>

    constructor (s: Image)
      ensures Contents() == s
    {
      fns, table := s.fns, s.table;
    }

    ghost function Contents(): Image
      reads this
    {
      Image(fns, table)
    }

    method SetOffloadFunction(e: nat, w: nat)
      requires e < |table|
      modifies this`table
      ensures table == Retarget(old(table), old(table[e]), Some(w))
    {
      var from := table[e];
      var i := 0;
      while i < |table|
        invariant 0 <= i <= |table| == |old(table)|
        invariant forall j :: 0 <= j < i ==>
                    table[j] == if old(table[j]) == from then Some(w) else old(table[j])
        invariant forall j :: i <= j < |table| ==> table[j] == old(table[j])
      {
        if table[i] == from {
          table := table[i := Some(w)];
        }
        i := i + 1;
      }
    }

    /** One entry: create the wrapper, put it in the table, swap the names. */
    method WrapKernel(e: nat)
      requires Valid(Contents()) && e < |table|
      modifies this
      ensures Contents() == WrapEntry(old(Contents()), e)
    {
      if table[e].None? {
        return;
      }
      var k := table[e].value;
      var w := |fns|;
      fns := fns + [OffloadWrapper(WRAPPER_PREFIX + fns[k].name, k, fns[k].params)];
      SetOffloadFunction(e, w);
      var oldName := fns[k].name;
      fns := Renamed(fns, k, WRAPPED_PREFIX + oldName);
      fns := Renamed(fns, w, oldName);
    }

    /** wrapOmpKernels. */
    method WrapOmpKernels()
      requires Valid(Contents())
      modifies this
      ensures Contents() == WrapFrom(old(Contents()), 0)
    {
      var e := 0;
      while e < |table|
        invariant Valid(Contents()) && 0 <= e <= |table|
        invariant WrapFrom(Contents(), e) == WrapFrom(old(Contents()), 0)
      {
        WrapKernel(e);
        e := e + 1;
      }
    }
  }

  // ---- what the table denotes afterwards

  /** How many of the first `e` entries are `x`. */
  function Count(table: seq<Option<nat>>, x: Option<nat>, e: nat): nat
    requires e <= |table|
  {
    if e == 0 then 0 else Count(table, x, e - 1) + if table[e - 1] == x then 1 else 0
  }

  ghost predicate IsWrapper(f: Fn, k: nat, ps: seq<Ty>) {
    f.params == [IntTy(64)] && f.regs == 3 + 3 * |ps| && f.blocks == OffloadBody(k, ps)
  }

  /** Entry i, originally kernel k, when c entries for k were processed: the kernel itself, its
      wrapper under its old name, or a wrapper of a wrapper. */
  ghost predicate EntryIs(s0: Image, s: Image, i: nat, c: nat)
    requires i < |s0.table| == |s.table| && Valid(s0) && Valid(s)
  {
    match s0.table[i]
    case None => s.table[i] == None
    case Some(k) =>
      s.table[i].Some? && k < |s0.fns| <= |s.fns|
      && var w := s.table[i].value;
         if c == 0 then w == k && s.fns[k] == s0.fns[k]
         else
           && w >= |s0.fns| && s.fns[w].name == s0.fns[k].name && s.fns[k].name == WRAPPED_PREFIX + s0.fns[k].name
           && if c == 1 then s.fns[w] == OffloadWrapper(s0.fns[k].name, k, s0.fns[k].params)
              else exists k' | |s0.fns| <= k' < w :: IsWrapper(s.fns[w], k', [IntTy(64)])
  }

  /** Functions that were there before keep everything but their name, and those that are no kernels
      their name as well. */
  ghost predicate SameBodies(s0: Image, s: Image) {
    && |s0.fns| <= |s.fns|
    && (forall f :: 0 <= f < |s0.fns| ==> s.fns[f].(name := s0.fns[f].name) == s0.fns[f])
    && (forall f :: 0 <= f < |s0.fns| && Some(f) !in s0.table ==> s.fns[f] == s0.fns[f])
  }

  /** How many of the first `e` entries are kernels. */
  function Kernels(table: seq<Option<nat>>, e: nat): nat
    requires e <= |table|
  {
    if e == 0 then 0 else Kernels(table, e - 1) + if table[e - 1].Some? then 1 else 0
  }

  ghost predicate WrapInv(s0: Image, s: Image, e: nat)
    requires e <= |s0.table| && Valid(s0)
  {
    && Valid(s) && |s.table| == |s0.table| && SameBodies(s0, s)
    && |s.fns| == |s0.fns| + Kernels(s0.table, e)
    && (forall i, j :: 0 <= i < |s.table| && 0 <= j < |s.table| ==>
          (s.table[i] == s.table[j] <==> s0.table[i] == s0.table[j]))
    && (forall i :: 0 <= i < |s.table| ==> EntryIs(s0, s, i, Count(s0.table, s0.table[i], e)))
  }

  /** An entry for another function than the one just wrapped. */
  lemma OtherEntryStep(s0: Image, s: Image, e: nat, i: nat, c: nat)
    requires Valid(s0) && Valid(s) && e < |s.table| == |s0.table| && i < |s.table| && SameBodies(s0, s)
    requires s.table[e].Some? && s0.table[e].Some? && s.table[i] != s.table[e] && s0.table[i] != s0.table[e]
    requires s.table[e].value < |s0.fns| ==> s.table[e] == s0.table[e]
    requires EntryIs(s0, s, i, c)
    ensures EntryIs(s0, WrapEntry(s, e), i, c)
  {
    var s' := WrapEntry(s, e);
    if s0.table[i].Some? && c >= 2 {
      var w := s.table[i].value;
      var k' :| |s0.fns| <= k' < w && IsWrapper(s.fns[w], k', [IntTy(64)]);
      assert IsWrapper(s'.fns[w], k', [IntTy(64)]);
    }
  }

  /** An entry for the function just wrapped. */
  lemma SameEntryStep(s0: Image, s: Image, e: nat, i: nat, c: nat)
    requires Valid(s0) && Valid(s) && e < |s.table| == |s0.table| && i < |s.table| && SameBodies(s0, s)
    requires s.table[e].Some? && s.table[i] == s.table[e] && s0.table[i].Some?
    requires EntryIs(s0, s, i, c)
    ensures EntryIs(s0, WrapEntry(s, e), i, c + 1)
  {
    var s', w := WrapEntry(s, e), s.table[e].value;
    if c >= 1 {
      assert IsWrapper(s'.fns[|s.fns|], w, [IntTy(64)]);
    }
  }

  lemma EntryStep(s0: Image, s: Image, e: nat, i: nat)
    requires Valid(s0) && e < |s0.table| && WrapInv(s0, s, e) && i < |s0.table|
    ensures EntryIs(s0, WrapEntry(s, e), i, Count(s0.table, s0.table[i], e + 1))
  {
    var c := Count(s0.table, s0.table[i], e);
    assert EntryIs(s0, s, e, Count(s0.table, s0.table[e], e));
    assert EntryIs(s0, s, i, c);
    if s.table[e].Some? {
      if s.table[i] == s.table[e] {
        SameEntryStep(s0, s, e, i, c);
      } else {
        OtherEntryStep(s0, s, e, i, c);
      }
    }
  }

  lemma WrapStep(s0: Image, s: Image, e: nat)
    requires Valid(s0) && e < |s0.table| && WrapInv(s0, s, e)
    ensures WrapInv(s0, WrapEntry(s, e), e + 1)
  {
    forall i | 0 <= i < |s0.table|
      ensures EntryIs(s0, WrapEntry(s, e), i, Count(s0.table, s0.table[i], e + 1))
    {
      EntryStep(s0, s, e, i);
    }
    assert EntryIs(s0, s, e, Count(s0.table, s0.table[e], e));
  }

  lemma {:induction false} WrapRuns(s0: Image, s: Image, e: nat)
    requires Valid(s0) && e <= |s0.table| && WrapInv(s0, s, e)
    ensures WrapInv(s0, WrapFrom(s, e), |s0.table|)
    decreases |s0.table| - e
  {
    if e < |s0.table| {
      WrapStep(s0, s, e);
      WrapRuns(s0, WrapEntry(s, e), e + 1);
    }
  }

  lemma WrapAll(s0: Image)
    requires Valid(s0)
    ensures WrapInv(s0, WrapFrom(s0, 0), |s0.table|)
  {
    WrapRuns(s0, s0, 0);
  }

  lemma {:induction false} CountPositive(table: seq<Option<nat>>, i: nat, e: nat)
    requires i < e <= |table|
    ensures Count(table, table[i], e) >= 1
  {
    if i < e - 1 {
      CountPositive(table, i, e - 1);
    }
  }

  /** The wrapped function can be read off the wrapper. */
  lemma CalleeOf(k: nat, ps: seq<Ty>, k': nat, ps': seq<Ty>)
    requires OffloadBody(k, ps) == OffloadBody(k', ps')
    ensures k == k'
  {
    var a, b := OffloadBody(k, ps)[0].code, OffloadBody(k', ps')[0].code;
    assert a[|a| - 1].callee == k && b[|b| - 1].callee == k';
  }

  predicate Direct(s0: Image, s: Image, i: nat)
    requires i < |s0.table| == |s.table| && Valid(s0) && Valid(s)
  {
    s0.table[i].Some? ==>
      (s.table[i].Some?
       && var k := s0.table[i].value;
          s.fns[s.table[i].value] == OffloadWrapper(s0.fns[k].name, k, s0.fns[k].params))
  }

  /** An entry ends up denoting the wrapper of its kernel, under the kernel's old name, exactly when
      the table listed that kernel once; a kernel listed again gets its wrapper wrapped. */
  lemma DirectExactlyWhenListedOnce(s0: Image, i: nat)
    requires Valid(s0) && i < |s0.table| && s0.table[i].Some?
    ensures Direct(s0, WrapFrom(s0, 0), i) <==> Count(s0.table, s0.table[i], |s0.table|) == 1
  {
    var s, k := WrapFrom(s0, 0), s0.table[i].value;
    WrapAll(s0);
    assert EntryIs(s0, s, i, Count(s0.table, s0.table[i], |s0.table|));
    CountPositive(s0.table, i, |s0.table|);
    if Count(s0.table, s0.table[i], |s0.table|) > 1 {
      var w := s.table[i].value;
      var k' :| |s0.fns| <= k' < w && IsWrapper(s.fns[w], k', [IntTy(64)]);
      if Direct(s0, s, i) {
        CalleeOf(k, s0.fns[k].params, k', [IntTy(64)]);
        assert false;
      }
    }
  }

  /** Variables stay variables, entries stay equal exactly when they were, and no function that was
      there before changes anything but its name, and that only if it is a kernel. */
  lemma WrappingKeeps(s0: Image, i: nat, j: nat)
    requires Valid(s0) && i < |s0.table| && j < |s0.table|
    ensures var s := WrapFrom(s0, 0);
            && (s.table[i] == None <==> s0.table[i] == None)
            && (s.table[i] == s.table[j] <==> s0.table[i] == s0.table[j])
            && SameBodies(s0, s)
  {
    WrapAll(s0);
    assert EntryIs(s0, WrapFrom(s0, 0), i, Count(s0.table, s0.table[i], |s0.table|));
  }

  /** However often the table lists a kernel, the kernel itself is renamed once, and the entry denotes
      a function of its old name; each entry for a kernel adds one function. */
  lemma KernelIsRenamedOnce(s0: Image, i: nat)
    requires Valid(s0) && i < |s0.table| && s0.table[i].Some?
    ensures var s, k := WrapFrom(s0, 0), s0.table[i].value;
            && |s.fns| == |s0.fns| + Kernels(s0.table, |s0.table|)
            && s.fns[k].name == "__wrapped_omp" + s0.fns[k].name
            && s.table[i].Some? && s.table[i].value >= |s0.fns|
            && s.fns[s.table[i].value].name == s0.fns[k].name
  {
    WrapAll(s0);
    assert EntryIs(s0, WrapFrom(s0, 0), i, Count(s0.table, s0.table[i], |s0.table|));
    CountPositive(s0.table, i, |s0.table|);
  }
}
