/** The double-buffered matrix-vector kernel (apps/omp/basic/matvec/matvec.h) on a cluster with two
    cores, with asynchronous DMA: a transfer's elements may land at any moment before the wait. */
module MatVec {
  import Common
  import opened DotProduct

  const CORES: nat := 2
  const MAX_ELEM: nat := 24576   // (128 - 32) * 1024 / sizeof(float)

  datatype Transfer = Transfer(dst: nat, src: nat, len: nat)

  predicate Covers(t: Transfer, j: int) {
    t.dst <= j < t.dst + t.len
  }

  predicate TargetsApart(t: Transfer, u: Transfer) {
    Common.Apart(t.dst, t.len, u.dst, u.len)
  }

  /** The cluster's L1 memory and its DMA engine, which reads from main memory `dram`. */
  class Cluster {
    const dram: seq<real>
    const l1: array<real>
    var pending: seq<Transfer>

    constructor (dram: seq<real>, size: nat)
      ensures this.dram == dram && fresh(l1) && l1.Length == size && pending == [] && Valid()
    {
      this.dram := dram;
      l1 := new real[size](_ => 0.0);
      pending := [];
    }

    ghost predicate Fits(t: Transfer)
    {
      t.dst + t.len <= l1.Length && t.src + t.len <= |dram|
    }

    ghost predicate Valid()
      reads this
    {
      && (forall k :: 0 <= k < |pending| ==> Fits(pending[k]))
      && (forall k, m :: 0 <= k < m < |pending| ==> TargetsApart(pending[k], pending[m]))
    }

    /** No transfer still under way writes into [lo, hi). */
    ghost predicate Quiet(lo: nat, hi: nat)
      reads this
    {
      forall k :: 0 <= k < |pending| ==> pending[k].dst + pending[k].len <= lo || hi <= pending[k].dst
    }

    ghost predicate QuietAt(j: nat)
      reads this
    {
      Quiet(j, j + 1)
    }

    ghost predicate Landed(t: Transfer)
      reads l1
      requires Fits(t)
    {
      l1[t.dst..t.dst + t.len] == dram[t.src..t.src + t.len]
    }

    /** hero_dma_1d_async. */
    method Start(dst: nat, src: nat, len: nat)
      requires Valid() && Fits(Transfer(dst, src, len)) && Quiet(dst, dst + len)
      modifies this
      ensures Valid() && pending == old(pending) + [Transfer(dst, src, len)]
    {
      pending := pending + [Transfer(dst, src, len)];
    }

    /** Some elements of pending transfers land, in any order and any number. */
    method Progress()
      requires Valid()
      modifies l1
      ensures forall j :: 0 <= j < l1.Length && QuietAt(j) ==> l1[j] == old(l1[j])
    {
      var steps: int := *;
      while steps > 0
        invariant forall j :: 0 <= j < l1.Length && QuietAt(j) ==> l1[j] == old(l1[j])
      {
        var k: int, j: int := *, *;
        if 0 <= k < |pending| && 0 <= j < pending[k].len {
          var t := pending[k];
          l1[t.dst + j] := dram[t.src + j];
        }
        steps := steps - 1;
      }
    }

    /** hero_dma_wait_all: everything pending has landed, nothing else changed. */
    method WaitAll()
      requires Valid()
      modifies this, l1
      ensures pending == []
      ensures forall k :: 0 <= k < |old(pending)| ==> Fits(old(pending)[k]) && Landed(old(pending)[k])
      ensures forall j :: 0 <= j < l1.Length && old(QuietAt(j)) ==> l1[j] == old(l1[j])
    {
      var k := 0;
      while k < |pending|
        modifies l1
        invariant 0 <= k <= |pending|
        invariant forall m :: 0 <= m < k ==> Landed(pending[m])
        invariant forall j :: 0 <= j < l1.Length && QuietAt(j) ==> l1[j] == old(l1[j])
      {
        Finish(pending[k]);
        k := k + 1;
      }
      pending := [];
    }

    method Finish(t: Transfer)
      requires Fits(t)
      modifies l1
      ensures Landed(t)
      ensures forall j :: 0 <= j < l1.Length && !Covers(t, j) ==> l1[j] == old(l1[j])
    {
      for j := 0 to t.len
        invariant l1[t.dst..t.dst + j] == dram[t.src..t.src + j]
        invariant forall i :: 0 <= i < l1.Length && !Covers(t, i) ==> l1[i] == old(l1[i])
      {
        l1[t.dst + j] := dram[t.src + j];
      }
    }
  }

  // ---- the operands in main memory

  /** Where row `r` of the matrix at `wP` begins. */
  function RowAddr(wP: nat, n: nat, r: nat): nat {
    if r == 0 then wP else RowAddr(wP, n, r - 1) + n
  }

  lemma {:induction false} RowAddrIsProduct(wP: nat, n: nat, r: nat)
    ensures RowAddr(wP, n, r) == wP + n * r
  {
    if r > 0 {
      RowAddrIsProduct(wP, n, r - 1);
      assert n * r == n * (r - 1) + n;
    }
  }

  lemma {:induction false} RowAddrMonotone(wP: nat, n: nat, r: nat, d: nat)
    requires r <= d
    ensures RowAddr(wP, n, r) <= RowAddr(wP, n, d)
  {
    if r < d {
      RowAddrMonotone(wP, n, r, d - 1);
    }
  }

  function Row(dram: seq<real>, wP: nat, n: nat, r: nat): seq<real>
    requires RowAddr(wP, n, r) + n <= |dram|
  {
    dram[RowAddr(wP, n, r)..RowAddr(wP, n, r) + n]
  }

  /** Matrix and vector lie in main memory, and so do the two rows the first transfer fetches. */
  predicate Operands(dram: seq<real>, wP: nat, xP: nat, n: nat, d: nat) {
    xP + n <= |dram| && RowAddr(wP, n, d) <= |dram| && wP + 2 * n <= |dram|
  }

  lemma RowInMemory(dram: seq<real>, wP: nat, xP: nat, n: nat, d: nat, r: nat)
    requires Operands(dram, wP, xP, n, d) && r < d
    ensures RowAddr(wP, n, r) + n == RowAddr(wP, n, r + 1) <= |dram|
  {
    RowAddrMonotone(wP, n, r + 1, d);
  }

  /** Where buffer `b` starts in L1: behind the vector, two rows each. */
  function BufferBase(n: nat, b: nat): nat {
    if b == 0 then n else 3 * n
  }

  /** L1 contents `l1` hold the vector, and buffer `b` holds rows I, I+1 as far as they exist. */
  ghost predicate Loaded(l1: seq<real>, dram: seq<real>, n: nat, d: nat, wP: nat, xP: nat, I: nat, b: nat)
    requires Operands(dram, wP, xP, n, d) && |l1| == 5 * n && b < 2
  {
    && l1[..n] == dram[xP..xP + n]
    && (I < d ==> RowAt(l1, dram, n, d, wP, xP, I, BufferBase(n, b)))
    && (I + 1 < d ==> RowAt(l1, dram, n, d, wP, xP, I + 1, BufferBase(n, b) + n))
  }

  ghost predicate RowAt(l1: seq<real>, dram: seq<real>, n: nat, d: nat, wP: nat, xP: nat, r: nat, at: nat)
    requires Operands(dram, wP, xP, n, d) && r < d && at + n <= |l1|
  {
    RowInMemory(dram, wP, xP, n, d, r);
    l1[at..at + n] == Row(dram, wP, n, r)
  }

  // ---- the kernel

  ghost predicate Done(dram: seq<real>, n: nat, d: nat, wP: nat, xP: nat, r: nat, v: real, vlmax: nat)
    requires Operands(dram, wP, xP, n, d) && r < d
  {
    RowInMemory(dram, wP, xP, n, d, r);
    VectorResult(v, dram[xP..xP + n], Row(dram, wP, n, r), n, vlmax)
  }

  /** The regions the cores read while buffer `b` is current. */
  ghost predicate Undisturbed(c: Cluster, n: nat, b: nat)
    reads c
  {
    c.Quiet(0, n) && c.Quiet(BufferBase(n, b), BufferBase(n, b) + 2 * n)
  }

  /** DMA in flight elsewhere leaves the operands loaded. */
  lemma StaysLoaded(c: Cluster, n: nat, d: nat, wP: nat, xP: nat, I: nat, b: nat, before: seq<real>)
    requires b < 2 && c.l1.Length == 5 * n == |before| && Operands(c.dram, wP, xP, n, d)
    requires Loaded(before, c.dram, n, d, wP, xP, I, b) && Undisturbed(c, n, b)
    requires forall j :: 0 <= j < c.l1.Length && c.QuietAt(j) ==> c.l1[j] == before[j]
    ensures Loaded(c.l1[..], c.dram, n, d, wP, xP, I, b)
  {
    var base := BufferBase(n, b);
    forall j | 0 <= j < n || base <= j < base + 2 * n
      ensures c.l1[j] == before[j]
    {
      assert c.QuietAt(j);
    }
    assert c.l1[..][..n] == before[..n];
    assert c.l1[..][base..base + n] == before[base..base + n];
    assert c.l1[..][base + n..base + 2 * n] == before[base + n..base + 2 * n];
  }

  /** What a core finds at its two operand addresses. */
  lemma OperandsInL1(l1: seq<real>, dram: seq<real>, n: nat, d: nat, wP: nat, xP: nat, I: nat, b: nat, i: nat, at: nat)
    requires Operands(dram, wP, xP, n, d) && |l1| == 5 * n && b < 2 && i < 2 && I + i < d
    requires Loaded(l1, dram, n, d, wP, xP, I, b) && at == BufferBase(n, b) + i * n
    ensures at + n <= |l1| && RowAddr(wP, n, I + i) + n <= |dram|
    ensures l1[..n] == dram[xP..xP + n] && l1[at..at + n] == Row(dram, wP, n, I + i)
  {
    RowInMemory(dram, wP, xP, n, d, I + i);
  }

  /** A core in the middle of the dot product of row r. */
  ghost predicate Working(core: VectorCore, dram: seq<real>, n: nat, d: nat, wP: nat, xP: nat, r: nat)
    reads core
    requires Operands(dram, wP, xP, n, d) && r < d
  {
    RowInMemory(dram, wP, xP, n, d, r);
    core.K == n && core.Running(dram[xP..xP + n], Row(dram, wP, n, r))
  }

  /** A turn of the core that computes row I+i: DMA goes on, and the core handles one strip of what
      L1 holds then, or stores its result. */
  method CoreTurn(c: Cluster, core: VectorCore, n: nat, d: nat, wP: nat, xP: nat, I: nat, b: nat, i: nat,
        xout: array<real>)
    returns (finished: bool)
    requires core.vlmax >= 1 && n >= 1 && b < 2 && i < 2 && I + i < d <= xout.Length && xout != c.l1
    requires c.Valid() && c.l1.Length == 5 * n && Operands(c.dram, wP, xP, n, d)
    requires Loaded(c.l1[..], c.dram, n, d, wP, xP, I, b) && Undisturbed(c, n, b)
    requires Working(core, c.dram, n, d, wP, xP, I + i)
    modifies c.l1, xout, core
    ensures Loaded(c.l1[..], c.dram, n, d, wP, xP, I, b) && Working(core, c.dram, n, d, wP, xP, I + i)
    ensures forall r :: 0 <= r < xout.Length && r != I + i ==> xout[r] == old(xout[r])
    ensures if finished then Done(c.dram, n, d, wP, xP, I + i, xout[I + i], core.vlmax) else core.avl < old(core.avl)
  {
    c.Progress();
    StaysLoaded(c, n, d, wP, xP, I, b, old(c.l1[..]));
    var at := BufferBase(n, b) + i * n;
    OperandsInL1(c.l1[..], c.dram, n, d, wP, xP, I, b, i, at);
    var x, row := c.l1[..][..n], c.l1[..][at..at + n];
    if core.avl > 0 {
      core.Strip(x, row);
      finished := false;
    } else {
      xout[I + i] := core.Reduce(x, row);
      finished := true;
    }
  }

  function Min(a: int, b: int): int { if a < b then a else b }

  /** The transfer that brings in rows I, I+1 as far as they exist. */
  function RowsTransfer(n: nat, d: nat, wP: nat, I: nat): Transfer
    requires I < d
  {
    Transfer(BufferBase(n, I / 2 % 2), RowAddr(wP, n, I), if d - I == 1 then n else 2 * n)
  }

  /** What is under way when an iteration begins: the vector and two rows before the first one,
      then one transfer of at most two rows, and nothing after the last iteration. */
  function UnderWay(n: nat, d: nat, wP: nat, xP: nat, I: nat): seq<Transfer> {
    if I >= d then []
    else if I == 0 then [Transfer(0, xP, n), Transfer(BufferBase(n, 0), wP, n * 2)]
    else [RowsTransfer(n, d, wP, I)]
  }

  /** The transfer from the matrix among those under way. */
  function MatrixTransfer(n: nat, d: nat, wP: nat, xP: nat, I: nat): Transfer
    requires I < d
  {
    var ts := UnderWay(n, d, wP, xP, I);
    ts[|ts| - 1]
  }

  /** It reads rows of the matrix only. */
  predicate ReadsMatrix(n: nat, d: nat, wP: nat, xP: nat, I: nat)
    requires I < d
  {
    var t := MatrixTransfer(n, d, wP, xP, I);
    wP <= t.src && t.src + t.len <= RowAddr(wP, n, d)
  }

  lemma TwoRows(n: nat, wP: nat, r: nat)
    ensures RowAddr(wP, n, r + 1) == RowAddr(wP, n, r) + n && RowAddr(wP, n, r + 2) == RowAddr(wP, n, r) + 2 * n
    ensures RowAddr(wP, n, r) >= wP
  {
    RowAddrMonotone(wP, n, 0, r);
    assert RowAddr(wP, n, r + 1) == RowAddr(wP, n, r) + n;
  }

  /** No transfer of any iteration reads past the matrix exactly when it does not have a single row:
      the first transfer always fetches two. */
  lemma ReadsOnlyTheMatrixExactlyWhen(n: nat, d: nat, wP: nat, xP: nat)
    requires n >= 1 && d >= 1
    ensures (forall I: nat :: I < d && I % 2 == 0 ==> ReadsMatrix(n, d, wP, xP, I)) <==> d != 1
  {
    TwoRows(n, wP, 0);
    if d == 1 {
      assert !ReadsMatrix(n, d, wP, xP, 0);
    } else {
      forall I: nat | I < d && I % 2 == 0
        ensures ReadsMatrix(n, d, wP, xP, I)
      {
        TwoRows(n, wP, I);
        RowAddrMonotone(wP, n, I + 1, d);
        if I + 2 <= d {
          RowAddrMonotone(wP, n, I + 2, d);
        }
      }
    }
  }

  /** So the kernel asks for more readable memory than its operands only for a single row. */
  lemma OperandsAreEnough(dram: seq<real>, wP: nat, xP: nat, n: nat, d: nat)
    requires d >= 2
    ensures Operands(dram, wP, xP, n, d) <==> xP + n <= |dram| && RowAddr(wP, n, d) <= |dram|
  {
    TwoRows(n, wP, 0);
    RowAddrMonotone(wP, n, 2, d);
  }

  lemma RowsInMemory(dram: seq<real>, wP: nat, xP: nat, n: nat, d: nat, I: nat)
    requires Operands(dram, wP, xP, n, d) && I < d
    ensures RowsTransfer(n, d, wP, I).src + RowsTransfer(n, d, wP, I).len <= |dram|
    ensures I == 0 ==> RowAddr(wP, n, I) == wP
  {
    RowInMemory(dram, wP, xP, n, d, I);
    if I + 1 < d {
      RowInMemory(dram, wP, xP, n, d, I + 1);
    }
  }

  /** The transfer in the form the kernel computes it. */
  lemma RowsTransferIs(n: nat, d: nat, wP: nat, I: nat)
    requires I < d
    ensures RowsTransfer(n, d, wP, I) == Transfer(BufferBase(n, I / 2 % 2), wP + n * I, n * Min(d - I, 2))
  {
    RowAddrIsProduct(wP, n, I);
  }

  /** Once `len` elements from row I on have landed in buffer `b`, the buffer is loaded. */
  lemma BufferLoaded(l1: seq<real>, dram: seq<real>, n: nat, d: nat, wP: nat, xP: nat, I: nat, b: nat, len: nat)
    requires Operands(dram, wP, xP, n, d) && |l1| == 5 * n && I < d && b < 2
    requires l1[..n] == dram[xP..xP + n]
    requires (if I + 1 < d then 2 * n else n) <= len <= 2 * n && RowAddr(wP, n, I) + len <= |dram|
    requires l1[BufferBase(n, b)..BufferBase(n, b) + len] == dram[RowAddr(wP, n, I)..RowAddr(wP, n, I) + len]
    ensures Loaded(l1, dram, n, d, wP, xP, I, b)
  {
    var at, src := BufferBase(n, b), RowAddr(wP, n, I);
    RowInMemory(dram, wP, xP, n, d, I);
    LandedRow(l1, dram, n, d, wP, xP, I, at, src, len, 0);
    if I + 1 < d {
      LandedRow(l1, dram, n, d, wP, xP, I + 1, at, src, len, n);
    }
  }

  lemma LandedRow(l1: seq<real>, dram: seq<real>, n: nat, d: nat, wP: nat, xP: nat, r: nat, at: nat, src: nat,
        len: nat, lo: nat)
    requires Operands(dram, wP, xP, n, d) && r < d && RowAddr(wP, n, r) == src + lo && lo + n <= len
    requires at + len <= |l1| && src + len <= |dram| && l1[at..at + len] == dram[src..src + len]
    ensures RowAt(l1, dram, n, d, wP, xP, r, at + lo)
  {
    RowInMemory(dram, wP, xP, n, d, r);
    SameSlice(l1, dram, at, src, len, lo, lo + n);
  }

  lemma SameSlice(l1: seq<real>, dram: seq<real>, at: nat, src: nat, len: nat, lo: nat, hi: nat)
    requires at + len <= |l1| && src + len <= |dram| && lo <= hi <= len
    requires l1[at..at + len] == dram[src..src + len]
    ensures l1[at + lo..at + hi] == dram[src + lo..src + hi]
  {
    var u, v := l1[at + lo..at + hi], dram[src + lo..src + hi];
    forall k | 0 <= k < hi - lo
      ensures u[k] == v[k]
    {
      assert l1[at..at + len][lo + k] == u[k] && dram[src..src + len][lo + k] == v[k];
    }
  }

  predicate LandedIn(l1: seq<real>, dram: seq<real>, t: Transfer) {
    t.dst + t.len <= |l1| && t.src + t.len <= |dram| && l1[t.dst..t.dst + t.len] == dram[t.src..t.src + t.len]
  }

  /** Once everything under way at iteration I has landed, its buffer is loaded. */
  lemma AllLanded(l1: seq<real>, dram: seq<real>, n: nat, d: nat, wP: nat, xP: nat, I: nat, p: seq<Transfer>)
    requires Operands(dram, wP, xP, n, d) && |l1| == 5 * n && I < d && p == UnderWay(n, d, wP, xP, I)
    requires forall k :: 0 <= k < |p| ==> LandedIn(l1, dram, p[k])
    requires I > 0 ==> l1[..n] == dram[xP..xP + n]
    ensures Loaded(l1, dram, n, d, wP, xP, I, I / 2 % 2)
  {
    assert LandedIn(l1, dram, p[0]);
    if I == 0 {
      assert LandedIn(l1, dram, p[1]);
      assert l1[..n] == l1[0..n];
      BufferLoaded(l1, dram, n, d, wP, xP, I, 0, 2 * n);
    } else {
      RowsInMemory(dram, wP, xP, n, d, I);
      BufferLoaded(l1, dram, n, d, wP, xP, I, I / 2 % 2, p[0].len);
    }
  }

  lemma VectorIsQuiet(c: Cluster, n: nat, d: nat, wP: nat, xP: nat, I: nat)
    requires 0 < I < d && c.pending == UnderWay(n, d, wP, xP, I)
    ensures forall j :: 0 <= j < n ==> c.QuietAt(j)
  {
  }

  /** hero_dma_wait_all at the head of iteration I. */
  method Wait(c: Cluster, n: nat, d: nat, wP: nat, xP: nat, I: nat)
    requires c.Valid() && c.l1.Length == 5 * n && Operands(c.dram, wP, xP, n, d)
    requires I < d && c.pending == UnderWay(n, d, wP, xP, I)
    requires I > 0 ==> c.l1[..n] == c.dram[xP..xP + n]
    modifies c, c.l1
    ensures c.pending == [] && Loaded(c.l1[..], c.dram, n, d, wP, xP, I, I / 2 % 2)
  {
    ghost var before, p := c.l1[..n], c.pending;
    if I > 0 {
      VectorIsQuiet(c, n, d, wP, xP, I);
    }
    c.WaitAll();
    forall k | 0 <= k < |p|
      ensures LandedIn(c.l1[..], c.dram, p[k])
    {
      assert c.Fits(p[k]) && c.Landed(p[k]);
    }
    assert I > 0 ==> c.l1[..][..n] == before;
    AllLanded(c.l1[..], c.dram, n, d, wP, xP, I, p);
  }

  /** Starts the transfer for the next iteration into the other buffer, if rows are left for it. */
  method Prefetch(c: Cluster, n: nat, d: nat, wP: nat, xP: nat, I: nat, it: nat)
    requires c.Valid() && c.pending == [] && c.l1.Length == 5 * n && Operands(c.dram, wP, xP, n, d)
    requires I == 2 * it && I < d
    modifies c
    ensures c.Valid() && c.pending == UnderWay(n, d, wP, xP, I + CORES)
  {
    var rowsLeft := d - I;
    if rowsLeft > 2 {
      RowsInMemory(c.dram, wP, xP, n, d, I + CORES);
      RowsTransferIs(n, d, wP, I + CORES);
      c.Start(BufferBase(n, (it + 1) % 2), wP + n * (I + CORES), n * Min(rowsLeft - CORES, CORES));
    }
  }

  lemma OtherBufferIsQuiet(c: Cluster, n: nat, d: nat, wP: nat, xP: nat, I: nat, it: nat)
    requires Operands(c.dram, wP, xP, n, d) && I == 2 * it && I < d
    requires c.pending == UnderWay(n, d, wP, xP, I + CORES)
    ensures Undisturbed(c, n, it % 2)
  {
    if I + CORES < d {
      RowsInMemory(c.dram, wP, xP, n, d, I + CORES);
      assert c.pending == [RowsTransfer(n, d, wP, I + CORES)];
    }
  }

  method StartCore(ghost dram: seq<real>, n: nat, d: nat, wP: nat, xP: nat, r: nat, vlmax: nat)
    returns (core: VectorCore)
    requires Operands(dram, wP, xP, n, d) && r < d
    ensures fresh(core) && core.vlmax == vlmax && Working(core, dram, n, d, wP, xP, r)
  {
    RowInMemory(dram, wP, xP, n, d, r);
    core := new VectorCore(vlmax, dram[xP..xP + n], Row(dram, wP, n, r), n);
  }

  /** Row r is finished, or its core is working on it. */
  ghost predicate Stage(core: VectorCore, finished: bool, dram: seq<real>, n: nat, d: nat, wP: nat, xP: nat, r: nat,
        xout: array<real>)
    reads core, xout
    requires Operands(dram, wP, xP, n, d) && r < d <= xout.Length
  {
    if finished then Done(dram, n, d, wP, xP, r, xout[r], core.vlmax) else Working(core, dram, n, d, wP, xP, r)
  }

  function TurnsLeft(core: VectorCore, finished: bool): nat
    reads core
  {
    if finished then 0 else core.avl + 1
  }

  /** A turn of one of two cores that are both at work. */
  method EitherTurn(c: Cluster, core0: VectorCore, core1: VectorCore, n: nat, d: nat, wP: nat, xP: nat, I: nat, b: nat,
        xout: array<real>)
    returns (finished0: bool, finished1: bool)
    requires core0 != core1 && core0.vlmax >= 1 && core1.vlmax >= 1
    requires n >= 1 && b < 2 && I + 1 < d <= xout.Length && xout != c.l1
    requires c.Valid() && c.l1.Length == 5 * n && Operands(c.dram, wP, xP, n, d)
    requires Loaded(c.l1[..], c.dram, n, d, wP, xP, I, b) && Undisturbed(c, n, b)
    requires Working(core0, c.dram, n, d, wP, xP, I) && Working(core1, c.dram, n, d, wP, xP, I + 1)
    modifies c.l1, xout, core0, core1
    ensures Loaded(c.l1[..], c.dram, n, d, wP, xP, I, b)
    ensures forall r :: 0 <= r < xout.Length && r != I && r != I + 1 ==> xout[r] == old(xout[r])
    ensures Stage(core0, finished0, c.dram, n, d, wP, xP, I, xout)
    ensures Stage(core1, finished1, c.dram, n, d, wP, xP, I + 1, xout)
    ensures TurnsLeft(core0, finished0) + TurnsLeft(core1, finished1) < old(core0.avl + core1.avl) + 2
  {
    finished0, finished1 := false, false;
    if * {
      finished0 := CoreTurn(c, core0, n, d, wP, xP, I, b, 0, xout);
    } else {
      finished1 := CoreTurn(c, core1, n, d, wP, xP, I, b, 1, xout);
    }
  }

  /** Two cores, taking turns in any order until one has stored its result. */
  method UntilOneFinishes(c: Cluster, core0: VectorCore, core1: VectorCore, n: nat, d: nat, wP: nat, xP: nat, I: nat,
        b: nat, xout: array<real>)
    returns (finished0: bool, finished1: bool)
    requires core0 != core1 && core0.vlmax >= 1 && core1.vlmax >= 1
    requires n >= 1 && b < 2 && I + 1 < d <= xout.Length && xout != c.l1
    requires c.Valid() && c.l1.Length == 5 * n && Operands(c.dram, wP, xP, n, d)
    requires Loaded(c.l1[..], c.dram, n, d, wP, xP, I, b) && Undisturbed(c, n, b)
    requires Working(core0, c.dram, n, d, wP, xP, I) && Working(core1, c.dram, n, d, wP, xP, I + 1)
    modifies c.l1, xout, core0, core1
    ensures Loaded(c.l1[..], c.dram, n, d, wP, xP, I, b)
    ensures forall r :: 0 <= r < xout.Length && r != I && r != I + 1 ==> xout[r] == old(xout[r])
    ensures Stage(core0, finished0, c.dram, n, d, wP, xP, I, xout)
    ensures Stage(core1, finished1, c.dram, n, d, wP, xP, I + 1, xout)
  {
    finished0, finished1 := false, false;
    while !finished0 && !finished1
      invariant Loaded(c.l1[..], c.dram, n, d, wP, xP, I, b)
      invariant forall r :: 0 <= r < xout.Length && r != I && r != I + 1 ==> xout[r] == old(xout[r])
      invariant Stage(core0, finished0, c.dram, n, d, wP, xP, I, xout)
      invariant Stage(core1, finished1, c.dram, n, d, wP, xP, I + 1, xout)
      decreases TurnsLeft(core0, finished0) + TurnsLeft(core1, finished1)
    {
      finished0, finished1 := EitherTurn(c, core0, core1, n, d, wP, xP, I, b, xout);
    }
  }

  /** The remaining turns of one core. */
  method FinishCore(c: Cluster, core: VectorCore, n: nat, d: nat, wP: nat, xP: nat, I: nat, b: nat, i: nat,
        xout: array<real>)
    requires core.vlmax >= 1 && n >= 1 && b < 2 && i < 2 && I + i < d <= xout.Length && xout != c.l1
    requires c.Valid() && c.l1.Length == 5 * n && Operands(c.dram, wP, xP, n, d)
    requires Loaded(c.l1[..], c.dram, n, d, wP, xP, I, b) && Undisturbed(c, n, b)
    requires Working(core, c.dram, n, d, wP, xP, I + i)
    modifies c.l1, xout, core
    ensures Loaded(c.l1[..], c.dram, n, d, wP, xP, I, b)
    ensures forall r :: 0 <= r < xout.Length && r != I + i ==> xout[r] == old(xout[r])
    ensures Done(c.dram, n, d, wP, xP, I + i, xout[I + i], core.vlmax)
  {
    var finished := false;
    while !finished
      invariant Loaded(c.l1[..], c.dram, n, d, wP, xP, I, b)
      invariant forall r :: 0 <= r < xout.Length && r != I + i ==> xout[r] == old(xout[r])
      invariant Stage(core, finished, c.dram, n, d, wP, xP, I + i, xout)
      decreases TurnsLeft(core, finished)
    {
      finished := CoreTurn(c, core, n, d, wP, xP, I, b, i, xout);
    }
  }

  /** The parallel loop: the two cores take their turns in any order, and a core without a row has
      nothing to do. */
  method BothCores(c: Cluster, n: nat, d: nat, wP: nat, xP: nat, I: nat, b: nat, xout: array<real>, vlmax: nat)
    requires vlmax >= 1 && n >= 1 && b < 2 && I < d <= xout.Length && xout != c.l1
    requires c.Valid() && c.l1.Length == 5 * n && Operands(c.dram, wP, xP, n, d)
    requires Loaded(c.l1[..], c.dram, n, d, wP, xP, I, b) && Undisturbed(c, n, b)
    modifies c.l1, xout
    ensures Loaded(c.l1[..], c.dram, n, d, wP, xP, I, b)
    ensures forall r :: 0 <= r < xout.Length && !(I <= r < I + 2 && r < d) ==> xout[r] == old(xout[r])
    ensures Done(c.dram, n, d, wP, xP, I, xout[I], vlmax)
    ensures I + 1 < d ==> Done(c.dram, n, d, wP, xP, I + 1, xout[I + 1], vlmax)
  {
    var core0 := StartCore(c.dram, n, d, wP, xP, I, vlmax);
    var finished0, finished1 := false, true;
    if I + 1 < d {
      var core1 := StartCore(c.dram, n, d, wP, xP, I + 1, vlmax);
      finished0, finished1 := UntilOneFinishes(c, core0, core1, n, d, wP, xP, I, b, xout);
      if !finished1 {
        FinishCore(c, core1, n, d, wP, xP, I, b, 1, xout);
      }
    }
    if !finished0 {
      FinishCore(c, core0, n, d, wP, xP, I, b, 0, xout);
    }
  }

  method WaitAndPrefetch(c: Cluster, n: nat, d: nat, wP: nat, xP: nat, I: nat, it: nat)
    requires c.Valid() && c.l1.Length == 5 * n && Operands(c.dram, wP, xP, n, d)
    requires I == 2 * it && I < d && c.pending == UnderWay(n, d, wP, xP, I)
    requires I > 0 ==> c.l1[..n] == c.dram[xP..xP + n]
    modifies c, c.l1
    ensures c.Valid() && c.pending == UnderWay(n, d, wP, xP, I + CORES)
    ensures Loaded(c.l1[..], c.dram, n, d, wP, xP, I, it % 2) && Undisturbed(c, n, it % 2)
  {
    Wait(c, n, d, wP, xP, I);
    Prefetch(c, n, d, wP, xP, I, it);
    OtherBufferIsQuiet(c, n, d, wP, xP, I, it);
  }

  /** One turn of the row loop: wait, start the next transfer, compute at most two rows. */
  method Iteration(c: Cluster, n: nat, d: nat, wP: nat, xP: nat, I: nat, it: nat, xout: array<real>, vlmax: nat)
    requires vlmax >= 1 && n >= 1 && d <= xout.Length && xout != c.l1
    requires c.Valid() && c.l1.Length == 5 * n && Operands(c.dram, wP, xP, n, d)
    requires I == 2 * it && I < d && c.pending == UnderWay(n, d, wP, xP, I)
    requires I > 0 ==> c.l1[..n] == c.dram[xP..xP + n]
    modifies c, c.l1, xout
    ensures c.Valid() && c.pending == UnderWay(n, d, wP, xP, I + CORES)
    ensures c.l1[..n] == c.dram[xP..xP + n]
    ensures forall r :: 0 <= r < xout.Length && !(I <= r < I + 2 && r < d) ==> xout[r] == old(xout[r])
    ensures Done(c.dram, n, d, wP, xP, I, xout[I], vlmax)
    ensures I + 1 < d ==> Done(c.dram, n, d, wP, xP, I + 1, xout[I + 1], vlmax)
  {
    WaitAndPrefetch(c, n, d, wP, xP, I, it);
    BothCores(c, n, d, wP, xP, I, it % 2, xout, vlmax);
    assert c.l1[..n] == c.l1[..][..n];
  }

  /** L1 for the vector and two buffers of two rows, and the first two transfers. */
  method StartUp(dram: seq<real>, xP: nat, wP: nat, n: nat, d: nat) returns (c: Cluster)
    requires n >= 1 && d >= 1 && Operands(dram, wP, xP, n, d)
    ensures fresh(c) && fresh(c.l1) && c.dram == dram && c.l1.Length == 5 * n
    ensures c.Valid() && c.pending == UnderWay(n, d, wP, xP, 0)
  {
    c := new Cluster(dram, 5 * n);
    c.Start(0, xP, n);
    c.Start(BufferBase(n, 0), wP, n * 2);
  }

  /** The loop over the rows, two at a time. */
  method RowLoop(c: Cluster, xout: array<real>, xP: nat, wP: nat, n: nat, d: nat, vlmax: nat)
    requires vlmax >= 1 && n >= 1 && d <= xout.Length && xout != c.l1
    requires c.l1.Length == 5 * n && Operands(c.dram, wP, xP, n, d)
    requires c.Valid() && c.pending == UnderWay(n, d, wP, xP, 0)
    modifies c, c.l1, xout
    ensures c.pending == []
    ensures forall r :: d <= r < xout.Length ==> xout[r] == old(xout[r])
    ensures forall r :: 0 <= r < d ==> Done(c.dram, n, d, wP, xP, r, xout[r], vlmax)
  {
    var it, I := 0, 0;
    while I < d
      invariant I == 2 * it
      invariant c.Valid() && c.pending == UnderWay(n, d, wP, xP, I)
      invariant I > 0 ==> c.l1[..n] == c.dram[xP..xP + n]
      invariant forall r :: d <= r < xout.Length ==> xout[r] == old(xout[r])
      invariant forall r :: 0 <= r < I && r < d ==> Done(c.dram, n, d, wP, xP, r, xout[r], vlmax)
      decreases d - I
    {
      Iteration(c, n, d, wP, xP, I, it, xout, vlmax);
      I := I + CORES;
      it := it + 1;
    }
  }

  /** The device part of matvec: it leaves at once for an empty size or a null address, and otherwise
      finishes every row of the result and leaves no transfer under way. */
  method Kernel(dram: seq<real>, xout: array<real>, xoutP: nat, xP: nat, wP: nat, n: nat, d: nat, vlmax: nat)
    returns (ghost underWay: seq<Transfer>)
    requires vlmax >= 1 && d <= xout.Length && Operands(dram, wP, xP, n, d)
    modifies xout
    ensures forall r :: d <= r < xout.Length ==> xout[r] == old(xout[r])
    ensures n != 0 && d != 0 && xoutP != 0 && xP != 0 && wP != 0 ==>
              forall r :: 0 <= r < d ==> Done(dram, n, d, wP, xP, r, xout[r], vlmax)
    ensures n == 0 || d == 0 || xoutP == 0 || xP == 0 || wP == 0 ==> xout[..] == old(xout[..])
    ensures underWay == []
  {
    underWay := [];
    if n == 0 || d == 0 || xoutP == 0 || xP == 0 || wP == 0 {
      return;
    }
    var c := StartUp(dram, xP, wP, n, d);
    RowLoop(c, xout, xP, wP, n, d, vlmax);
    underWay := c.pending;
  }

  /** An int as the device's 32-bit unsigned size. */
  function Unsigned(n: int): nat { n % 0x1_0000_0000 }

  predicate Int32(n: int) { -0x8000_0000 <= n < 0x8000_0000 }

  /** The size check: a 32-bit product, compared as an unsigned long, so that a negative one is too
      large. */
  predicate SizeOk(n: int) { Unsigned(n * 9) <= MAX_ELEM }

  /** Among the sizes whose product does not overflow, the check passes those from 0 to 2730. */
  lemma SizeOkExactlyWhen(n: int)
    requires -0x8000_0000 <= n * 9 < 0x8000_0000
    ensures SizeOk(n) <==> 0 <= n <= 2730
  {
    if n < 0 {
      assert Unsigned(n * 9) == n * 9 + 0x1_0000_0000;
    }
  }

  /** A size that passes the check lets the vector and the two buffers fit the scratchpad exactly when
      the product did not overflow. */
  lemma BuffersFitExactlyWhen(n: int)
    requires Int32(n) && SizeOk(n)
    ensures 5 * Unsigned(n) <= MAX_ELEM <==> 0 <= n * 9 < 0x8000_0000
  {
  }

  /** A size whose product overflows and passes the check all the same. */
  lemma OverflowPasses()
    ensures Int32(477218589) && SizeOk(477218589) && 5 * Unsigned(477218589) > MAX_ELEM
  {
  }

  /** matvec: the size check, then the offload.  The result is the matrix-vector product for every
      row length that fits one vector register group or is a multiple of it. */
  method MatVec(dram: seq<real>, xout: array<real>, xoutP: nat, xP: nat, wP: nat, size: int, d: nat, vlmax: nat)
    returns (ret: int)
    requires vlmax >= 1 && d <= xout.Length && Int32(size)
    requires SizeOk(size) ==> Operands(dram, wP, xP, Unsigned(size), d)
    modifies xout
    ensures ret == if SizeOk(size) then 0 else -1
    ensures -0x8000_0000 <= size * 9 < 0x8000_0000 ==> (ret == 0 <==> 0 <= size <= 2730)
    ensures ret == -1 || size == 0 || d == 0 || xoutP == 0 || xP == 0 || wP == 0 ==> xout[..] == old(xout[..])
    ensures forall r :: d <= r < xout.Length ==> xout[r] == old(xout[r])
    ensures ret == 0 && size != 0 && d != 0 && xoutP != 0 && xP != 0 && wP != 0 ==>
              && (forall r :: 0 <= r < d ==> Done(dram, Unsigned(size), d, wP, xP, r, xout[r], vlmax))
              && (Unsigned(size) <= vlmax || Unsigned(size) % vlmax == 0 ==>
                    forall r :: 0 <= r < d ==> IsProduct(dram, Unsigned(size), wP, xP, r, xout[r]))
  {
    if -0x8000_0000 <= size * 9 < 0x8000_0000 {
      SizeOkExactlyWhen(size);
    }
    assert Unsigned(size) == 0 <==> size == 0;
    if Unsigned(size * 9) > MAX_ELEM {
      return -1;
    }
    var n := Unsigned(size);
    ghost var underWay := Kernel(dram, xout, xoutP, xP, wP, n, d, vlmax);
    if n != 0 && d != 0 && xoutP != 0 && xP != 0 && wP != 0 && (n <= vlmax || n % vlmax == 0) {
      forall r | 0 <= r < d
        ensures IsProduct(dram, n, wP, xP, r, xout[r])
      {
        DoneIsDot(dram, n, d, wP, xP, r, xout[r], vlmax);
      }
    }
    ret := 0;
  }

  /** v is element r of the matrix-vector product. */
  predicate IsProduct(dram: seq<real>, n: nat, wP: nat, xP: nat, r: nat, v: real) {
    && xP + n <= |dram| && RowAddr(wP, n, r) + n <= |dram|
    && v == Dot(dram[xP..xP + n], Row(dram, wP, n, r), n)
  }

  lemma DoneIsDot(dram: seq<real>, n: nat, d: nat, wP: nat, xP: nat, r: nat, v: real, vlmax: nat)
    requires vlmax >= 1 && n >= 1 && (n <= vlmax || n % vlmax == 0)
    requires Operands(dram, wP, xP, n, d) && r < d && Done(dram, n, d, wP, xP, r, v, vlmax)
    ensures IsProduct(dram, n, wP, xP, r, v)
  {
    RowInMemory(dram, wP, xP, n, d, r);
    var x, row := dram[xP..xP + n], Row(dram, wP, n, r);
    var vls: seq<nat> :| Strips(n, vlmax, vls) && v == Reduced(x, row, vls);
    RvvCorrect(x, row, n, vlmax, vls);
  }

  /** Every row is right for all operands and all admissible vector lengths exactly for those n. */
  lemma RowsRightExactlyWhen(n: nat, vlmax: nat)
    requires n >= 1 && vlmax >= 1
    ensures (forall x: seq<real>, row: seq<real>, v: real ::
               |x| == n && |row| == n && VectorResult(v, x, row, n, vlmax) ==> v == Dot(x, row, n))
       <==> n <= vlmax || n % vlmax == 0
  {
    if n <= vlmax || n % vlmax == 0 {
      forall x: seq<real>, row: seq<real>, v: real | |x| == n && |row| == n && VectorResult(v, x, row, n, vlmax)
        ensures v == Dot(x, row, n)
      {
        var vls: seq<nat> :| Strips(n, vlmax, vls) && v == Reduced(x, row, vls);
        RvvCorrect(x, row, n, vlmax, vls);
      }
    } else {
      RvvExactlyWhenOneStripOrDivisible(n, vlmax);
      var vls: seq<nat>, x: seq<real>, row: seq<real> :|
        Strips(n, vlmax, vls) && |x| == n && |row| == n && Reduced(x, row, vls) != Dot(x, row, n);
      assert VectorResult(Reduced(x, row, vls), x, row, n, vlmax);
    }
  }
}
