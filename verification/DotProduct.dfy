/** The three dot products of apps/omp/kernels/fdotp.h over exact reals: the naive loop, the packed
    two-lane loop and the strip-mined vector loop. */
module DotProduct {

  /** The first `n` products, summed. */
  function Dot(a: seq<real>, b: seq<real>, n: nat): real
    requires n <= |a| && n <= |b|
  {
    if n == 0 then 0.0 else Dot(a, b, n - 1) + a[n - 1] * b[n - 1]
  }

  /** A vector of zeros with a one at `k`. */
  function Unit(len: nat, k: nat): (u: seq<real>)
    ensures |u| == len
    ensures forall i :: 0 <= i < len ==> u[i] == if i == k then 1.0 else 0.0
  {
    seq(len, i => if i == k then 1.0 else 0.0)
  }

  lemma {:induction false} DotOfUnit(len: nat, k: nat, n: nat)
    requires n <= len
    ensures Dot(Unit(len, k), Unit(len, k), n) == if k < n then 1.0 else 0.0
  {
    if n > 0 {
      DotOfUnit(len, k, n - 1);
    }
  }

  /** Only the first `n` entries matter. */
  lemma {:induction false} DotPrefix(a: seq<real>, b: seq<real>, a': seq<real>, b': seq<real>, n: nat)
    requires n <= |a| && n <= |b| && n <= |a'| && n <= |b'|
    requires forall i :: 0 <= i < n ==> a[i] == a'[i] && b[i] == b'[i]
    ensures Dot(a, b, n) == Dot(a', b', n)
  {
    if n > 0 {
      DotPrefix(a, b, a', b', n - 1);
    }
  }

  // ---- fdotp_naive_32b

  method FdotpNaive(a: seq<real>, b: seq<real>, K: nat) returns (c: real)
    requires K <= |a| && K <= |b|
    ensures c == Dot(a, b, K)
  {
    var value := 0.0;
    for i := 0 to K
      invariant value == Dot(a, b, i)
    {
      value := value + a[i] * b[i];
    }
    c := value;
  }

  // ---- fdotp_simd_32b

  /** Elements the packed loop reads: a first pair, then pairs until the counter, tested at the
      bottom, reaches K. */
  function Covered(K: nat): nat {
    if K <= 4 then 4 else K + K % 2
  }

  /** Two products per step in a two-lane accumulator.  `K` four-byte elements fit the 32-bit space. */
  method FdotpSimd(a: seq<real>, b: seq<real>, K: nat) returns (c: real)
    requires K <= 0x4000_0000 && Covered(K) <= |a| && Covered(K) <= |b|
    ensures c == Dot(a, b, Covered(K))
  {
    var lane0, lane1 := a[0] * b[0], a[1] * b[1];
    var t0 := 2;
    assert Dot(a, b, 1) == Dot(a, b, 0) + a[0] * b[0];
    var again := true;
    while again
      invariant 2 <= t0 <= Covered(K) && t0 % 2 == 0
      invariant lane0 + lane1 == Dot(a, b, t0)
      invariant again <==> t0 == 2 || t0 < K
      decreases Covered(K) - t0, again
    {
      lane0 := lane0 + a[t0] * b[t0];
      lane1 := lane1 + a[t0 + 1] * b[t0 + 1];
      assert Dot(a, b, t0 + 1) == Dot(a, b, t0) + a[t0] * b[t0];
      t0 := t0 + 2;
      again := t0 < K;
    }
    c := lane0 + lane1;
  }

  /** The packed loop computes the dot product of all inputs exactly for even K from 4 on. */
  lemma SimdExactlyForEvenFromFour(K: nat)
    ensures (forall a: seq<real>, b: seq<real> :: Covered(K) <= |a| && Covered(K) <= |b| ==>
               Dot(a, b, Covered(K)) == Dot(a, b, K))
       <==> K % 2 == 0 && K >= 4
  {
    if !(K % 2 == 0 && K >= 4) {
      var u := Unit(Covered(K), K);
      DotOfUnit(Covered(K), K, Covered(K));
      DotOfUnit(Covered(K), K, K);
      assert Dot(u, u, Covered(K)) != Dot(u, u, K);
    }
  }

  // ---- fdotp_rvv_32b: vsetvli

  /** The vector lengths section 6.3 of the RISC-V "V" Vector Extension 1.0 allows for `avl`. */
  predicate Allowed(avl: nat, vlmax: nat, vl: nat) {
    if avl <= vlmax then vl == avl
    else if avl < 2 * vlmax then (avl + 1) / 2 <= vl <= vlmax
    else vl == vlmax
  }

  method Vsetvli(avl: nat, vlmax: nat) returns (vl: nat)
    ensures Allowed(avl, vlmax, vl)
  {
    if avl > vlmax {
      vl := vlmax;
      if avl < 2 * vlmax {
        var any :| (avl + 1) / 2 <= any <= vlmax;
        vl := any;
      }
    } else {
      vl := avl;
    }
  }

  /** Elements handled before strip `s`. */
  function Offset(vls: seq<nat>, s: nat): nat
    requires s <= |vls|
  {
    if s == 0 then 0 else Offset(vls, s - 1) + vls[s - 1]
  }

  /** Strip `s` starts inside the vectors and has a length vsetvli may return there. */
  predicate StripOk(K: nat, vlmax: nat, vls: seq<nat>, s: nat)
    requires s < |vls|
  {
    Offset(vls, s) < K && Allowed(K - Offset(vls, s), vlmax, vls[s])
  }

  /** Strip lengths that vsetvli may return one after the other for `K` elements. */
  ghost predicate Prefix(K: nat, vlmax: nat, vls: seq<nat>) {
    forall s :: 0 <= s < |vls| ==> StripOk(K, vlmax, vls, s)
  }

  /** The strips of a whole run. */
  ghost predicate Strips(K: nat, vlmax: nat, vls: seq<nat>) {
    |vls| > 0 && Prefix(K, vlmax, vls) && Offset(vls, |vls|) == K
  }

  lemma {:induction false} OffsetSame(vls: seq<nat>, more: seq<nat>, s: nat)
    requires s <= |vls|
    ensures Offset(vls + more, s) == Offset(vls, s)
  {
    if s > 0 {
      OffsetSame(vls, more, s - 1);
    }
  }

  lemma {:induction false} OffsetMonotone(vls: seq<nat>, s: nat, t: nat)
    requires s <= t <= |vls|
    ensures Offset(vls, s) <= Offset(vls, t)
  {
    if s < t {
      OffsetMonotone(vls, s, t - 1);
    }
  }

  lemma StripIsShorter(K: nat, vlmax: nat, vls: seq<nat>, s: nat)
    requires Prefix(K, vlmax, vls) && s + 1 < |vls|
    ensures vls[s + 1] <= vls[s]
  {
    assert StripOk(K, vlmax, vls, s) && StripOk(K, vlmax, vls, s + 1);
    assert Offset(vls, s + 1) == Offset(vls, s) + vls[s];
  }

  /** A later strip is never longer than an earlier one. */
  lemma {:induction false} StripsShrink(K: nat, vlmax: nat, vls: seq<nat>, s: nat, t: nat)
    requires Prefix(K, vlmax, vls) && s <= t < |vls|
    ensures vls[t] <= vls[s]
  {
    if s < t {
      StripsShrink(K, vlmax, vls, s, t - 1);
      StripIsShorter(K, vlmax, vls, t - 1);
    }
  }

  // ---- fdotp_rvv_32b: the accumulator register

  /** Product of element `i` of strip `s`. */
  function Product(a: seq<real>, b: seq<real>, vls: seq<nat>, s: nat, i: nat): real
    requires s < |vls|
  {
    var k := Offset(vls, s) + i;
    if i < vls[s] && k < |a| && k < |b| then a[k] * b[k] else 0.0
  }

  /** What lane `i` has accumulated after `s` strips. */
  function Lane(a: seq<real>, b: seq<real>, vls: seq<nat>, s: nat, i: nat): real
    requires s <= |vls|
  {
    if s == 0 then 0.0 else Lane(a, b, vls, s - 1, i) + Product(a, b, vls, s - 1, i)
  }

  /** The first `n` lanes after `s` strips, summed. */
  function Lanes(a: seq<real>, b: seq<real>, vls: seq<nat>, s: nat, n: nat): real
    requires s <= |vls|
  {
    if n == 0 then 0.0 else Lanes(a, b, vls, s, n - 1) + Lane(a, b, vls, s, n - 1)
  }

  /** The result: vfredusum runs with the vector length of the last strip. */
  function Reduced(a: seq<real>, b: seq<real>, vls: seq<nat>): real
    requires |vls| > 0
  {
    Lanes(a, b, vls, |vls|, vls[|vls| - 1])
  }

  lemma {:induction false} LaneSame(a: seq<real>, b: seq<real>, vls: seq<nat>, more: seq<nat>, s: nat, i: nat)
    requires s <= |vls|
    ensures Lane(a, b, vls + more, s, i) == Lane(a, b, vls, s, i)
  {
    if s > 0 {
      LaneSame(a, b, vls, more, s - 1, i);
      OffsetSame(vls, more, s - 1);
    }
  }

  /** One strip from element `p`: lanes below `vl` multiply, or multiply-accumulate; lanes from
      `vl` on are tail-agnostic (section 3.4.3), so they may hold anything afterwards. */
  method MacStrip(v24: seq<real>, a: seq<real>, b: seq<real>, p: nat, vl: nat, first: bool) returns (v: seq<real>)
    requires vl <= |v24| && p + vl <= |a| && p + vl <= |b|
    ensures |v| == |v24|
    ensures forall i :: 0 <= i < vl ==> v[i] == (if first then 0.0 else v24[i]) + a[p + i] * b[p + i]
  {
    var v8, v16 := a[p..p + vl], b[p..p + vl];
    var head := seq(vl, i requires 0 <= i < vl => (if first then 0.0 else v24[i]) + v8[i] * v16[i]);
    var tail: seq<real> := v24[vl..];
    if * {
      var garbage: real := *;
      tail := seq(|v24| - vl, _ => garbage);
    }
    v := head + tail;
  }

  method Vfredusum(v24: seq<real>, vl: nat) returns (red: real)
    requires vl <= |v24|
    ensures red == Total(v24, vl)
  {
    red := 0.0;
    for i := 0 to vl
      invariant red == Total(v24, i)
    {
      red := red + v24[i];
    }
  }

  function Total(v: seq<real>, n: nat): real
    requires n <= |v|
  {
    if n == 0 then 0.0 else Total(v, n - 1) + v[n - 1]
  }

  lemma {:induction false} TotalOfLanes(v: seq<real>, a: seq<real>, b: seq<real>, vls: seq<nat>, s: nat, n: nat)
    requires n <= |v| && s <= |vls|
    requires forall i :: 0 <= i < n ==> v[i] == Lane(a, b, vls, s, i)
    ensures Total(v, n) == Lanes(a, b, vls, s, n)
  {
    if n > 0 {
      TotalOfLanes(v, a, b, vls, s, n - 1);
    }
  }

  /** The lanes of the last strip hold what all strips so far contribute to them. */
  ghost predicate Accumulated(v24: seq<real>, a: seq<real>, b: seq<real>, vls: seq<nat>) {
    vls != [] ==> vls[|vls| - 1] <= |v24|
                  && forall i :: 0 <= i < vls[|vls| - 1] ==> v24[i] == Lane(a, b, vls, |vls|, i)
  }

  /** A value the vector dot product may store: the reduction after some lengths vsetvli allows. */
  ghost predicate VectorResult(v: real, a: seq<real>, b: seq<real>, K: nat, vlmax: nat)
    requires |a| == |b| == K
  {
    exists vls: seq<nat> :: Strips(K, vlmax, vls) && v == Reduced(a, b, vls)
  }

  /** The registers of a core inside the strip-mined loop over K elements. */
  class VectorCore {
    const vlmax: nat
    const K: nat
    var v24: seq<real>
    var avl: nat
    var p: nat
    var vl: nat
    ghost var vls: seq<nat>   // the lengths vsetvli returned

    constructor (vlmax: nat, ghost a: seq<real>, ghost b: seq<real>, K: nat)
      requires |a| == |b| == K
      ensures this.vlmax == vlmax && this.K == K && avl == K && Running(a, b)
    {
      this.vlmax, this.K := vlmax, K;
      v24 := seq(vlmax, _ => 0.0);
      avl, p, vl, vls := K, 0, 0, [];
    }

    ghost predicate Running(a: seq<real>, b: seq<real>)
      reads this
    {
      && |a| == |b| == K && |v24| == vlmax && avl + p == K
      && Prefix(K, vlmax, vls) && p == Offset(vls, |vls|)
      && (|vls| > 0 ==> vl == vls[|vls| - 1])
      && (|vls| > 0 <==> avl < K)
      && Accumulated(v24, a, b, vls)
    }

    /** One turn of the loop: vsetvli, two loads, multiply or multiply-accumulate, bump. */
    method Strip(a: seq<real>, b: seq<real>)
      requires vlmax >= 1 && Running(a, b) && avl > 0
      modifies this
      ensures Running(a, b) && avl < old(avl)
    {
      var len := Vsetvli(avl, vlmax);
      var v := MacStrip(v24, a, b, p, len, avl == K);
      PrefixAppended(K, vlmax, vls, len);
      StripAccumulates(v24, v, a, b, vls, len);
      v24, vl, vls := v, len, vls + [len];
      p := p + len;
      avl := avl - len;
    }

    /** The reduction after the loop. */
    method Reduce(ghost a: seq<real>, ghost b: seq<real>) returns (red: real)
      requires Running(a, b) && avl == 0 && K >= 1
      ensures VectorResult(red, a, b, K, vlmax)
    {
      red := Vfredusum(v24, vl);
      TotalOfLanes(v24, a, b, vls, |vls|, vl);
      assert Strips(K, vlmax, vls) && red == Reduced(a, b, vls);
    }
  }

  /** The strip-mined loop.  With K = 0 the stored value is whatever the register held. */
  method FdotpRvv(a: seq<real>, b: seq<real>, K: nat, vlmax: nat) returns (c: real)
    requires vlmax >= 1 && |a| == K && |b| == K
    ensures K >= 1 ==> VectorResult(c, a, b, K, vlmax)
  {
    if K == 0 {
      c := *;
      return;
    }
    var core := new VectorCore(vlmax, a, b, K);
    while core.avl > 0
      invariant core.Running(a, b)
      decreases core.avl
    {
      core.Strip(a, b);
    }
    c := core.Reduce(a, b);
  }

  lemma StripAccumulates(w: seq<real>, w': seq<real>, a: seq<real>, b: seq<real>, vls: seq<nat>, vl: nat)
    requires vl <= |w| == |w'| && Accumulated(w, a, b, vls)
    requires Offset(vls, |vls|) + vl <= |a| && Offset(vls, |vls|) + vl <= |b|
    requires vls != [] ==> vl <= vls[|vls| - 1]
    requires var p := Offset(vls, |vls|);
             forall i :: 0 <= i < vl ==> w'[i] == (if vls == [] then 0.0 else w[i]) + a[p + i] * b[p + i]
    ensures Accumulated(w', a, b, vls + [vl])
  {
    forall i | 0 <= i < vl
      ensures w'[i] == Lane(a, b, vls + [vl], |vls| + 1, i)
    {
      StripLane(w, w', a, b, vls, vl, i);
    }
  }

  lemma StripLane(w: seq<real>, w': seq<real>, a: seq<real>, b: seq<real>, vls: seq<nat>, vl: nat, i: nat)
    requires i < vl <= |w| == |w'| && Accumulated(w, a, b, vls)
    requires vls != [] ==> vl <= vls[|vls| - 1]
    requires var p := Offset(vls, |vls|);
             p + i < |a| && p + i < |b| && w'[i] == (if vls == [] then 0.0 else w[i]) + a[p + i] * b[p + i]
    ensures w'[i] == Lane(a, b, vls + [vl], |vls| + 1, i)
  {
    LaneAppended(a, b, vls, vl, i);
  }

  lemma PrefixAppended(K: nat, vlmax: nat, vls: seq<nat>, vl: nat)
    requires Prefix(K, vlmax, vls) && Offset(vls, |vls|) < K
    requires Allowed(K - Offset(vls, |vls|), vlmax, vl)
    ensures Prefix(K, vlmax, vls + [vl])
    ensures Offset(vls + [vl], |vls| + 1) == Offset(vls, |vls|) + vl
    ensures vls != [] ==> vl <= vls[|vls| - 1]
  {
    var vls' := vls + [vl];
    forall s | 0 <= s < |vls'|
      ensures StripOk(K, vlmax, vls', s)
    {
      OffsetSame(vls, [vl], s);
      if s < |vls| {
        assert StripOk(K, vlmax, vls, s);
      }
    }
    OffsetSame(vls, [vl], |vls|);
    if vls != [] {
      StripIsShorter(K, vlmax, vls', |vls| - 1);
    }
  }

  lemma LaneAppended(a: seq<real>, b: seq<real>, vls: seq<nat>, vl: nat, i: nat)
    requires i < vl && Offset(vls, |vls|) + i < |a| && Offset(vls, |vls|) + i < |b|
    ensures Lane(a, b, vls + [vl], |vls| + 1, i)
         == Lane(a, b, vls, |vls|, i) + a[Offset(vls, |vls|) + i] * b[Offset(vls, |vls|) + i]
  {
    var vls' := vls + [vl];
    LaneSame(a, b, vls, [vl], |vls|, i);
    OffsetSame(vls, [vl], |vls|);
    assert Lane(a, b, vls', |vls| + 1, i) == Lane(a, b, vls', |vls|, i) + Product(a, b, vls', |vls|, i);
  }

  // ---- when the vector result is the dot product

  /** A strip as long as the reduction contributes all of its products. */
  lemma {:induction false} AddStrip(a: seq<real>, b: seq<real>, vls: seq<nat>, s: nat, n: nat)
    requires s < |vls| && n <= vls[s] && Offset(vls, s) + n <= |a| && Offset(vls, s) + n <= |b|
    ensures Lanes(a, b, vls, s + 1, n)
         == Lanes(a, b, vls, s, n) + Dot(a, b, Offset(vls, s) + n) - Dot(a, b, Offset(vls, s))
  {
    if n > 0 {
      AddStrip(a, b, vls, s, n - 1);
      var i := n - 1;
      var k := Offset(vls, s) + i;
      assert Lane(a, b, vls, s + 1, i) == Lane(a, b, vls, s, i) + Product(a, b, vls, s, i);
      assert Product(a, b, vls, s, i) == a[k] * b[k];
      assert Dot(a, b, k + 1) == Dot(a, b, k) + a[k] * b[k];
    }
  }

  lemma {:induction false} LanesOfNothing(a: seq<real>, b: seq<real>, vls: seq<nat>, n: nat)
    ensures Lanes(a, b, vls, 0, n) == 0.0
  {
    if n > 0 {
      LanesOfNothing(a, b, vls, n - 1);
    }
  }

  lemma {:induction false} EqualStripsSum(a: seq<real>, b: seq<real>, vls: seq<nat>, s: nat, n: nat)
    requires s <= |vls| && (forall t :: 0 <= t < |vls| ==> vls[t] == n)
    requires Offset(vls, s) <= |a| && Offset(vls, s) <= |b|
    ensures Lanes(a, b, vls, s, n) == Dot(a, b, Offset(vls, s))
  {
    if s == 0 {
      LanesOfNothing(a, b, vls, n);
    } else {
      EqualStripsSum(a, b, vls, s - 1, n);
      AddStrip(a, b, vls, s - 1, n);
    }
  }

  /** A one that no surviving lane sees: element `n` of a first strip longer than the reduction. */
  lemma {:induction false} UnitIsLost(len: nat, vls: seq<nat>, s: nat, i: nat, n: nat)
    requires s <= |vls| && |vls| > 0 && i < n < vls[0]
    ensures Lane(Unit(len, n), Unit(len, n), vls, s, i) == 0.0
  {
    if s > 0 {
      UnitIsLost(len, vls, s - 1, i, n);
      if s > 1 {
        OffsetMonotone(vls, 1, s - 1);
        assert Offset(vls, 1) == Offset(vls, 0) + vls[0];
      }
    }
  }

  lemma {:induction false} UnitLanesLost(len: nat, vls: seq<nat>, m: nat, n: nat)
    requires |vls| > 0 && m <= n < vls[0]
    ensures Lanes(Unit(len, n), Unit(len, n), vls, |vls|, m) == 0.0
  {
    if m > 0 {
      UnitLanesLost(len, vls, m - 1, n);
      UnitIsLost(len, vls, |vls|, m - 1, n);
    }
  }

  /** For one run: the result is the dot product of every pair of vectors exactly when the last
      strip is as long as the first, because the reduction only sees the last strip's lanes. */
  lemma RunCorrectExactlyWhenLastStripIsFull(K: nat, vlmax: nat, vls: seq<nat>)
    requires K >= 1 && vlmax >= 1 && Strips(K, vlmax, vls)
    ensures (forall a: seq<real>, b: seq<real> :: |a| == K && |b| == K ==> Reduced(a, b, vls) == Dot(a, b, K))
       <==> vls[|vls| - 1] == vls[0]
  {
    var n := vls[|vls| - 1];
    if n == vls[0] {
      forall t | 0 <= t < |vls|
        ensures vls[t] == n
      {
        StripsShrink(K, vlmax, vls, 0, t);
        StripsShrink(K, vlmax, vls, t, |vls| - 1);
      }
      forall a: seq<real>, b: seq<real> | |a| == K && |b| == K
        ensures Reduced(a, b, vls) == Dot(a, b, K)
      {
        EqualStripsSum(a, b, vls, |vls|, n);
      }
    } else {
      StripsShrink(K, vlmax, vls, 0, |vls| - 1);
      var u := Unit(K, n);
      OffsetMonotone(vls, 1, |vls|);
      assert Offset(vls, 1) == Offset(vls, 0) + vls[0];
      UnitLanesLost(K, vls, n, n);
      DotOfUnit(K, n, K);
      assert Reduced(u, u, vls) != Dot(u, u, K);
    }
  }

  lemma MultipleLeft(q: nat, s: nat, m: nat)
    requires m >= 1
    ensures s < q ==> q * m - s * m == m || q * m - s * m >= 2 * m
    ensures s >= q ==> q * m <= s * m
    ensures (s + 1) * m == s * m + m
  {
    if s < q {
      assert q * m - s * m == (q - s) * m;
      if q - s >= 2 {
        assert (q - s) * m >= 2 * m;
      }
    } else {
      assert (s - q) * m >= 0;
    }
  }

  /** Full strips all the way when VLMAX divides K. */
  lemma {:induction false} FullStrips(K: nat, vlmax: nat, q: nat, vls: seq<nat>, s: nat)
    requires vlmax >= 1 && K == q * vlmax && Strips(K, vlmax, vls) && s < |vls|
    ensures Offset(vls, s) == s * vlmax && vls[s] == vlmax
  {
    if s > 0 {
      FullStrips(K, vlmax, q, vls, s - 1);
    }
    assert StripOk(K, vlmax, vls, s);
    MultipleLeft(q, s, vlmax);
  }

  /** The strips of a core that always takes as many elements as it can. */
  function Greedy(q: nat, vlmax: nat, rest: nat): seq<nat> {
    seq(q + 1, s => if s < q then vlmax else rest)
  }

  lemma {:induction false} GreedyOffset(q: nat, vlmax: nat, rest: nat, s: nat)
    requires s <= q && vlmax >= 1
    ensures Offset(Greedy(q, vlmax, rest), s) == s * vlmax
  {
    if s > 0 {
      GreedyOffset(q, vlmax, rest, s - 1);
      MultipleLeft(q, s - 1, vlmax);
    }
  }

  lemma GreedyIsAllowed(q: nat, vlmax: nat, rest: nat)
    requires 0 < rest < vlmax
    ensures Strips(q * vlmax + rest, vlmax, Greedy(q, vlmax, rest))
  {
    var K, vls := q * vlmax + rest, Greedy(q, vlmax, rest);
    forall s | 0 <= s < |vls|
      ensures StripOk(K, vlmax, vls, s)
    {
      GreedyOffset(q, vlmax, rest, s);
      MultipleLeft(q, s, vlmax);
    }
    GreedyOffset(q, vlmax, rest, q);
  }

  /** The vector loop is right for every input and every vector length the specification allows
      exactly when one strip suffices or VLMAX divides K. */
  lemma RvvExactlyWhenOneStripOrDivisible(K: nat, vlmax: nat)
    requires K >= 1 && vlmax >= 1
    ensures (forall vls: seq<nat>, a: seq<real>, b: seq<real> ::
               Strips(K, vlmax, vls) && |a| == K && |b| == K ==> Reduced(a, b, vls) == Dot(a, b, K))
       <==> K <= vlmax || K % vlmax == 0
  {
    if K <= vlmax || K % vlmax == 0 {
      forall vls: seq<nat>, a: seq<real>, b: seq<real> | Strips(K, vlmax, vls) && |a| == K && |b| == K
        ensures Reduced(a, b, vls) == Dot(a, b, K)
      {
        RvvCorrect(a, b, K, vlmax, vls);
      }
    } else {
      var q, rest := K / vlmax, K % vlmax;
      GreedyIsAllowed(q, vlmax, rest);
      var vls := Greedy(q, vlmax, rest);
      assert Strips(K, vlmax, vls);
      assert q >= 1;
      RunCorrectExactlyWhenLastStripIsFull(K, vlmax, vls);
    }
  }

  lemma Quotient(K: nat, m: nat) returns (q: nat)
    requires m >= 1 && K % m == 0
    ensures K == q * m
  {
    q := K / m;
  }

  lemma RvvCorrect(a: seq<real>, b: seq<real>, K: nat, vlmax: nat, vls: seq<nat>)
    requires K >= 1 && vlmax >= 1 && (K <= vlmax || K % vlmax == 0)
    requires Strips(K, vlmax, vls) && |a| == K && |b| == K
    ensures Reduced(a, b, vls) == Dot(a, b, K)
  {
    if K <= vlmax {
      assert StripOk(K, vlmax, vls, 0);
      if |vls| > 1 {
        assert StripOk(K, vlmax, vls, |vls| - 1);
        assert Offset(vls, 1) == Offset(vls, 0) + vls[0];
        OffsetMonotone(vls, 1, |vls| - 1);
      }
    } else {
      var q := Quotient(K, vlmax);
      FullStrips(K, vlmax, q, vls, 0);
      FullStrips(K, vlmax, q, vls, |vls| - 1);
    }
    RunCorrectExactlyWhenLastStripIsFull(K, vlmax, vls);
  }

  /** Every index below K belongs to exactly one strip. */
  lemma StripsPartition(K: nat, vlmax: nat, vls: seq<nat>, k: nat)
    requires vlmax >= 1 && Strips(K, vlmax, vls) && k < K
    ensures exists s :: 0 <= s < |vls| && Offset(vls, s) <= k < Offset(vls, s) + vls[s]
    ensures forall s, t :: 0 <= s < t < |vls| && Offset(vls, s) <= k < Offset(vls, s) + vls[s] ==>
              !(Offset(vls, t) <= k)
  {
    var s := |vls|;
    while Offset(vls, s) > k
      invariant 0 <= s <= |vls| && (s < |vls| ==> k < Offset(vls, s + 1))
      decreases s
    {
      s := s - 1;
    }
    assert Offset(vls, s + 1) == Offset(vls, s) + vls[s];
    forall s, t | 0 <= s < t < |vls| && Offset(vls, s) <= k < Offset(vls, s) + vls[s]
      ensures !(Offset(vls, t) <= k)
    {
      OffsetMonotone(vls, s + 1, t);
    }
  }
}
