/** Bytes, powers of two and little-endian words in a flat byte memory.

    A `Memory` is the byte-addressed memory that host and accelerator share.  A word access
    walks `n` consecutive addresses of an address space: 64 bits wide for a host pointer,
    32 bits wide for a device pointer. */
module Words {
  type byte = x: int | 0 <= x < 256

  const TWO32: nat := 0x1_0000_0000
  const TWO64: nat := 0x1_0000_0000_0000_0000

  // ---- powers of two and truncation

  function Pow256(n: nat): (p: nat)
    ensures p >= 1
  {
    if n == 0 then 1 else 256 * Pow256(n - 1)
  }

  /** The low `bits` bits of `v`: truncation when `v` is wider, zero extension otherwise. */
  function Mask(v: nat, bits: nat): (r: nat)
    ensures r < Pow2(bits)
    ensures v < Pow2(bits) ==> r == v
  {
    ModRange(v, Pow2(bits));
    v % Pow2(bits)
  }

  lemma ModRange(v: nat, m: nat)
    requires m >= 1
    ensures v % m < m
    ensures v < m ==> v % m == v
  {
  }

  /** 2^n, as whole bytes and the bits left over. */
  function Pow2(n: nat): (p: nat)
    ensures p >= 1
  {
    Pow256(n / 8) * Bit(n % 8)
  }

  function Bit(k: nat): (p: nat)
    requires k < 8
    ensures p >= 1
  {
    match k
    case 0 => 1
    case 1 => 2
    case 2 => 4
    case 3 => 8
    case 4 => 16
    case 5 => 32
    case 6 => 64
    case _ => 128
  }

  /** `Pow2` doubles at every step. */
  lemma Pow2Doubles(n: nat)
    ensures Pow2(0) == 1 && Pow2(n + 1) == 2 * Pow2(n)
  {
    var p, k := Pow256(n / 8), n % 8;
    if k < 7 {
      assert (n + 1) / 8 == n / 8 && (n + 1) % 8 == k + 1;
      assert Bit(k + 1) == 2 * Bit(k);
      MulAssoc(2, Bit(k), p);
    } else {
      assert (n + 1) / 8 == n / 8 + 1 && (n + 1) % 8 == 0;
      assert Pow256(n / 8 + 1) == 256 * p;
    }
  }

  lemma PowersAgree(n: nat)
    ensures Pow2(8 * n) == Pow256(n)
  {
    var m := 8 * n;
    assert m / 8 == n && m % 8 == 0;
  }

  lemma PowerTable()
    ensures Pow256(1) == 0x100 && Pow256(2) == 0x1_0000 && Pow256(4) == TWO32 && Pow256(8) == TWO64
    ensures Pow2(8) == 0x100 && Pow2(16) == 0x1_0000 && Pow2(32) == TWO32 && Pow2(64) == TWO64
  {
    assert Pow256(2) == 256 * Pow256(1);
    assert Pow256(3) == 256 * Pow256(2);
    assert Pow256(4) == 256 * Pow256(3);
    assert Pow256(5) == 256 * Pow256(4);
    assert Pow256(6) == 256 * Pow256(5);
    assert Pow256(7) == 256 * Pow256(6);
    PowersAgree(1);
    PowersAgree(2);
    PowersAgree(4);
    PowersAgree(8);
  }

  // ---- memory

  type Memory = map<nat, byte>

  datatype Space = Space64 | Space32

  function Wrap(a: nat, s: Space): nat {
    match s
    case Space64 => a % 0x1_0000_0000_0000_0000
    case Space32 => a % 0x1_0000_0000
  }

  function Limit(s: Space): nat {
    match s
    case Space64 => 0x1_0000_0000_0000_0000
    case Space32 => 0x1_0000_0000
  }

  /** Memory that was never written reads as zero. */
  function ByteAt(m: Memory, a: nat): byte {
    if a in m then m[a] else 0
  }

  function Load(m: Memory, a: nat, n: nat, s: Space): nat
    decreases n, a
  {
    if n == 0 then 0 else ByteAt(m, Wrap(a, s)) + 256 * Load(m, a + 1, n - 1, s)
  }

  function Store(m: Memory, a: nat, n: nat, v: nat, s: Space): Memory
    decreases n, a
  {
    if n == 0 then m else Store(m[Wrap(a, s) := v % 256], a + 1, n - 1, v / 256, s)
  }

  lemma {:induction false} LoadBound(m: Memory, a: nat, n: nat, s: Space)
    ensures Load(m, a, n, s) < Pow256(n)
    decreases n
  {
    if n > 0 {
      LoadBound(m, a + 1, n - 1, s);
    }
  }

  /** Below 2^32 a host pointer and a device pointer reach the same bytes. */
  lemma {:induction false} LoadNoWrap(m: Memory, a: nat, n: nat)
    requires a + n <= TWO32
    ensures Load(m, a, n, Space32) == Load(m, a, n, Space64)
    decreases n
  {
    if n > 0 {
      LoadNoWrap(m, a + 1, n - 1);
    }
  }

  lemma {:induction false} StoreNoWrap(m: Memory, a: nat, n: nat, v: nat)
    requires a + n <= TWO32
    ensures Store(m, a, n, v, Space32) == Store(m, a, n, v, Space64)
    decreases n
  {
    if n > 0 {
      StoreNoWrap(m[a := v % 256], a + 1, n - 1, v / 256);
    }
  }

  /** A word is its low `i` bytes and its high `j` bytes. */
  lemma {:induction false} LoadSplit(m: Memory, a: nat, i: nat, j: nat, s: Space)
    ensures Load(m, a, i + j, s) == Load(m, a, i, s) + Pow256(i) * Load(m, a + i, j, s)
    decreases i
  {
    if i > 0 {
      LoadSplit(m, a + 1, i - 1, j, s);
      assert a + 1 + (i - 1) == a + i;
      MulAssoc(256, Pow256(i - 1), Load(m, a + i, j, s));
    }
  }

  /** A 64-bit word is two 32-bit words. */
  lemma LoadHalves(m: Memory, a: nat, s: Space)
    ensures Load(m, a, 8, s) == Load(m, a, 4, s) + 0x1_0000_0000 * Load(m, a + 4, 4, s)
  {
    var lo, hi := Load(m, a, 4, s), Load(m, a + 4, 4, s);
    var p := Pow256(4);
    assert Load(m, a, 4 + 4, s) == lo + p * hi by {
      LoadSplit(m, a, 4, 4, s);
    }
    assert p == 0x1_0000_0000 by {
      PowerTable();
    }
  }

  lemma LoadBound32(m: Memory, a: nat, s: Space)
    ensures Load(m, a, 4, s) < 0x1_0000_0000
  {
    LoadBound(m, a, 4, s);
    PowerTable();
  }

  /** The low `n` bytes of `v`. */
  function LowPart(v: nat, n: nat): nat
    decreases n, v
  {
    if n == 0 then 0 else v % 256 + 256 * LowPart(v / 256, n - 1)
  }

  lemma {:induction false} LowPartIsRemainder(v: nat, n: nat)
    ensures LowPart(v, n) == v % Pow256(n)
    decreases n
  {
    if n > 0 {
      LowPartIsRemainder(v / 256, n - 1);
      ModSplit(v, Pow256(n - 1));
    }
  }

  lemma LowPart32(v: nat)
    ensures LowPart(v, 4) == v % 0x1_0000_0000
  {
    var p := Pow256(4);
    assert p == 0x1_0000_0000 by {
      PowerTable();
    }
    assert LowPart(v, 4) == v % p by {
      LowPartIsRemainder(v, 4);
    }
  }

  /** `v` without its low `i` bytes. */
  function HighPart(v: nat, i: nat): nat
    decreases i, v
  {
    if i == 0 then v else HighPart(v / 256, i - 1)
  }

  lemma {:induction false} HighPartIsQuotient(v: nat, i: nat)
    ensures HighPart(v, i) == v / Pow256(i)
    decreases i
  {
    if i > 0 {
      HighPartIsQuotient(v / 256, i - 1);
      DivDiv(v, 256, Pow256(i - 1));
    }
  }

  lemma {:induction false} StoreSplit(m: Memory, a: nat, i: nat, j: nat, v: nat, s: Space)
    ensures Store(m, a, i + j, v, s) == Store(Store(m, a, i, v, s), a + i, j, HighPart(v, i), s)
    decreases i
  {
    if i > 0 {
      StoreSplit(m[Wrap(a, s) := v % 256], a + 1, i - 1, j, v / 256, s);
      assert a + 1 + (i - 1) == a + i;
    }
  }

  /** Only the low `n` bytes of the stored value matter. */
  lemma {:induction false} StoreLowBytes(m: Memory, a: nat, n: nat, v: nat, w: nat, s: Space)
    requires LowPart(v, n) == LowPart(w, n)
    ensures Store(m, a, n, v, s) == Store(m, a, n, w, s)
    decreases n
  {
    if n > 0 {
      StoreLowBytes(m[Wrap(a, s) := v % 256], a + 1, n - 1, v / 256, w / 256, s);
    }
  }

  lemma {:induction false} StoreFrame(m: Memory, a: nat, n: nat, v: nat, s: Space, b: nat)
    requires a + n <= Limit(s) && (b < a || a + n <= b)
    ensures ByteAt(Store(m, a, n, v, s), b) == ByteAt(m, b)
    decreases n
  {
    if n > 0 {
      StoreFrame(m[a := v % 256], a + 1, n - 1, v / 256, s, b);
    }
  }

  lemma {:induction false} LoadFrame(m: Memory, m': Memory, a: nat, n: nat, s: Space)
    requires a + n <= Limit(s)
    requires forall b :: a <= b < a + n ==> ByteAt(m, b) == ByteAt(m', b)
    ensures Load(m, a, n, s) == Load(m', a, n, s)
    decreases n
  {
    if n > 0 {
      LoadFrame(m, m', a + 1, n - 1, s);
    }
  }

  /** Store-then-load returns the low `n` bytes of the stored value. */
  lemma {:induction false} LoadStore(m: Memory, a: nat, n: nat, v: nat, s: Space)
    requires a + n <= Limit(s)
    ensures Load(Store(m, a, n, v, s), a, n, s) == LowPart(v, n)
    decreases n
  {
    if n > 0 {
      var m1 := m[a := v % 256];
      LoadStore(m1, a + 1, n - 1, v / 256, s);
      StoreFrame(m1, a + 1, n - 1, v / 256, s, a);
    }
  }

  /** Reading fewer bytes of a word truncates it: words are little-endian. */
  lemma LoadTruncates(m: Memory, a: nat, n: nat, k: nat, s: Space)
    ensures Load(m, a, n + k, s) % Pow256(n) == Load(m, a, n, s)
  {
    LoadSplit(m, a, n, k, s);
    LoadBound(m, a, n, s);
    ModCancel(Load(m, a, n, s), Load(m, a + n, k, s), Pow256(n));
  }

  /** A memory holding one non-zero byte, at `key`. */
  lemma {:induction false} LoadMissing(key: nat, a: nat, n: nat, s: Space)
    requires key >= Limit(s)
    ensures Load(map[key := 1], a, n, s) == 0
    decreases n
  {
    if n > 0 {
      LoadMissing(key, a + 1, n - 1, s);
    }
  }

  lemma {:induction false} LoadHitting(key: nat, a: nat, n: nat, s: Space)
    requires a <= key < a + n && key < Limit(s)
    ensures Load(map[key := 1], a, n, s) != 0
    decreases n
  {
    if a < key {
      LoadHitting(key, a + 1, n - 1, s);
    }
  }

  // ---- arithmetic used above

  lemma MulAssoc(a: nat, b: nat, c: nat)
    ensures a * (b * c) == (a * b) * c
  {
  }

  lemma Distribute(a: nat, b: int, c: int)
    ensures a * (b + c) == a * b + a * c
  {
  }

  lemma MulMono(a: nat, b: int, c: int)
    requires b <= c
    ensures a * b <= a * c
  {
  }

  lemma DivUnique(v: nat, m: nat, q: nat, r: nat)
    requires m >= 1 && v == m * q + r && r < m
    ensures v / m == q && v % m == r
  {
    var p := v / m;
    assert v == m * p + v % m;
    if p > q {
      MulMono(m, q + 1, p);
      Distribute(m, q, 1);
    }
    if p < q {
      MulMono(m, p + 1, q);
      Distribute(m, p, 1);
    }
  }

  lemma DivDiv(v: nat, a: nat, b: nat)
    requires a >= 1 && b >= 1
    ensures a * b >= 1 && v / a / b == v / (a * b)
  {
    var q, r := v / a, v % a;
    var q', r' := q / b, q % b;
    assert v == a * (b * q' + r') + r;
    assert v == (a * b) * q' + (a * r' + r) by {
      MulAssoc(a, b, q');
      Distribute(a, b * q', r');
    }
    assert a * r' + r < a * b by {
      MulMono(a, r' + 1, b);
      Distribute(a, r', 1);
    }
    MulMono(a, 1, b);
    DivUnique(v, a * b, q', a * r' + r);
  }

  lemma ModCancel(r: nat, q: nat, m: nat)
    requires m >= 1 && r < m
    ensures (r + m * q) % m == r
  {
    DivUnique(r + m * q, m, q, r);
  }

  /** v mod 256p has low byte v mod 256 and the rest (v/256) mod p. */
  lemma ModSplit(v: nat, p: nat)
    requires p >= 1
    ensures v % (256 * p) == v % 256 + 256 * (v / 256 % p)
    ensures v % (256 * p) % 256 == v % 256 && v % (256 * p) / 256 == v / 256 % p
  {
    var h := v / 256;
    var q, r := h / p, h % p;
    MulAssoc(256, p, q);
    Distribute(256, p * q, r);
    DivUnique(v, 256 * p, q, v % 256 + 256 * r);
  }
}
