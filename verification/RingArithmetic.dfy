/**
 The counter arithmetic of the circular buffer pool: 32-bit counters, a mask, and the size
 computed from them.
 */
module RingArithmetic {

  const TWO32: nat := 0x1_0000_0000

  function Pow2(k: nat): (p: nat)
    ensures p > 0
  {
    if k == 0 then 1 else 2 * Pow2(k - 1)
  }

  /** The bitwise "and" of two unsigned numbers. */
  function BitAnd(a: nat, b: nat): nat {
    if a == 0 || b == 0 then 0
    else (a % 2) * (b % 2) + 2 * BitAnd(a / 2, b / 2)
  }

  /** GET_BUFFER_POOL_INDEX: the counter masked with N - 1. */
  function Index(a: nat, n: nat): nat
    requires n > 0
  {
    BitAnd(a, n - 1)
  }

  lemma AndStep(a: nat, h: nat)
    requires a > 0 && h > 0
    ensures BitAnd(a, 2 * h - 1) == a % 2 + 2 * BitAnd(a / 2, h - 1)
  {
    assert (2 * h - 1) % 2 == 1 && (2 * h - 1) / 2 == h - 1;
  }

  lemma {:induction false} MaskIsMod(a: nat, k: nat)
    ensures Index(a, Pow2(k)) == a % Pow2(k)
  {
    if a == 0 {
      ModUnique(0, Pow2(k), 0, 0);
    } else if k > 0 {
      AndStep(a, Pow2(k - 1));
      MaskIsMod(a / 2, k - 1);
      HalfMod(a, Pow2(k - 1));
    }
  }

  lemma HalfMod(a: nat, h: nat)
    requires h > 0
    ensures a % (2 * h) == a % 2 + 2 * ((a / 2) % h)
  {
    var q, r := (a / 2) / h, (a / 2) % h;
    assert a == (2 * h) * q + (2 * r + a % 2);
    ModUnique(a, 2 * h, q, 2 * r + a % 2);
  }

  /** The remainder is the only number below n that differs from a by a multiple of n. */
  lemma ModUnique(a: int, n: nat, q: int, r: int)
    requires 0 <= r < n && a == n * q + r
    ensures a % n == r
  {
    var q', r' := a / n, a % n;
    assert a == n * q' + r';
    assert n * (q - q') == r' - r;
    if q > q' {
      MulGe(n, q - q');
    } else if q < q' {
      assert n * (q' - q) == r - r';
      MulGe(n, q' - q);
    }
  }

  lemma MulGe(n: nat, d: int)
    requires d >= 1
    ensures n * d >= n
  {
    assert n * d == n * (d - 1) + n;
  }

  lemma {:induction false} Pow2Divides(k: nat, j: nat)
    requires k <= j
    ensures Pow2(j) == Pow2(k) * Pow2(j - k)
    decreases j
  {
    if k < j {
      Pow2Divides(k, j - 1);
      assert Pow2(j) == 2 * (Pow2(k) * Pow2(j - 1 - k)) == Pow2(k) * (2 * Pow2(j - 1 - k));
    }
  }

  lemma Pow2Of32()
    ensures Pow2(32) == TWO32
  {
    assert Pow2(4) == 16;
    assert Pow2(8) == 256;
    assert Pow2(12) == 0x1000;
    assert Pow2(16) == 0x1_0000;
    assert Pow2(20) == 0x10_0000;
    assert Pow2(24) == 0x100_0000;
    assert Pow2(28) == 0x1000_0000;
  }

  /** Wrapping at 2^32 does not disturb the ring index. */
  lemma WrapKeepsIndex(t: nat, k: nat)
    requires k <= 32
    ensures Index(t % TWO32, Pow2(k)) == t % Pow2(k)
  {
    MaskIsMod(t % TWO32, k);
    Pow2Of32();
    Pow2Divides(k, 32);
    ModOfMod(t, Pow2(k), Pow2(32 - k));
  }

  lemma WrapSucc(t: nat)
    ensures (t % TWO32 + 1) % TWO32 == (t + 1) % TWO32
  {
  }

  lemma ModOfMod(t: nat, n: nat, m: nat)
    requires n > 0 && n * m > 0
    ensures (t % (n * m)) % n == t % n
  {
    var nm := n * m;
    var q, r := (t % nm) / n, (t % nm) % n;
    var p := t / nm;
    assert t == nm * p + (n * q + r);
    MulAssoc(n, m, p);
    assert n * (m * p + q) == n * (m * p) + n * q;
    ModUnique(t, n, m * p + q, r);
  }

  lemma MulAssoc(a: int, b: int, c: int)
    ensures a * b * c == a * (b * c)
  {
  }

  /** Tickets less than n apart have different ring indices. */
  lemma IndexInjective(u: nat, v: nat, n: nat)
    requires 0 < n && u < v < u + n
    ensures u % n != v % n
  {
    if u % n == v % n {
      assert v - u == n * (v / n - u / n);
      if v / n - u / n >= 1 {
        MulGe(n, v / n - u / n);
      } else if v / n - u / n <= -1 {
        MulGe(n, u / n - v / n);
      }
    }
  }

  // ------------------------------------------------------------- GetSize

  /** An unsigned difference that wraps. */
  function WrapSub(a: nat, b: nat): nat
    requires a < TWO32 && b < TWO32
  {
    (a - b) % TWO32
  }

  /** The conversion of an unsigned number to a signed one. */
  function ToInt32(a: nat): int
    requires a < TWO32
  {
    if a < 0x8000_0000 then a else a - TWO32
  }

  /** C++ remainder: the sign of the dividend. */
  function Rem(a: int, b: nat): int
    requires b > 0
  {
    if a >= 0 then a % b else -((-a) % b)
  }

  lemma {:induction false} BitAndBelow(a: nat, b: nat)
    ensures BitAnd(a, b) <= b
  {
    if a > 0 && b > 0 {
      BitAndBelow(a / 2, b / 2);
    }
  }

  /** The signed difference of the two masked counters. */
  function MaskedDifference(head: nat, tail: nat, n: nat): int
    requires head < TWO32 && tail < TWO32 && 0 < n <= TWO32
  {
    BitAndBelow(head, n - 1);
    BitAndBelow(tail, n - 1);
    ToInt32(WrapSub(Index(head, n), Index(tail, n)))
  }

  /** GetSize, for a pool size n that is one value. */
  function GetSize(head: nat, tail: nat, n: nat): int
    requires head < TWO32 && tail < TWO32 && 0 < n <= TWO32
  {
    var size := MaskedDifference(head, tail, n);
    if size == 0 && WrapSub(head, tail) > 0 then n else Rem(size + n, n)
  }

  lemma Pow2Small(k: nat)
    requires k <= 30
    ensures Pow2(k) <= 0x4000_0000
  {
    assert Pow2(32) == 4 * Pow2(30);
    Pow2Of32();
    Pow2Divides(k, 30);
    MulGe(Pow2(k), Pow2(30 - k));
  }

  lemma SignedDifference(a: nat, b: nat)
    requires a < 0x4000_0000 && b < 0x4000_0000
    ensures ToInt32(WrapSub(a, b)) == a - b
  {
  }

  lemma MaskedDifferenceIs(h: nat, t: nat, k: nat)
    requires k <= 30
    ensures Pow2(k) <= 0x4000_0000
    ensures MaskedDifference(h % TWO32, t % TWO32, Pow2(k)) == h % Pow2(k) - t % Pow2(k)
  {
    Pow2Small(k);
    WrapKeepsIndex(h, k);
    WrapKeepsIndex(t, k);
    SignedDifference(h % Pow2(k), t % Pow2(k));
  }

  /** How two residues and the distance between the numbers are related. */
  lemma ResidueDistance(h: nat, t: nat, n: nat)
    requires 0 < n && t <= h <= t + n
    ensures h % n - t % n == (if h - t == n then 0
                              else if t % n + (h - t) < n then h - t else h - t - n)
  {
    var d, r, q := h - t, t % n, t / n;
    assert h == n * q + (r + d);
    if d == n {
      assert h == n * (q + 1) + r;
      ModUnique(h, n, q + 1, r);
    } else if r + d < n {
      ModUnique(h, n, q, r + d);
    } else {
      assert h == n * (q + 1) + (r + d - n);
      ModUnique(h, n, q + 1, r + d - n);
    }
  }

  lemma WrapSubIs(h: nat, t: nat)
    requires t <= h < t + TWO32
    ensures WrapSub(h % TWO32, t % TWO32) == h - t
  {
    var a, b := h % TWO32, t % TWO32;
    assert a - b == (h - t) + TWO32 * (t / TWO32 - h / TWO32);
    assert (h - t) == TWO32 * (h / TWO32 - t / TWO32) + (a - b);
    var q := h / TWO32 - t / TWO32;
    assert a - b == TWO32 * (-q) + (h - t);
    ModUnique(a - b, TWO32, -q, h - t);
  }

  /** GetSize is exact: for all true counters at most n apart, whatever has wrapped. */
  lemma GetSizeExact(h: nat, t: nat, k: nat)
    requires k <= 30 && t <= h <= t + Pow2(k)
    ensures Pow2(k) <= TWO32 && GetSize(h % TWO32, t % TWO32, Pow2(k)) == h - t
  {
    MaskedDifferenceIs(h, t, k);
    ResidueDistance(h, t, Pow2(k));
    WrapSubIs(h, t);
    var n, d := Pow2(k), h - t;
    if d < n {
      RemAgain(d, n);
    }
  }

  /** What GetSize returns for any two counters, also when tail was read later than head or is
      ahead of it: their difference in the ring, and n for different counters with the same index. */
  lemma GetSizeIs(h: nat, t: nat, k: nat)
    requires k <= 30
    ensures Pow2(k) <= TWO32
    ensures GetSize(h % TWO32, t % TWO32, Pow2(k))
         == if (h - t) % Pow2(k) != 0 then (h - t) % Pow2(k)
            else if h % TWO32 == t % TWO32 then 0 else Pow2(k)
  {
    MaskedDifferenceIs(h, t, k);
    DifferenceMod(h, t, Pow2(k));
    SizeOf(h % TWO32, t % TWO32, Pow2(k), h % Pow2(k) - t % Pow2(k));
  }

  lemma SizeOf(head: nat, tail: nat, n: nat, d: int)
    requires head < TWO32 && tail < TWO32 && 0 < n <= TWO32
    requires MaskedDifference(head, tail, n) == d && 0 < d + n && d < n
    ensures GetSize(head, tail, n)
         == if d > 0 then d else if d < 0 then d + n else if head == tail then 0 else n
  {
    WrapSubZero(head, tail);
    RemAgain(if d < 0 then d + n else d, n);
  }

  lemma WrapSubZero(a: nat, b: nat)
    requires a < TWO32 && b < TWO32
    ensures WrapSub(a, b) == 0 <==> a == b
  {
  }

  lemma DifferenceMod(h: nat, t: nat, n: nat)
    requires n > 0
    ensures (h - t) % n == if h % n >= t % n then h % n - t % n else h % n - t % n + n
  {
    var d, q := h % n - t % n, h / n - t / n;
    assert h - t == n * (h / n) - n * (t / n) + d == n * q + d;
    if d >= 0 {
      ModUnique(h - t, n, q, d);
    } else {
      assert n * q + d == n * (q - 1) + (d + n);
      ModUnique(h - t, n, q - 1, d + n);
    }
  }

  /** Head and tail are read one after the other. tail0 is the tail when head is read, tail the one
      that is read: the difference comes out exactly when no Get has overtaken that head. */
  lemma GetSizeTwoLoads(head: nat, tail0: nat, tail: nat, k: nat)
    requires k <= 30 && head <= tail0 + Pow2(k) && tail0 <= tail
    ensures Pow2(k) <= TWO32
    ensures GetSize(head % TWO32, tail % TWO32, Pow2(k)) == head - tail <==> tail <= head
  {
    GetSizeIs(head, tail, k);
    if tail <= head {
      GetSizeExact(head, tail, k);
    }
  }

  /** A Get that waits on an empty pool has drawn its ticket: the size is then one less than that of
      a full pool. */
  lemma GetSizeWhileWaiting(head: nat, k: nat)
    requires 0 < k <= 30
    ensures Pow2(k) <= TWO32 && GetSize(head % TWO32, (head + 1) % TWO32, Pow2(k)) == Pow2(k) - 1
  {
    GetSizeIs(head, head + 1, k);
    ModUnique(-1, Pow2(k), -1, Pow2(k) - 1);
  }

  lemma RemAgain(d: nat, n: nat)
    requires d < n
    ensures Rem(d, n) == d && Rem(d + n, n) == d
  {
    ModUnique(d, n, 0, d);
    ModUnique(d + n, n, 1, d);
  }

  /** GetSize where BUFFER_POOL_SIZE is the text "1024 * 8": the last line divides by 1024 and
      multiplies by 8. */
  function GetSizeUnparenthesised(head: nat, tail: nat): int
    requires head < TWO32 && tail < TWO32
  {
    var size := MaskedDifference(head, tail, 8192);
    if size == 0 && WrapSub(head, tail) > 0 then 1024 * 8
    else Rem(size + 1024 * 8, 1024) * 8
  }

  /** That variant is right exactly when the pool is empty or full. */
  lemma GetSizeUnparenthesisedExact(h: nat, t: nat)
    requires t <= h <= t + 8192
    ensures GetSizeUnparenthesised(h % TWO32, t % TWO32) == h - t <==> h == t || h == t + 8192
  {
    assert Pow2(13) == 8192 by {
      assert Pow2(5) == 32;
      assert Pow2(9) == 512;
    }
    MaskedDifferenceIs(h, t, 13);
    ResidueDistance(h, t, 8192);
    WrapSubIs(h, t);
    var d := h - t;
    SplitAt1024(d);
    SplitAt1024(d + 8192);
  }

  /** What it returns: 8192 for a full pool, and otherwise eight times the remainder by 1024. */
  lemma GetSizeUnparenthesisedIs(h: nat, t: nat)
    requires t <= h <= t + 8192
    ensures GetSizeUnparenthesised(h % TWO32, t % TWO32)
         == if h == t + 8192 then 8192 else (h - t) % 1024 * 8
  {
    assert Pow2(13) == 8192 by {
      assert Pow2(5) == 32;
      assert Pow2(9) == 512;
    }
    MaskedDifferenceIs(h, t, 13);
    ResidueDistance(h, t, 8192);
    WrapSubIs(h, t);
    SplitAt1024(h - t);
    SplitAt1024(h - t + 8192);
  }

  /** Dividing by 1024 and multiplying by 8 gives a distance below 8192 back only when it is 0. */
  lemma SplitAt1024(d: nat)
    ensures d < 8192 ==> (Rem(d, 1024) * 8 == d <==> d == 0)
    ensures d >= 8192 ==> Rem(d, 1024) == Rem(d - 8192, 1024)
  {
  }
}
