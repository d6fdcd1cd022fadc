// Rounding sizes up to whole pages, as the three places that do it compute it: with bit masks,
// in machine words of different widths.
module Pages {
  function Pow2(k: nat): (r: nat)
    ensures 1 <= r
  {
    if k == 0 then 1 else 2 * Pow2(k - 1)
  }

  /** Bitwise conjunction. */
  function And(x: nat, y: nat): (r: nat)
    ensures r <= x
  {
    if x == 0 || y == 0 then 0
    else 2 * And(x / 2, y / 2) + (if x % 2 == 1 && y % 2 == 1 then 1 else 0)
  }

  const WORD32: nat := 32
  const WORD64: nat := 64

  /** `(size + (pageSize - 1)) & ~(pageSize - 1)` in words of `width` bits, for a page of 2^k. */
  function RoundUpWord(size: nat, k: nat, width: nat): nat
    requires k <= width
  {
    Pow2Monotone(k, width);
    And((size + (Pow2(k) - 1)) % Pow2(width), Pow2(width) - Pow2(k))
  }

  /** Environment::roundUpToPageMultiple: parameter, sum and result are 32-bit. */
  function EnvironmentRoundUp(size: nat, k: nat): nat
    requires k <= WORD32
  {
    RoundUpWord(size % Pow2(WORD32), k, WORD32)
  }

  /** The mmap wrapper's roundUpToPageMultiple: 64-bit arithmetic, result cut to 32 bits. */
  function WrapperRoundUp(size: nat, k: nat): nat
    requires k <= WORD64
  {
    RoundUpWord(size, k, WORD64) % Pow2(WORD32)
  }

  /** The log analyser's round_up_page on unbounded integers, where `x & ~m` is `x - (x & m)`. */
  function PythonRoundUp(size: nat): nat {
    (size + (4096 - 1)) - And(size + (4096 - 1), 4096 - 1)
  }

  const PAGE_BITS: nat := 12

  ghost predicate Multiple(m: int, page: int) {
    exists q: int :: m == q * page
  }

  /** `r` is the least multiple of the page that is at least `size`. */
  ghost predicate LeastMultiple(r: int, size: int, page: int) {
    Multiple(r, page) && size <= r < size + page
  }

  // --- Facts about powers and masks -----------------------------------------

  lemma {:induction false} Pow2Monotone(k: nat, w: nat)
    requires k <= w
    ensures Pow2(k) <= Pow2(w)
    decreases w
  {
    if k < w {
      Pow2Monotone(k, w - 1);
    }
  }

  lemma MulLe(a: int, b: int, m: int)
    requires a <= b && 0 <= m
    ensures a * m <= b * m && m * a <= m * b
  {
    assert (b - a) * m >= 0;
  }

  lemma ModUnique(x: int, m: int, q: int, r: int)
    requires x == m * q + r && 0 <= r < m
    ensures x % m == r && x / m == q
  {
    var d := x / m;
    assert m * d + x % m == x;
    if q < d {
      MulLe(q + 1, d, m);
      assert false;
    } else if d < q {
      MulLe(d + 1, q, m);
      assert false;
    }
  }

  lemma ModHalf(x: nat, q: nat)
    requires 0 < q
    ensures x % (2 * q) == 2 * ((x / 2) % q) + x % 2
  {
    var h := x / 2;
    var d, r := h / q, h % q;
    assert h == q * d + r;
    assert x == 2 * h + x % 2;
    assert 2 * (q * d) == (2 * q) * d;
    ModUnique(x, 2 * q, d, 2 * r + x % 2);
  }

  lemma {:induction false} LowMask(x: nat, k: nat)
    ensures And(x, Pow2(k) - 1) == x % Pow2(k)
    decreases k
  {
    hide And, Pow2;
    if k == 0 {
      Pow2Zero();
      NoMask(x);
    } else {
      Pow2Double(k);
      LowMask(x / 2, k - 1);
      LowMaskStep(x, Pow2(k - 1));
    }
  }

  lemma NoMask(x: nat)
    ensures And(x, 0) == 0
  {
  }

  lemma LowMaskStep(x: nat, q: nat)
    requires 0 < q && And(x / 2, q - 1) == (x / 2) % q
    ensures And(x, 2 * q - 1) == x % (2 * q)
  {
    ModHalf(x, q);
    assert (2 * q - 1) / 2 == q - 1;
  }

  lemma {:induction false} AndEven(x: nat, h: nat)
    ensures And(x, 2 * h) == 2 * And(x / 2, h)
  {
  }

  lemma Pow2Double(k: nat)
    requires 0 < k
    ensures Pow2(k) == 2 * Pow2(k - 1)
  {
  }

  /** One bit further up: the mask and the remainder both double. */
  lemma HighMaskStep(x: nat, a: nat, b: nat)
    requires 0 < a <= b
    requires And(x / 2, b - a) == x / 2 - (x / 2) % a
    ensures And(x, 2 * b - 2 * a) == x - x % (2 * a)
  {
    hide And;
    AndEven(x, b - a);
    ModHalf(x, a);
  }

  /** The mask of the high bits clears exactly the low ones. */
  lemma {:induction false} HighMask(x: nat, k: nat, w: nat)
    requires k <= w && x < Pow2(w)
    ensures Pow2(k) <= Pow2(w)
    ensures And(x, Pow2(w) - Pow2(k)) == x - x % Pow2(k)
    decreases w
  {
    hide And, Pow2;
    Pow2Monotone(k, w);
    if k == 0 {
      Pow2Zero();
      FullMask(x, w);
    } else {
      Pow2Double(k);
      Pow2Double(w);
      HalfFits(x, Pow2(w - 1));
      Pow2Monotone(k - 1, w - 1);
      HighMask(x / 2, k - 1, w - 1);
      HighMaskStep(x, Pow2(k - 1), Pow2(w - 1));
    }
  }

  lemma FullMask(x: nat, w: nat)
    requires x < Pow2(w)
    ensures And(x, Pow2(w) - 1) == x == x - x % 1
  {
    hide And, Pow2;
    LowMask(x, w);
    ModUnique(x, Pow2(w), 0, x);
  }

  lemma HalfFits(x: nat, b: nat)
    requires x < 2 * b
    ensures x / 2 < b
  {
  }

  lemma Pow2Zero()
    ensures Pow2(0) == 1
  {
  }

  lemma CutIsLeast(size: nat, page: nat)
    requires 0 < page
    ensures var x := size + (page - 1); LeastMultiple(x - x % page, size, page)
  {
    var x := size + (page - 1);
    assert x - x % page == (x / page) * page;
  }

  /** Anything that is a multiple and large enough is at least the least one. */
  lemma LeastIsBelow(r: int, m: int, size: int, page: int)
    requires 0 < page && LeastMultiple(r, size, page) && Multiple(m, page) && size <= m
    ensures r <= m
  {
    var a :| r == a * page;
    var b :| m == b * page;
    if b < a {
      MulLe(b + 1, a, page);
      assert false;
    }
  }

  lemma LeastUnique(r: int, s: int, size: int, page: int)
    requires 0 < page && LeastMultiple(r, size, page) && LeastMultiple(s, size, page)
    ensures r == s
  {
    LeastIsBelow(r, s, size, page);
    LeastIsBelow(s, r, size, page);
  }

  lemma ZeroIsMultiple(page: nat)
    requires 0 < page
    ensures LeastMultiple(0, 0, page)
  {
    assert 0 == 0 * page;
  }

  // --- The three forms ------------------------------------------------------

  lemma RoundUpWordFits(size: nat, k: nat, width: nat)
    requires k <= width && size + (Pow2(k) - 1) < Pow2(width)
    ensures LeastMultiple(RoundUpWord(size, k, width), size, Pow2(k))
  {
    hide And, Pow2, LeastMultiple;
    var x := size + (Pow2(k) - 1);
    ModUnique(x, Pow2(width), 0, x);
    HighMask(x, k, width);
    CutIsLeast(size, Pow2(k));
  }

  lemma RoundUpWordCarries(size: nat, k: nat, width: nat)
    requires k <= width && size < Pow2(width) <= size + (Pow2(k) - 1)
    ensures RoundUpWord(size, k, width) == 0
  {
    hide And, Pow2;
    var x := size + (Pow2(k) - 1) - Pow2(width);
    Pow2Monotone(k, width);
    ModUnique(x + Pow2(width), Pow2(width), 1, x);
    HighMask(x, k, width);
    ModUnique(x, Pow2(k), 0, x);
  }

  /** Without a carry out of the word the masked sum is the least multiple; with one it is zero,
      so the form is right exactly when the sum fits. */
  lemma RoundUpWordExact(size: nat, k: nat, width: nat)
    requires k <= width && size < Pow2(width)
    ensures LeastMultiple(RoundUpWord(size, k, width), size, Pow2(k)) <==> size + (Pow2(k) - 1) < Pow2(width)
    ensures size + (Pow2(k) - 1) >= Pow2(width) ==> RoundUpWord(size, k, width) == 0
  {
    hide RoundUpWord, Pow2;
    Pow2Monotone(k, width);
    if size + (Pow2(k) - 1) < Pow2(width) {
      RoundUpWordFits(size, k, width);
    } else {
      RoundUpWordCarries(size, k, width);
    }
  }

  lemma PythonIsLeast(size: nat)
    ensures LeastMultiple(PythonRoundUp(size), size, Pow2(PAGE_BITS))
  {
    assert Pow2(12) == 4096;
    LowMask(size + (4096 - 1), 12);
    CutIsLeast(size, 4096);
  }

  lemma {:induction false} WordIsMultiple(k: nat, width: nat)
    requires k <= width
    ensures Multiple(Pow2(width), Pow2(k))
    decreases width
  {
    if k == width {
      assert Pow2(width) == 1 * Pow2(k);
    } else {
      WordIsMultiple(k, width - 1);
      var q :| Pow2(width - 1) == q * Pow2(k);
      assert Pow2(width) == (2 * q) * Pow2(k);
    }
  }

  lemma BelowWord(r: int, k: nat, width: nat)
    requires k <= width && Multiple(r, Pow2(k)) && r < Pow2(width)
    ensures r + (Pow2(k) - 1) < Pow2(width)
  {
    hide Pow2;
    WordIsMultiple(k, width);
    var a :| r == a * Pow2(k);
    var b :| Pow2(width) == b * Pow2(k);
    if b <= a {
      MulLe(b, a, Pow2(k));
      assert false;
    }
    MulLe(a + 1, b, Pow2(k));
    assert (a + 1) * Pow2(k) == a * Pow2(k) + Pow2(k);
  }

  /** In every word width and for every page size, rounding that does not carry is monotone and
      keeps whole pages. */
  lemma RoundUpWordLaws(a: nat, b: nat, k: nat, width: nat)
    requires k <= width && a <= b && b + (Pow2(k) - 1) < Pow2(width)
    ensures RoundUpWord(a, k, width) <= RoundUpWord(b, k, width)
    ensures RoundUpWord(RoundUpWord(a, k, width), k, width) == RoundUpWord(a, k, width)
  {
    hide RoundUpWord, Pow2;
    var r := RoundUpWord(a, k, width);
    RoundUpWordFits(a, k, width);
    RoundUpWordFits(b, k, width);
    LeastIsBelow(r, RoundUpWord(b, k, width), a, Pow2(k));
    BelowWord(r, k, width);
    RoundUpWordFits(r, k, width);
    LeastUnique(RoundUpWord(r, k, width), r, r, Pow2(k));
  }

  /** Rounding a size up to pages fits a word exactly when adding the rest of a page does. */
  lemma RoundedFits(size: nat, width: nat)
    requires PAGE_BITS <= width
    ensures PythonRoundUp(size) < Pow2(width) <==> size + (4096 - 1) < Pow2(width)
  {
    hide Pow2, PythonRoundUp;
    PageOf12();
    PythonIsLeast(size);
    if PythonRoundUp(size) < Pow2(width) {
      BelowWord(PythonRoundUp(size), PAGE_BITS, width);
    }
  }

  lemma PageOf12()
    ensures Pow2(PAGE_BITS) == 4096
  {
  }

  /** The wrapper's form agrees with the analyser's exactly when the sum fits 32 bits. */
  lemma WrapperAgrees(size: nat)
    requires size < Pow2(WORD64)
    ensures WrapperRoundUp(size, PAGE_BITS) == PythonRoundUp(size) <==> size + (4096 - 1) < Pow2(WORD32)
  {
    hide Pow2, PythonRoundUp, RoundUpWord;
    PageOf12();
    RoundUpWordExact(size, PAGE_BITS, WORD64);
    PythonIsLeast(size);
    RoundedFits(size, WORD32);
    Pow2Monotone(WORD32, WORD64);
    if size + (4096 - 1) < Pow2(WORD64) {
      LeastUnique(RoundUpWord(size, PAGE_BITS, WORD64), PythonRoundUp(size), size, 4096);
    }
    if size + (4096 - 1) < Pow2(WORD32) {
      ModUnique(PythonRoundUp(size), Pow2(WORD32), 0, PythonRoundUp(size));
    }
  }

  // --- What is left of a size that does not fit ---------------------------------

  lemma Word32()
    ensures Pow2(WORD32) == 0x1_0000_0000
  {
    Pow2Sum(16, 16);
    assert Pow2(16) == 0x1_0000 by { Pow2Sum(8, 8); }
  }

  lemma {:induction false} Pow2Sum(a: nat, b: nat)
    ensures Pow2(a + b) == Pow2(a) * Pow2(b)
    decreases a
  {
    hide Pow2;
    if a == 0 {
      Pow2Zero();
    } else {
      Pow2Sum(a - 1, b);
      Pow2Double(a);
      Pow2Double(a + b);
      MulTwice(Pow2(a - 1), Pow2(b));
    }
  }

  lemma MulTwice(x: nat, y: nat)
    ensures 2 * (x * y) == (2 * x) * y
  {
  }

  /** In every case the form is the least multiple, cut to the word. */
  lemma RoundUpWordIs(size: nat, k: nat, width: nat, m: nat)
    requires k <= width && size < Pow2(width) && LeastMultiple(m, size, Pow2(k))
    ensures m <= Pow2(width)
    ensures RoundUpWord(size, k, width) == if m < Pow2(width) then m else 0
  {
    hide RoundUpWord, Pow2, Multiple;
    RoundUpWordExact(size, k, width);
    WordIsMultiple(k, width);
    LeastIsBelow(m, Pow2(width), size, Pow2(k));
    if size + (Pow2(k) - 1) < Pow2(width) {
      LeastUnique(RoundUpWord(size, k, width), m, size, Pow2(k));
    } else if m < Pow2(width) {
      BelowWord(m, k, width);
    }
  }

  lemma CutOnce(m: nat, p: nat)
    requires 0 < p && m <= p
    ensures m % p == if m < p then m else 0
  {
    if m < p {
      ModUnique(m, p, 0, m);
    } else {
      ModUnique(m, p, 1, 0);
    }
  }

  /** The wrapper's form is what the low 32 bits of the analyser's are, for every 64-bit size. */
  lemma WrapperIs(size: nat)
    requires size < Pow2(WORD64)
    ensures WrapperRoundUp(size, PAGE_BITS) == PythonRoundUp(size) % 0x1_0000_0000
  {
    hide Pow2, PythonRoundUp, RoundUpWord, LeastMultiple;
    Word32();
    PageOf12();
    PythonIsLeast(size);
    var m := PythonRoundUp(size);
    RoundUpWordIs(size, PAGE_BITS, WORD64, m);
    if m == Pow2(WORD64) {
      Pow2Sum(32, 32);
      ModUnique(m, 0x1_0000_0000, Pow2(WORD32), 0);
    }
  }

  lemma WrapperCuts(size: nat)
    requires size < Pow2(WORD64)
    ensures WrapperRoundUp(size, PAGE_BITS) <= PythonRoundUp(size)
  {
    hide *;
    WrapperIs(size);
    ModBelow(PythonRoundUp(size), 0x1_0000_0000);
  }

  lemma ModBelow(x: nat, m: nat)
    requires 0 < m
    ensures 0 <= x % m <= x
  {
  }

  /** The environment's form is, for every page, the least multiple for the low 32 bits of the
      size, and zero when that multiple is the whole word. */
  lemma EnvironmentIs(size: nat, k: nat, m: nat)
    requires k <= WORD32 && LeastMultiple(m, size % 0x1_0000_0000, Pow2(k))
    ensures m <= 0x1_0000_0000 && EnvironmentRoundUp(size, k) == if m < 0x1_0000_0000 then m else 0
  {
    hide Pow2, RoundUpWord, LeastMultiple;
    Word32();
    RoundUpWordIs(size % 0x1_0000_0000, k, WORD32, m);
  }

  /** The allocation table's form agrees with it exactly when the sum fits 32 bits. */
  lemma EnvironmentAgrees(size: nat)
    requires size < Pow2(WORD32)
    ensures EnvironmentRoundUp(size, PAGE_BITS) == PythonRoundUp(size) <==> size + (4096 - 1) < Pow2(WORD32)
  {
    assert Pow2(12) == 4096;
    ModUnique(size, Pow2(WORD32), 0, size);
    RoundUpWordExact(size, PAGE_BITS, WORD32);
    PythonIsLeast(size);
    if size + (4096 - 1) < Pow2(WORD32) {
      LeastUnique(EnvironmentRoundUp(size, PAGE_BITS), PythonRoundUp(size), size, 4096);
    }
  }
}
