/** Machine words: 64-bit arithmetic, bit masks and the page alignment helpers of config.hpp. */
module Words {
  const FRAME_SIZE: int := 4096
  const TWO_32: int := 0x1_0000_0000
  const TWO_64: int := 0x1_0000_0000_0000_0000

  datatype Option<T> = None | Some(value: T)

  /** A value of a 64-bit unsigned register, pointer or size. */
  type Word = x: int | 0 <= x < TWO_64

  /** The machine's bitwise "and", one bit at a time. */
  function BitAnd(x: nat, y: nat): nat {
    if x == 0 || y == 0 then 0 else 2 * BitAnd(x / 2, y / 2) + (if x % 2 == 1 && y % 2 == 1 then 1 else 0)
  }

  function Pow2(k: nat): (r: nat)
    ensures r >= 1
  {
    if k == 0 then 1 else 2 * Pow2(k - 1)
  }

  function ShiftLeft(q: nat, k: nat): (r: nat)
    ensures q == 0 ==> r == 0
  {
    if k == 0 then q else 2 * ShiftLeft(q, k - 1)
  }

  lemma ShiftLefts(q: nat)
    ensures ShiftLeft(q, 9) == q * 512 && ShiftLeft(q, 12) == q * FRAME_SIZE
  {
    assert ShiftLeft(q, 1) == 2 * q && ShiftLeft(q, 2) == 4 * q && ShiftLeft(q, 3) == 8 * q;
    assert ShiftLeft(q, 4) == 16 * q && ShiftLeft(q, 5) == 32 * q && ShiftLeft(q, 6) == 64 * q;
    assert ShiftLeft(q, 7) == 128 * q && ShiftLeft(q, 8) == 256 * q && ShiftLeft(q, 9) == 512 * q;
    assert ShiftLeft(q, 10) == 1024 * q && ShiftLeft(q, 11) == 2048 * q;
  }

  /** One step of BitAnd on a number given by its upper bits and its lowest bit. */
  lemma AndStep(x: nat, b: nat, y: nat, c: nat)
    requires b < 2 && c < 2
    ensures BitAnd(2 * x + b, 2 * y + c) == 2 * BitAnd(x, y) + b * c
  {
    assert (2 * x + b) / 2 == x && (2 * y + c) / 2 == y;
  }

  /** Masking with the k low bits keeps the remainder. */
  lemma {:induction false} MaskLow(q: nat, r: nat, k: nat)
    requires r < Pow2(k)
    ensures BitAnd(ShiftLeft(q, k) + r, Pow2(k) - 1) == r
  {
    if k > 0 {
      MaskLow(q, r / 2, k - 1);
      AndStep(ShiftLeft(q, k - 1) + r / 2, r % 2, Pow2(k - 1) - 1, 1);
    }
  }

  /** Masking an n-bit value with all but its k low bits clears the remainder. */
  lemma {:induction false} MaskHigh(q: nat, r: nat, n: nat, k: nat)
    requires k <= n && r < Pow2(k) <= Pow2(n) && ShiftLeft(q, k) + r < Pow2(n)
    ensures BitAnd(ShiftLeft(q, k) + r, Pow2(n) - Pow2(k)) == ShiftLeft(q, k)
  {
    if k > 0 {
      MaskHigh(q, r / 2, n - 1, k - 1);
      AndStep(ShiftLeft(q, k - 1) + r / 2, r % 2, Pow2(n - 1) - Pow2(k - 1), 0);
    } else {
      MaskLow(0, q, n);
    }
  }

  /** Bits at or above position k and bits below it never meet. */
  lemma {:induction false} MaskDisjoint(q: nat, r: nat, k: nat)
    requires r < Pow2(k)
    ensures BitAnd(ShiftLeft(q, k), r) == 0
  {
    if k > 0 {
      MaskDisjoint(q, r / 2, k - 1);
      AndStep(ShiftLeft(q, k - 1), 0, r / 2, r % 2);
    }
  }

  lemma Powers()
    ensures Pow2(9) == 512 && Pow2(12) == FRAME_SIZE && Pow2(64) == TWO_64
  {
    assert Pow2(8) == 256 by { assert Pow2(4) == 16; }
    assert Pow2(16) == 65536 by { assert Pow2(12) == 4096; }
    assert Pow2(24) == 0x100_0000 by { assert Pow2(20) == 0x10_0000; }
    assert Pow2(32) == TWO_32 by { assert Pow2(28) == 0x1000_0000; }
    assert Pow2(40) == 0x100_0000_0000 by { assert Pow2(36) == 0x10_0000_0000; }
    assert Pow2(48) == 0x1_0000_0000_0000 by { assert Pow2(44) == 0x1000_0000_0000; }
    assert Pow2(56) == 0x100_0000_0000_0000 by { assert Pow2(52) == 0x10_0000_0000_0000; }
    assert Pow2(64) == TWO_64 by { assert Pow2(60) == 0x1000_0000_0000_0000; }
  }

  /** ALIGN_DOWN. */
  function AlignDown(a: Word): Word {
    a - a % FRAME_SIZE
  }

  /** ALIGN_UP, with the wrap-around of its 64-bit addition. */
  function AlignUp(a: Word): (r: Word)
    ensures r % FRAME_SIZE == 0
    ensures a <= TWO_64 - FRAME_SIZE ==> a <= r < a + FRAME_SIZE
    ensures a > TWO_64 - FRAME_SIZE ==> r == 0
  {
    AlignDown((a + FRAME_SIZE - 1) % TWO_64)
  }

  /** IS_ALIGNED. */
  predicate IsAligned(a: Word) {
    a % FRAME_SIZE == 0
  }

  /** The masks of config.hpp and of the page table macros, -FRAME_SIZE (also written ~0xfff),
      FRAME_SIZE - 1 and 0x1ff, compute the rounding and the remainders used throughout. */
  lemma MasksAreRemainders(a: Word)
    ensures BitAnd(a, TWO_64 - FRAME_SIZE) == AlignDown(a)
    ensures IsAligned(a) <==> BitAnd(a, FRAME_SIZE - 1) == 0
    ensures BitAnd(a, 0x1ff) == a % 512
  {
    Powers();
    ShiftLefts(a / FRAME_SIZE);
    ShiftLefts(a / 512);
    MaskHigh(a / FRAME_SIZE, a % FRAME_SIZE, 64, 12);
    MaskLow(a / FRAME_SIZE, a % FRAME_SIZE, 12);
    MaskLow(a / 512, a % 512, 9);
  }

  lemma PageIsAligned8(a: int)
    requires a % FRAME_SIZE == 0
    ensures a % 8 == 0
  {
    assert a == 8 * (512 * (a / FRAME_SIZE));
  }

  lemma PagesAdd(a: int, b: int)
    requires a % FRAME_SIZE == 0 && b % FRAME_SIZE == 0
    ensures (a + b) % FRAME_SIZE == 0 && (a + b) / FRAME_SIZE == a / FRAME_SIZE + b / FRAME_SIZE
  {
  }

  /** The machine's bitwise "or". */
  function BitOr(x: nat, y: nat): int {
    x + y - BitAnd(x, y)
  }

  /** Or-ing flag bits into a page-aligned address adds them. */
  lemma OrFlags(a: Word, f: nat)
    requires a % FRAME_SIZE == 0 && f < FRAME_SIZE
    ensures BitOr(a, f) == a + f
  {
    Powers();
    ShiftLefts(a / FRAME_SIZE);
    MaskDisjoint(a / FRAME_SIZE, f, 12);
  }

  /** Bits below position k meet only bits below position k. */
  lemma {:induction false} MaskBelow(q: nat, r: nat, s: nat, k: nat)
    requires r < Pow2(k) && s < Pow2(k)
    ensures BitAnd(ShiftLeft(q, k) + r, s) == BitAnd(r, s)
  {
    if k > 0 {
      MaskBelow(q, r / 2, s / 2, k - 1);
      AndStep(ShiftLeft(q, k - 1) + r / 2, r % 2, s / 2, s % 2);
      AndStep(r / 2, r % 2, s / 2, s % 2);
    }
  }

  /** Or-ing in one more of the three permission bits. */
  lemma OrPermission(a: Word, f: nat, bit: nat)
    requires a % FRAME_SIZE == 0 && (bit, f) in {(1, 0), (2, 0), (2, 1), (4, 0), (4, 1), (4, 2), (4, 3)}
    ensures BitOr(a + f, bit) == a + f + bit
  {
    Powers();
    ShiftLefts(a / FRAME_SIZE);
    MaskBelow(a / FRAME_SIZE, f, bit, 12);
    assert BitAnd(f / 2, bit / 2) == 0 by {
      assert BitAnd(f / 4, bit / 4) == 0;
    }
  }
}
