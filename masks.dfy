/** The global branch mask (GBM): a 64-bit word whose bit b is set while the
    branch with id b is outstanding. A word is modelled as its 64 bits, bit
    j at index j, and the C operators `|`, `&`, `~` and `<<1` bit by bit.
    The renamer builds its single-bit masks with the C expression `1<<pos`
    on a 32-bit `int`; widened to the 64-bit mask that expression
    sign-extends, so for pos == 31 it sets bits 31..63. */
module Masks {

  /** A 64-bit unsigned word, least significant bit first. */
  type Word = s: seq<bool> | |s| == 64 witness seq(64, _ => false)

  /** The word 0. */
  const Zero: Word := seq(64, _ => false)

  /** `x | y`. */
  function Or(x: Word, y: Word): Word
  {
    seq(64, j requires 0 <= j < 64 => x[j] || y[j])
  }

  /** `x & y`. */
  function And(x: Word, y: Word): Word
  {
    seq(64, j requires 0 <= j < 64 => x[j] && y[j])
  }

  /** `~x`. */
  function Not(x: Word): Word
  {
    seq(64, j requires 0 <= j < 64 => !x[j])
  }

  /** `x << 1`: every bit moves up one place, bit 63 drops out and bit 0
      is clear. */
  function Shl1(x: Word): Word
  {
    seq(64, j requires 0 <= j < 64 => j > 0 && x[j - 1])
  }

  /** The 64-bit mask with only bit j set (`uint64_t mask = 1` shifted left
      j times). */
  function BitMask(j: nat): Word
    requires j < 64
  {
    seq(64, k => k == j)
  }

  /** Bit j of g is set. */
  predicate Bit(g: Word, j: nat)
    requires j < 64
  {
    g[j]
  }

  /** The free-bit test of the branch scans, `(~GBM & mask) == mask`, holds
      exactly when bit j is clear. */
  lemma FreeBitTest(g: Word, j: nat)
    requires j < 64
    ensures And(Not(g), BitMask(j)) == BitMask(j) <==> !Bit(g, j)
  {
    if !Bit(g, j) {
      var l, r := And(Not(g), BitMask(j)), BitMask(j);
      forall k | 0 <= k < 64 ensures l[k] == r[k] {
      }
    } else {
      assert And(Not(g), BitMask(j))[j] != BitMask(j)[j];
    }
  }

  /** The scans step their mask with `mask <<= 1`. */
  lemma MaskStep(j: nat)
    requires j + 1 < 64
    ensures Shl1(BitMask(j)) == BitMask(j + 1)
  {
    var l, r := Shl1(BitMask(j)), BitMask(j + 1);
    forall k | 0 <= k < 64 ensures l[k] == r[k] {
    }
  }

  /** The value of the 32-bit `int` expression `1<<pos` once it is combined
      with a 64-bit word: bit pos for pos < 31, bits 31..63 for pos == 31.
      Shifting an `int` by 32 or more is undefined in C++, hence pos < 32. */
  function IntShiftMask(pos: nat): (m: Word)
    requires pos < 32
  {
    seq(64, k => if pos < 31 then k == pos else k >= 31)
  }

  /** Within the low 32 bits, the int-built mask has exactly bit pos set;
      above them it has all bits set for pos == 31 and none otherwise. */
  lemma IntShiftMaskBits(pos: nat, j: nat)
    requires pos < 32 && j < 64
    ensures j < 32 ==> (Bit(IntShiftMask(pos), j) <==> j == pos)
    ensures j >= 32 ==> (Bit(IntShiftMask(pos), j) <==> pos == 31)
  {
  }

  /** Setting a branch's bit (`GBM | 1<<pos`) sets bit pos and keeps every
      other bit below 32. */
  lemma SetBranchBit(g: Word, pos: nat, j: nat)
    requires pos < 32 && j < 32
    ensures Bit(Or(g, IntShiftMask(pos)), j) <==> Bit(g, j) || j == pos
  {
  }

  /** Clearing a branch's bit (`GBM & ~(1<<pos)`) clears bit pos and keeps
      every other bit below 32. */
  lemma ClearBranchBit(g: Word, pos: nat, j: nat)
    requires pos < 32 && j < 32
    ensures Bit(And(g, Not(IntShiftMask(pos))), j) <==> Bit(g, j) && j != pos
  {
  }

  /** The number of clear bits among bits 0..n-1 of g: the free checkpoints. */
  function ClearCount(g: Word, n: nat): (c: nat)
    requires n <= 64
    ensures c <= n
  {
    if n == 0 then 0 else ClearCount(g, n - 1) + (if Bit(g, n - 1) then 0 else 1)
  }

  /** There is a free checkpoint among the first n exactly when some bit
      below n is clear. */
  lemma {:induction false} ClearCountPositive(g: Word, n: nat)
    requires n <= 64
    ensures ClearCount(g, n) > 0 <==> exists j :: 0 <= j < n && !Bit(g, j)
  {
    if n > 0 {
      ClearCountPositive(g, n - 1);
      if !Bit(g, n - 1) {
        assert ClearCount(g, n) > 0;
      }
    }
  }

  /** With every one of the n checkpoints in use no branch can be renamed;
      resolving any one of them correctly frees a checkpoint again. */
  lemma FullMaskStallsUntilResolve(g: Word, n: nat, id: nat)
    requires id < n <= 32
    requires forall j :: 0 <= j < n ==> Bit(g, j)
    ensures ClearCount(g, n) == 0
    ensures ClearCount(And(g, Not(IntShiftMask(id))), n) >= 1
  {
    ClearCountPositive(g, n);
    ClearBranchBit(g, id, id);
    ClearCountPositive(And(g, Not(IntShiftMask(id))), n);
  }
}
