/** Index arithmetic of the file skip list: littlefs/lfs.c:2756-2767. */
module CtzIndex {
  import opened Basics
  import opened Bits

  /** Bytes of file data in block i: all of block 0, later blocks start with Ctz(i) + 1 pointers. */
  function Capacity(bs: nat, i: nat): (r: int) {
    if i == 0 then bs else bs - 4 * (Ctz(i) + 1)
  }

  /** First file position stored in block n: the sum of the capacities before it. */
  function Start(bs: nat, n: nat): (r: int) {
    if n == 0 then 0 else Start(bs, n - 1) + Capacity(bs, n - 1)
  }

  /** Bytes of pointers at the front of block i. */
  function PointerBytes(i: nat): (r: nat) {
    if i == 0 then 0 else 4 * (Ctz(i) + 1)
  }

  /** Block n, in-block offset off is where the layout puts file position pos. */
  predicate Locates(bs: nat, pos: nat, n: nat, off: int) {
    Start(bs, n) <= pos < Start(bs, n + 1) && off == pos - Start(bs, n) + PointerBytes(n)
  }

  lemma {:induction false} StartClosed(bs: nat, n: nat)
    requires n > 0
    ensures Start(bs, n) == n * (bs - 8) + 8 + 4 * Popc(n - 1)
  {
    if n == 1 {
      assert Start(bs, 1) == Start(bs, 0) + Capacity(bs, 0);
    } else {
      StartClosed(bs, n - 1);
      PopcSucc(n - 2);
      assert n * (bs - 8) == (n - 1) * (bs - 8) + (bs - 8);
    }
  }

  /** A 32-bit position lies in a block whose index has at most 26 one bits, so capacities are positive. */
  lemma SmallIndex(bs: nat, n: nat)
    requires bs >= 128 && n * (bs - 8) < WORD
    ensures n < Pow2(26) && Popc(n) <= 26
    ensures n > 0 ==> Popc(n - 1) <= 26 && Ctz(n) <= 25
  {
    MulMono(120, bs - 8, n);
    Pow2Of26();
    PopcBound(n, 26);
    if n > 0 {
      PopcBound(n - 1, 26);
      CtzFactor(n);
      Log2Bounds(n);
      if Log2(n) > 25 {
        Pow2Mono(26, Log2(n));
      }
    }
  }

  lemma Pow2Of26()
    ensures Pow2(26) == 0x400_0000
  {
    assert Pow2(13) == 0x2000;
    Pow2Add(13, 13);
  }

  /** The closed form of lfs_ctz_index, as pure arithmetic. */
  function Index(bs: nat, pos: nat): (r: int)
    requires bs > 8
  {
    var b := bs - 8;
    var i := pos / b;
    if i == 0 then 0 else (pos - 4 * (Popc(i - 1) + 2)) / b
  }

  /** The computed index is the block that the layout gives, for every 32-bit position. */
  lemma IndexLocates(bs: nat, pos: nat)
    requires bs >= 128 && pos < WORD
    ensures Index(bs, pos) >= 0
    ensures Start(bs, Index(bs, pos)) <= pos < Start(bs, Index(bs, pos) + 1)
  {
    if pos < bs - 8 {
      FirstBlockHolds(bs, pos);
    } else {
      hide Start, Popc, Index;
      GuessBounds(bs, pos);
      if pos < Start(bs, pos / (bs - 8)) {
        GuessTooBig(bs, pos);
      } else {
        GuessRight(bs, pos);
      }
    }
  }

  lemma FirstBlockHolds(bs: nat, pos: nat)
    requires bs >= 128 && pos < bs - 8
    ensures Index(bs, pos) == 0 && Start(bs, 0) <= pos < Start(bs, 1)
  {
    assert pos / (bs - 8) == 0;
    StartClosed(bs, 1);
  }

  /** Dividing by the smallest capacity guesses an index i0 whose correction does not underflow. */
  lemma GuessBounds(bs: nat, pos: nat)
    requires bs >= 128 && pos < WORD && pos >= bs - 8
    ensures var i0 := pos / (bs - 8);
            i0 > 0 && 0 <= Popc(i0 - 1) <= 26 && Popc(i0) <= 26
            && i0 * (bs - 8) <= pos < i0 * (bs - 8) + (bs - 8)
            && pos - 4 * (Popc(i0 - 1) + 2) >= 0
  {
    var i0 := pos / (bs - 8);
    DivBounds(pos, bs - 8);
    if i0 > 0 {
      MulAtLeast(i0, bs - 8);
    }
    SmallIndex(bs, i0);
  }

  lemma GuessRight(bs: nat, pos: nat)
    requires bs >= 128 && pos < WORD && pos >= bs - 8
    requires pos / (bs - 8) > 0 && Start(bs, pos / (bs - 8)) <= pos
    ensures Index(bs, pos) == pos / (bs - 8) && pos < Start(bs, Index(bs, pos) + 1)
  {
    var i0 := pos / (bs - 8);
    GuessBounds(bs, pos);
    StartClosed(bs, i0);
    StartClosed(bs, i0 + 1);
    DivUnique(pos - 4 * (Popc(i0 - 1) + 2), i0, bs - 8, pos - 4 * (Popc(i0 - 1) + 2) - i0 * (bs - 8));
    NextMultiple(i0, bs - 8);
  }

  lemma GuessTooBig(bs: nat, pos: nat)
    requires bs >= 128 && pos < WORD && pos >= bs - 8
    requires pos / (bs - 8) > 0 && pos < Start(bs, pos / (bs - 8))
    ensures Index(bs, pos) == pos / (bs - 8) - 1
    ensures Start(bs, Index(bs, pos)) <= pos
  {
    hide Start, Popc;
    var i0 := pos / (bs - 8);
    GuessBounds(bs, pos);
    StartClosed(bs, i0);
    var k := 4 * (Popc(i0 - 1) + 2);
    TooBigQuotient(pos, bs - 8, i0, k);
    StartBelow(bs, i0 - 1, pos);
  }

  lemma TooBigQuotient(pos: nat, b: nat, i0: nat, k: nat)
    requires b >= 120 && i0 > 0 && k <= 112
    requires i0 * b <= pos < i0 * b + k
    ensures pos - k >= 0 && (pos - k) / b == i0 - 1
    ensures (i0 - 1) * b + 120 <= pos
  {
    NextMultiple(i0 - 1, b);
    MulMono(0, i0 - 1, b);
    DivUnique(pos - k, i0 - 1, b, pos - k - (i0 - 1) * b);
  }

  lemma StartBelow(bs: nat, n: nat, pos: nat)
    requires bs >= 128 && pos < WORD && n * (bs - 8) <= pos
    ensures Start(bs, n) <= n * (bs - 8) + 112
  {
    if n > 0 {
      SmallIndex(bs, n);
      StartClosed(bs, n);
    }
  }

  lemma NextMultiple(q: int, d: int)
    ensures (q + 1) * d == q * d + d
  {
  }

  lemma DivBounds(n: nat, d: nat)
    requires d > 0
    ensures 0 <= n / d && (n / d) * d <= n < (n / d) * d + d
    ensures (n / d + 1) * d == (n / d) * d + d
  {
  }

  /** lfs_ctz_index: replaces a file position by its offset in the block and returns the block's index. */
  method LfsCtzIndex(bs: u32, pos: u32) returns (i: u32, off: u32)
    requires bs >= 128
    ensures i == Index(bs, pos) && Locates(bs, pos, i, off)
    ensures PointerBytes(i) <= off < bs
  {
    hide Start, PointerBytes, Popc, Pow2, Ctz;
    var size: u32 := pos;
    var b: u32 := bs - 2 * 4;
    QuotientFits(size, b);
    i := size / b;
    if i == 0 {
      SmallPosition(bs, pos);
      return 0, pos;
    }
    CorrectionFits(bs, pos);
    var back: u32 := size - 4 * (Popc(i - 1) + 2);
    i := back / b;
    assert i == Index(bs, pos);
    var skipped: u32 := size - b * i;
    off := skipped - 4 * Popc(i);
  }

  lemma QuotientFits(n: nat, d: nat)
    requires d > 0
    ensures 0 <= n / d <= n
  {
    DivBounds(n, d);
    MulMono(1, d, n / d);
  }

  lemma SmallPosition(bs: nat, pos: nat)
    requires bs >= 128 && pos < WORD && pos / (bs - 8) == 0
    ensures Locates(bs, pos, 0, pos) && pos < bs
  {
    DivBounds(pos, bs - 8);
    StartClosed(bs, 1);
  }

  lemma CorrectionFits(bs: nat, pos: nat)
    requires bs >= 128 && pos < WORD && pos / (bs - 8) != 0
    ensures 0 <= 4 * (Popc(pos / (bs - 8) - 1) + 2) <= pos
    ensures 0 <= Index(bs, pos) < WORD
    ensures 4 * Popc(Index(bs, pos)) <= pos - (bs - 8) * Index(bs, pos) < WORD
    ensures Locates(bs, pos, Index(bs, pos), pos - (bs - 8) * Index(bs, pos) - 4 * Popc(Index(bs, pos)))
    ensures PointerBytes(Index(bs, pos)) <= pos - (bs - 8) * Index(bs, pos) - 4 * Popc(Index(bs, pos)) < bs
  {
    DivBounds(pos, bs - 8);
    MulAtLeast(pos / (bs - 8), bs - 8);
    GuessBounds(bs, pos);
    IndexLocates(bs, pos);
    OffsetFits(bs, pos, Index(bs, pos));
    if Index(bs, pos) > 0 {
      MulMono(1, bs - 8, Index(bs, pos));
    }
  }

  /** The layout has no second place for a position: what the method returns is the location. */
  lemma LocatesOnly(bs: nat, pos: nat, i: nat, off: int)
    requires bs >= 128 && pos < WORD && Locates(bs, pos, i, off)
    ensures forall n: nat, o :: Locates(bs, pos, n, o) ==> n == i && o == off
  {
    forall n: nat, o | Locates(bs, pos, n, o) ensures n == i && o == off {
      BlockUnique(bs, pos, n, i);
    }
  }

  /** The offset formula of lfs_ctz_index lands between the pointers and the end of block n. */
  lemma OffsetFits(bs: nat, pos: nat, n: nat)
    requires bs >= 128 && pos < WORD
    requires Start(bs, n) <= pos < Start(bs, n + 1)
    ensures (bs - 8) * n == n * (bs - 8) <= pos
    ensures 4 * Popc(n) <= pos - (bs - 8) * n
    ensures Locates(bs, pos, n, pos - (bs - 8) * n - 4 * Popc(n))
    ensures PointerBytes(n) <= pos - (bs - 8) * n - 4 * Popc(n) < bs
  {
    StartClosed(bs, n + 1);
    if n > 0 {
      StartClosed(bs, n);
      PopcSucc(n - 1);
    }
    NextMultiple(n, bs - 8);
  }

  lemma BlockUnique(bs: nat, pos: nat, n: nat, m: nat)
    requires bs >= 128 && pos < WORD
    requires Start(bs, n) <= pos < Start(bs, n + 1)
    requires Start(bs, m) <= pos < Start(bs, m + 1)
    ensures n == m
  {
    if n < m {
      StartIncreasing(bs, n + 1, m);
    } else if m < n {
      StartIncreasing(bs, m + 1, n);
    }
  }

  /** Every block below a 32-bit position has room for data, so the block starts increase. */
  lemma {:induction false} StartIncreasing(bs: nat, n: nat, m: nat)
    requires bs >= 128 && n <= m && Start(bs, m) < WORD
    ensures Start(bs, n) <= Start(bs, m)
    ensures n < m ==> Start(bs, n) < Start(bs, m)
    ensures m * (bs - 8) < WORD
    decreases m - n
  {
    if m > 0 {
      StartClosed(bs, m);
      if n < m {
        MulMono(m - 1, m, bs - 8);
        SmallIndex(bs, m - 1);
        StartIncreasing(bs, n, m - 1);
      }
    }
  }

  /** Start and Index are inverse: the first and the last byte of a block map back to the block. */
  lemma IndexOfStart(bs: nat, n: nat, pos: nat)
    requires bs >= 128 && pos < WORD
    requires Start(bs, n) <= pos < Start(bs, n + 1)
    ensures Index(bs, pos) == n
  {
    IndexLocates(bs, pos);
    BlockUnique(bs, pos, n, Index(bs, pos));
  }
}
