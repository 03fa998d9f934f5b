/** The skip list that holds the blocks of a file: littlefs/lfs.c:2769-2801 and 2903-2944. */
module CtzList {
  import opened Basics
  import opened Bits
  import opened CtzIndex

  /** The blocks of the device, each a sequence of bytes. */
  type Memory = seq<seq<Byte>>

  /** The smallest block that is sure to hold all pointers (lfs.c:3986). */
  type BlockSize = x: int | 128 <= x < WORD witness 128

  const BLOCK_NULL: u32 := 0xffff_ffff

  predicate Shape(mem: Memory, bs: u32) {
    bs >= 128 && |mem| < BLOCK_NULL && forall b :: 0 <= b < |mem| ==> |mem[b]| == bs
  }

  /** The little-endian 32-bit word at byte offset 4*k. */
  function Word(block: seq<Byte>, k: nat): (w: u32)
    requires 4 * k + 4 <= |block|
  {
    block[4 * k] as int + 0x100 * (block[4 * k + 1] as int) + 0x1_0000 * (block[4 * k + 2] as int)
    + 0x100_0000 * (block[4 * k + 3] as int)
  }

  function Encode(w: u32): (s: seq<Byte>)
    ensures |s| == 4 && Word(s, 0) == w
  {
    var w1 := w / 0x100;
    var w2 := w1 / 0x100;
    [w % 0x100, w1 % 0x100, w2 % 0x100, w2 / 0x100]
  }

  /** Block index i can belong to a file of 32-bit size, so all its pointers fit into a block. */
  predicate InReach(bs: u32, n: nat) {
    bs >= 128 && n > 0 && Start(bs, n - 1) < WORD
  }

  lemma PointersFit(bs: u32, n: nat, i: nat)
    requires InReach(bs, n) && i < n
    ensures i * (bs - 8) < WORD
    ensures PointerBytes(i) <= 104
    ensures i > 0 ==> Ctz(i) <= 25
  {
    StartIncreasing(bs, i, n - 1);
    MulMono(i, n - 1, bs - 8);
    SmallIndex(bs, i);
  }

  /** Pointer k of block i exists and leads 2^k blocks back. */
  predicate PointerOk(mem: Memory, bs: u32, blocks: seq<nat>, i: nat, k: nat)
    requires Shape(mem, bs)
    requires 0 < i < |blocks| && blocks[i] < |mem| && k <= Ctz(i)
  {
    Pow2(k) <= i && 4 * k + 4 <= bs && Word(mem[blocks[i]], k) == blocks[i - Pow2(k)]
  }

  /** blocks is a well-formed skip list: distinct device blocks, block i with Ctz(i) + 1 correct pointers. */
  ghost predicate IsList(mem: Memory, bs: u32, blocks: seq<nat>) {
    && Shape(mem, bs)
    && InReach(bs, |blocks|)
    && (forall i :: 0 <= i < |blocks| ==> blocks[i] < |mem|)
    && (forall i, j :: 0 <= i < j < |blocks| ==> blocks[i] != blocks[j])
    && (forall i, k: nat | 0 < i < |blocks| && k <= Ctz(i) :: PointerOk(mem, bs, blocks, i, k))
  }

  /** The list of a file with size > 0 bytes. */
  ghost predicate IsFile(mem: Memory, bs: u32, blocks: seq<nat>, size: nat) {
    IsList(mem, bs, blocks) && 0 < size < WORD && |blocks| == Index(bs, size - 1) + 1
  }

  /** Cutting a list back to a prefix, as truncation does, leaves a list. */
  lemma PrefixIsList(mem: Memory, bs: u32, blocks: seq<nat>, n: nat)
    requires IsList(mem, bs, blocks) && 0 < n <= |blocks|
    ensures IsList(mem, bs, blocks[..n])
  {
    StartIncreasing(bs, n - 1, |blocks| - 1);
    forall i, k: nat | 0 < i < n && k <= Ctz(i) ensures PointerOk(mem, bs, blocks[..n], i, k) {
      assert PointerOk(mem, bs, blocks, i, k);
    }
  }

  /** Only the listed blocks matter to a list. */
  lemma ListFrame(mem: Memory, mem': Memory, bs: u32, blocks: seq<nat>)
    requires IsList(mem, bs, blocks) && Shape(mem', bs) && |mem'| == |mem|
    requires forall i :: 0 <= i < |blocks| ==> mem'[blocks[i]] == mem[blocks[i]]
    ensures IsList(mem', bs, blocks)
  {
    forall i, k: nat | 0 < i < |blocks| && k <= Ctz(i) ensures PointerOk(mem', bs, blocks, i, k) {
      assert PointerOk(mem, bs, blocks, i, k);
    }
  }

  /** What truncation does: the prefix is the list of a file of the smaller size. */
  lemma TruncatedIsFile(mem: Memory, bs: u32, blocks: seq<nat>, size: nat, newSize: nat)
    requires IsFile(mem, bs, blocks, size) && 0 < newSize <= size
    ensures 0 <= Index(bs, newSize - 1) < |blocks|
    ensures IsFile(mem, bs, blocks[..Index(bs, newSize - 1) + 1], newSize)
  {
    IndexMono(bs, newSize - 1, size - 1);
    PrefixIsList(mem, bs, blocks, Index(bs, newSize - 1) + 1);
  }

  lemma IndexMono(bs: nat, p: nat, q: nat)
    requires bs >= 128 && p <= q < WORD
    ensures 0 <= Index(bs, p) <= Index(bs, q)
  {
    IndexLocates(bs, p);
    IndexLocates(bs, q);
    if Index(bs, q) < Index(bs, p) {
      StartIncreasing(bs, Index(bs, q) + 1, Index(bs, p));
    }
  }

  /** Hops left when d blocks remain and every pointer needed exists. */
  function FreeHops(d: nat): (r: nat) {
    if d == 0 then 0 else Log2(d) + 1
  }

  /** One hop of lfs_ctz_find from block c towards block t: the longest pointer that does not overshoot. */
  function Skip(c: nat, t: nat): (k: nat)
    requires t < c
  {
    Npw2Floor(c - t);
    var far := Npw2(c - t + 1) - 1;
    if far < Ctz(c) then far else Ctz(c)
  }

  lemma SkipLands(c: nat, t: nat)
    requires t < c
    ensures Skip(c, t) <= Ctz(c)
    ensures t <= c - Pow2(Skip(c, t)) < c
  {
    Npw2Floor(c - t);
    Pow2Mono(Skip(c, t), Npw2(c - t + 1) - 1);
  }

  /** While the alignment of c limits the hop, the hop clears the lowest bit of c and so aligns it better. */
  lemma AlignedHop(c: nat, t: nat)
    requires t < c && Ctz(c) < Log2(c - t)
    ensures Skip(c, t) == Ctz(c)
    ensures c - Pow2(Ctz(c)) > t && Ctz(c - Pow2(Ctz(c))) > Ctz(c)
  {
    hide Ctz, Log2, Pow2, Npw2;
    Npw2Floor(c - t);
    Log2Bounds(c - t);
    var k := Ctz(c);
    Pow2Mono(k + 1, Log2(c - t));
    Pow2Next(k);
    CtzFactor(c);
    OddMultiple(c, Pow2(k));
    CtzAtLeast(c - Pow2(k), k + 1);
  }

  lemma Pow2Next(k: nat)
    ensures Pow2(k + 1) == 2 * Pow2(k)
  {
  }

  lemma OddMultiple(c: nat, p: nat)
    requires p > 0 && c % p == 0 && (c / p) % 2 == 1
    ensures (c - p) % (2 * p) == 0
  {
    var q := c / p;
    var h := q / 2;
    assert c == (2 * h + 1) * p;
    DivExact(c - p, h, 2 * p);
  }

  /** Once the distance limits the hop, every later hop halves the distance. */
  lemma DistanceHop(c: nat, t: nat)
    requires t < c && Ctz(c) >= Log2(c - t)
    ensures Skip(c, t) == Log2(c - t)
    ensures var c' := c - Pow2(Log2(c - t));
            c' >= t && FreeHops(c' - t) < FreeHops(c - t) && (c' > t ==> Ctz(c') >= Log2(c' - t))
  {
    hide Ctz, Log2, Pow2;
    Npw2Floor(c - t);
    var l := Log2(c - t);
    Log2Bounds(c - t);
    PowNext(l);
    var c' := c - Pow2(l);
    if c' > t {
      Log2Bounds(c' - t);
      if Log2(c' - t) >= l {
        Pow2Mono(l, Log2(c' - t));
      }
      KeepsAlignment(c, l);
    }
  }

  lemma PowNext(l: nat)
    ensures Pow2(l + 1) == 2 * Pow2(l)
  {
  }

  lemma KeepsAlignment(c: nat, l: nat)
    requires c > Pow2(l) && l <= Ctz(c)
    ensures Ctz(c - Pow2(l)) >= l
  {
    hide Ctz, Pow2;
    CtzFactor(c);
    MultipleOfSmaller(c, l, Ctz(c));
    MultipleMinus(c, Pow2(l));
    CtzAtLeast(c - Pow2(l), l);
  }

  lemma MultipleOfSmaller(c: nat, l: nat, m: nat)
    requires l <= m && c % Pow2(m) == 0
    ensures c % Pow2(l) == 0
  {
    Pow2Add(m - l, l);
    FactorDivides(c, Pow2(m - l), Pow2(l));
  }

  lemma FactorDivides(c: nat, a: nat, b: nat)
    requires a > 0 && b > 0 && a * b > 0 && c % (a * b) == 0
    ensures c % b == 0
  {
    var q := c / (a * b);
    Associative(q, a, b);
    DivExact(c, q * a, b);
  }

  lemma Associative(q: int, a: int, b: int)
    ensures q * (a * b) == (q * a) * b
  {
  }

  lemma MultipleMinus(c: nat, p: nat)
    requires p > 0 && c % p == 0
    ensures (c - p) % p == 0
  {
    var q := c / p;
    assert c - p == (q - 1) * p;
    DivExact(c - p, q - 1, p);
  }

  /**
   * lfs_ctz_find: walks from the last block of a file to the block that holds pos.
   * It follows only pointers that exist, and at most 2*(floor(log2(current))+1) of them.
   */
  method Find(mem: Memory, bs: u32, head: u32, size: u32, pos: u32, ghost blocks: seq<nat>)
    returns (block: u32, off: u32, hops: nat)
    requires Shape(mem, bs)
    requires size > 0 ==> IsFile(mem, bs, blocks, size) && head == blocks[|blocks| - 1] && pos < size
    ensures size == 0 ==> block == BLOCK_NULL && off == 0
    ensures size > 0 ==> 0 <= Index(bs, pos) < |blocks| && block == blocks[Index(bs, pos)]
                         && Locates(bs, pos, Index(bs, pos), off) && off < bs
    ensures size > 0 ==> hops <= if |blocks| == 1 then 0 else 2 * (Log2(|blocks| - 1) + 1)
  {
    if size == 0 {
      return BLOCK_NULL, 0, 0;
    }
    IndexMono(bs, pos, size - 1);
    var current, unused := LfsCtzIndex(bs, size - 1);
    var target, targetOff := LfsCtzIndex(bs, pos);
    off := targetOff;
    block, hops := Walk(mem, bs, head, current, target, blocks);
  }

  /** The loop of lfs_ctz_find, from block index start down to block index target. */
  method Walk(mem: Memory, bs: u32, head: u32, start: nat, target: nat, ghost blocks: seq<nat>)
    returns (block: u32, hops: nat)
    requires IsList(mem, bs, blocks) && target <= start < |blocks| && head == blocks[start]
    ensures block == blocks[target]
    ensures hops <= if start == 0 then 0 else 2 * (Log2(start) + 1)
  {
    var current := start;
    block := head;
    hops := 0;
    while current > target
      invariant target <= current <= start && block == blocks[current]
      invariant current > 0 ==> Log2(current) <= Log2(start)
      invariant start > 0 ==> WithinBudget(current, target, hops, Log2(start))
      invariant start == 0 ==> hops == 0
      decreases current - target
    {
      var skip := Skip(current, target);
      SkipLands(current, target);
      assert PointerOk(mem, bs, blocks, current, skip);
      HopBudget(current, target, hops, Log2(start));
      block := Word(mem[block], skip);
      current := current - Pow2(skip);
      hops := hops + 1;
    }
  }

  predicate WithinBudget(c: nat, t: nat, hops: nat, limit: nat) {
    if c > t then hops <= Ctz(c) || Settled(c, t, hops, limit) else hops <= 2 * limit + 1
  }

  /** From here on every hop halves the distance, and the budget for that remains. */
  predicate Settled(c: nat, t: nat, hops: nat, limit: nat) {
    t < c && Ctz(c) >= Log2(c - t) && hops + FreeHops(c - t) <= 2 * limit + 1
  }

  lemma HopBudget(c: nat, t: nat, hops: nat, limit: nat)
    requires t < c && Log2(c) <= limit
    requires WithinBudget(c, t, hops, limit)
    ensures var c' := c - Pow2(Skip(c, t));
            t <= c' < c && (c' > 0 ==> Log2(c') <= limit) && WithinBudget(c', t, hops + 1, limit)
  {
    SkipLands(c, t);
    var c' := c - Pow2(Skip(c, t));
    if c' > 0 {
      Log2Mono(c', c);
    }
    if Ctz(c) < Log2(c - t) {
      AlignedHop(c, t);
    } else {
      DistanceHop(c, t);
      CtzFactor(c);
      Log2Mono(c - t, c);
      assert hops + FreeHops(c - t) <= 2 * limit + 1;
    }
  }

  /** lfs_ctz_traverse: reports every block of the list once, from the last one back to the first. */
  method Traverse(mem: Memory, bs: u32, head: u32, size: u32, ghost blocks: seq<nat>)
    returns (visited: seq<nat>)
    requires Shape(mem, bs)
    requires size > 0 ==> IsFile(mem, bs, blocks, size) && head == blocks[|blocks| - 1]
    ensures size == 0 ==> visited == []
    ensures size > 0 ==> |visited| == |blocks|
    ensures size > 0 ==> forall i :: 0 <= i < |blocks| ==> visited[i] == blocks[|blocks| - 1 - i]
  {
    visited := [];
    if size == 0 {
      return;
    }
    var index, unused := LfsCtzIndex(bs, size - 1);
    var h := head;
    while true
      invariant 0 <= index < |blocks| && h == blocks[index]
      invariant |visited| == |blocks| - 1 - index
      invariant forall i :: 0 <= i < |visited| ==> visited[i] == blocks[|blocks| - 1 - i]
      decreases index
    {
      visited := visited + [h];
      if index == 0 {
        return;
      }
      var count := 2 - index % 2;
      assert PointerOk(mem, bs, blocks, index, 0);
      var first := Word(mem[h], 0);
      if count == 2 {
        assert Ctz(index) == 1 + Ctz(index / 2);
        assert Pow2(1) == 2 * Pow2(0);
        assert PointerOk(mem, bs, blocks, index, 1);
        visited := visited + [first];
        h := Word(mem[h], 1);
      } else {
        h := first;
      }
      index := index - count;
    }
  }
}
