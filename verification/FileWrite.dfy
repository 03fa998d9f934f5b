/**
 * Copy-on-write file updates: littlefs/lfs.c:2804-2900 (lfs_ctz_extend), 3227-3305 (flush),
 * 3374-3432 (read), 3440-3563 (write).
 */
module FileWrite {
  import opened Basics
  import opened Bits
  import opened CtzIndex
  import opened CtzList
  import Allocator

  const BLANK: Byte := 0xff

  /** Offset of file position pos inside its block. */
  function OffsetOf(bs: u32, pos: nat): (r: int)
    requires bs > 8
  {
    var n := Index(bs, pos);
    if n < 0 then 0 else pos - Start(bs, n) + PointerBytes(n)
  }

  /** The byte a list of blocks holds at file position pos (0 where the list does not reach). */
  function ByteAt(mem: Memory, bs: u32, blocks: seq<nat>, pos: nat): (r: Byte)
    requires bs > 8
  {
    var n, o := Index(bs, pos), OffsetOf(bs, pos);
    if 0 <= n < |blocks| && blocks[n] < |mem| && 0 <= o < |mem[blocks[n]]| then mem[blocks[n]][o] else 0
  }

  /** The first size bytes of the file held by a list of blocks. */
  function Content(mem: Memory, bs: u32, blocks: seq<nat>, size: nat): (s: seq<Byte>)
    requires bs > 8
    ensures |s| == size
  {
    seq(size, p requires 0 <= p < size => ByteAt(mem, bs, blocks, p))
  }

  /** The list of a closed file: empty exactly when the file is. */
  ghost predicate IsClosed(mem: Memory, bs: u32, blocks: seq<nat>, head: nat, size: nat) {
    && Shape(mem, bs)
    && if size == 0 then blocks == [] else IsFile(mem, bs, blocks, size) && head == blocks[|blocks| - 1]
  }

  /** A list under construction: the next byte, at file position pos, goes to offset off of its last block. */
  ghost predicate IsOpen(mem: Memory, bs: u32, blocks: seq<nat>, block: nat, pos: nat, off: nat) {
    && IsList(mem, bs, blocks)
    && block == blocks[|blocks| - 1]
    && pos < WORD
    && Start(bs, |blocks| - 1) <= pos <= Start(bs, |blocks|)
    && off == pos - Start(bs, |blocks| - 1) + PointerBytes(|blocks| - 1)
    && BlankFrom(mem[block], off)
  }

  predicate BlankFrom(s: seq<Byte>, off: nat) {
    forall i :: off <= i < |s| ==> s[i] == BLANK
  }

  /** Old content with data put at pos; a gap before pos reads as zero. */
  function Overwrite(old_: seq<Byte>, pos: nat, data: seq<Byte>): (s: seq<Byte>)
    ensures |s| == if pos + |data| > |old_| then pos + |data| else |old_|
  {
    var base := if pos > |old_| then old_ + Zeros(pos - |old_|) else old_;
    base[..pos] + data + (if pos + |data| < |base| then base[pos + |data|..] else [])
  }

  function Zeros(n: nat): (s: seq<Byte>)
    ensures |s| == n && forall i :: 0 <= i < n ==> s[i] == 0
  {
    seq(n, _ => 0)
  }

  function Patch(s: seq<Byte>, off: nat, data: seq<Byte>): (t: seq<Byte>)
    requires off + |data| <= |s|
    ensures |t| == |s|
    ensures forall i :: 0 <= i < |s| ==> t[i] == if off <= i < off + |data| then data[i - off] else s[i]
  {
    s[..off] + data + s[off + |data|..]
  }

  lemma CapacityBound(bs: u32, n: nat)
    requires InReach(bs, n + 1)
    ensures Capacity(bs, n) == bs - PointerBytes(n) && PointerBytes(n) <= 104
    ensures Start(bs, n + 1) == Start(bs, n) + Capacity(bs, n)
  {
    PointersFit(bs, n + 1, n);
  }

  lemma PositionInBlock(bs: u32, n: nat, pos: nat)
    requires InReach(bs, n + 1) && pos < WORD && Start(bs, n) <= pos < Start(bs, n + 1)
    ensures Index(bs, pos) == n
    ensures OffsetOf(bs, pos) == pos - Start(bs, n) + PointerBytes(n)
    ensures PointerBytes(n) <= OffsetOf(bs, pos) < bs
  {
    IndexOfStart(bs, n, pos);
    CapacityBound(bs, n);
  }

  /** A position before the end of an open list lies in one of its blocks, before off in the last one. */
  lemma BeforeEnd(mem: Memory, bs: u32, blocks: seq<nat>, block: nat, pos: nat, off: nat, p: nat)
    requires IsOpen(mem, bs, blocks, block, pos, off) && p < pos
    ensures 0 <= Index(bs, p) < |blocks|
    ensures 0 <= OffsetOf(bs, p) < bs
    ensures Index(bs, p) == |blocks| - 1 ==> OffsetOf(bs, p) < off
  {
    IndexLocates(bs, p);
    var n := Index(bs, p);
    if n >= |blocks| {
      IndexMono(bs, p, pos);
      StartIncreasing(bs, |blocks|, n);
    }
    StartIncreasing(bs, n, |blocks| - 1);
    PositionInBlock(bs, n, p);
  }

  /** Programming data at the end of an open list appends it to the content and keeps the list. */
  lemma ProgramAppends(mem: Memory, mem': Memory, bs: u32, blocks: seq<nat>, block: nat, pos: nat, off: nat,
                       data: seq<Byte>)
    requires IsOpen(mem, bs, blocks, block, pos, off)
    requires off + |data| <= bs && pos + |data| < WORD
    requires mem' == mem[block := Patch(mem[block], off, data)]
    ensures IsOpen(mem', bs, blocks, block, pos + |data|, off + |data|)
    ensures Content(mem', bs, blocks, pos + |data|) == Content(mem, bs, blocks, pos) + data
  {
    var n := |blocks| - 1;
    CapacityBound(bs, n);
    forall i, k: nat | 0 < i < |blocks| && k <= Ctz(i) ensures PointerOk(mem', bs, blocks, i, k) {
      assert PointerOk(mem, bs, blocks, i, k);
    }
    forall p | 0 <= p < pos + |data|
      ensures ByteAt(mem', bs, blocks, p) == (Content(mem, bs, blocks, pos) + data)[p]
    {
      if p < pos {
        BeforeEnd(mem, bs, blocks, block, pos, off, p);
      } else {
        PositionInBlock(bs, n, p);
      }
    }
  }

  lemma ContentSplits(mem: Memory, bs: u32, blocks: seq<nat>, pos: nat, size: nat)
    requires bs > 8 && pos <= size
    ensures Content(mem, bs, blocks, size) == Content(mem, bs, blocks, pos) + Rest(Content(mem, bs, blocks, size), pos)
  {
    hide ByteAt;
  }

  /** Blocks outside the list do not matter to its content. */
  lemma ContentFrame(mem: Memory, mem': Memory, bs: u32, blocks: seq<nat>, size: nat)
    requires bs > 8 && |mem| == |mem'|
    requires forall i :: 0 <= i < |blocks| && blocks[i] < |mem| ==> mem'[blocks[i]] == mem[blocks[i]]
    ensures Content(mem', bs, blocks, size) == Content(mem, bs, blocks, size)
  {
    forall p | 0 <= p < size ensures ByteAt(mem', bs, blocks, p) == ByteAt(mem, bs, blocks, p) {
    }
  }

  /** Starting over in a new block that copies the front of block n keeps the content before pos. */
  lemma CopiedOpens(mem: Memory, mem': Memory, bs: u32, blocks: seq<nat>, n: nat, nblock: nat, pos: nat, off: nat)
    requires IsList(mem, bs, blocks) && n < |blocks| && Shape(mem', bs) && |mem'| == |mem|
    requires nblock < |mem| && forall i :: 0 <= i < |blocks| ==> blocks[i] != nblock
    requires forall b :: 0 <= b < |mem| && b != nblock ==> mem'[b] == mem[b]
    requires Start(bs, n) < pos <= Start(bs, n + 1) && pos < WORD
    requires off == pos - Start(bs, n) + PointerBytes(n) <= bs
    requires mem'[nblock][..off] == mem[blocks[n]][..off] && BlankFrom(mem'[nblock], off)
    ensures IsOpen(mem', bs, blocks[..n] + [nblock], nblock, pos, off)
    ensures Content(mem', bs, blocks[..n] + [nblock], pos) == Content(mem, bs, blocks, pos)
  {
    var blocks' := blocks[..n] + [nblock];
    StartIncreasing(bs, n, |blocks| - 1);
    CapacityBound(bs, n);
    forall i, k: nat | 0 < i < |blocks'| && k <= Ctz(i) ensures PointerOk(mem', bs, blocks', i, k) {
      assert PointerOk(mem, bs, blocks, i, k);
      if i == n {
        SamePrefixWord(mem[blocks[n]], mem'[nblock], off, k);
      }
    }
    assert IsOpen(mem', bs, blocks', nblock, pos, off);
    forall p | 0 <= p < pos ensures ByteAt(mem', bs, blocks', p) == ByteAt(mem, bs, blocks, p) {
      BeforeEnd(mem', bs, blocks', nblock, pos, off, p);
      if Index(bs, p) == n {
        var o := OffsetOf(bs, p);
        assert mem'[nblock][..off][o] == mem[blocks[n]][..off][o];
      }
    }
  }

  lemma SamePrefixWord(s: seq<Byte>, t: seq<Byte>, off: nat, k: nat)
    requires off <= |s| && off <= |t| && s[..off] == t[..off] && 4 * k + 4 <= off
    ensures Word(s, k) == Word(t, k)
  {
    forall i | 4 * k <= i < 4 * k + 4 ensures s[i] == t[i] {
      assert s[..off][i] == t[..off][i];
    }
  }

  /** Adding a block whose pointers were followed from the old head keeps the list and the content. */
  lemma AppendedOpens(mem: Memory, mem': Memory, bs: u32, blocks: seq<nat>, nblock: nat, pos: nat)
    requires IsList(mem, bs, blocks) && Shape(mem', bs) && |mem'| == |mem|
    requires nblock < |mem| && forall i :: 0 <= i < |blocks| ==> blocks[i] != nblock
    requires forall b :: 0 <= b < |mem| && b != nblock ==> mem'[b] == mem[b]
    requires pos == Start(bs, |blocks|) < WORD
    requires PointersFrom(mem', bs, blocks, nblock, Ctz(|blocks|) + 1)
    requires BlankFrom(mem'[nblock], PointerBytes(|blocks|))
    ensures IsOpen(mem', bs, blocks + [nblock], nblock, pos, PointerBytes(|blocks|))
    ensures Content(mem', bs, blocks + [nblock], pos) == Content(mem, bs, blocks, pos)
  {
    AppendedIsList(mem, mem', bs, blocks, nblock, pos);
    CapacityBound(bs, |blocks|);
    forall p | 0 <= p < pos ensures ByteAt(mem', bs, blocks + [nblock], p) == ByteAt(mem, bs, blocks, p) {
      BeforeStart(bs, |blocks|, p);
    }
  }

  lemma BeforeStart(bs: u32, n: nat, p: nat)
    requires InReach(bs, n + 1) && p < Start(bs, n)
    ensures 0 <= Index(bs, p) < n
  {
    IndexLocates(bs, p);
    if Index(bs, p) >= n {
      IndexMono(bs, p, Start(bs, n));
      CapacityBound(bs, n);
      IndexOfStart(bs, n, Start(bs, n));
    }
  }

  lemma AppendedIsList(mem: Memory, mem': Memory, bs: u32, blocks: seq<nat>, nblock: nat, pos: nat)
    requires IsList(mem, bs, blocks) && Shape(mem', bs) && |mem'| == |mem|
    requires nblock < |mem| && forall i :: 0 <= i < |blocks| ==> blocks[i] != nblock
    requires forall b :: 0 <= b < |mem| && b != nblock ==> mem'[b] == mem[b]
    requires pos == Start(bs, |blocks|) < WORD
    requires PointersFrom(mem', bs, blocks, nblock, Ctz(|blocks|) + 1)
    ensures IsList(mem', bs, blocks + [nblock])
  {
    hide Word, Pow2, Ctz;
    var blocks' := blocks + [nblock];
    forall i, k: nat | 0 < i < |blocks'| && k <= Ctz(i) ensures PointerOk(mem', bs, blocks', i, k) {
      if i < |blocks| {
        assert PointerOk(mem, bs, blocks, i, k);
      }
    }
  }

  /** The first m pointers of nblock, the block about to follow the list, are in place. */
  predicate PointersFrom(mem: Memory, bs: u32, blocks: seq<nat>, nblock: nat, m: nat)
    requires Shape(mem, bs) && nblock < |mem|
  {
    4 * m <= bs &&
    forall k: nat | k < m :: Pow2(k) <= |blocks| && Word(mem[nblock], k) == blocks[|blocks| - Pow2(k)]
  }

  /**
   * The allocator as lfs_file_flushedwrite uses it. Acknowledging first, and letting the traversal report exactly the
   * blocks in use, makes it keep the contract of Disk.Alloc: no space is reported only if there is none.
   */
  method AckThenAlloc(free: Allocator.Free, trav: seq<nat>, fails: bool, ghost used: set<nat>)
    returns (r: Allocator.Result)
    requires free.Valid() && free.reach == used && (forall b :: b in trav <==> b in used)
    requires forall b :: b in used ==> b < free.n
    modifies free, free.buffer
    ensures free.Valid() && free.reach == old(free.reach)
    ensures r.Block? ==> r.b < free.n && r.b !in used && free.inflight == {r.b}
    ensures r.NoSpace? ==> free.inflight == {} && forall b :: 0 <= b < free.n ==> b in used
    ensures r.TraverseError? <==> fails && old(free.i) == old(free.size)
    ensures r.TraverseError? ==> free.inflight == {}
  {
    hide Allocator.Free.Sound, Allocator.Free.Valid, Allocator.Free.Examined, Allocator.Free.WindowIs;
    hide Allocator.Around, Allocator.Marks, Allocator.Skipped, Allocator.Stretch, Allocator.NextFree;
    hide Allocator.Free.Exhausted;
    free.Ack();
    if free.Exhausted(trav) {
      free.NoSpaceMeans(trav);
    }
    r := free.Alloc(trav, fails);
  }

  /** The blocks of a device and the set of blocks that are in use, as the allocator's traversal reports them. */
  class Disk {
    const bs: BlockSize
    var mem: Memory
    var used: set<nat>

    constructor (bs: BlockSize, mem: Memory, used: set<nat>)
      requires Shape(mem, bs)
      ensures this.bs == bs && this.mem == mem && this.used == used
    {
      this.bs, this.mem, this.used := bs, mem, used;
    }

    /**
     * Stands for lfs_alloc directly after lfs_alloc_ack, as lfs_file_flushedwrite calls them (lfs.c:3479): a block
     * that is not in use, or no space if there is none. AckThenAlloc shows that the allocator does that.
     */
    method Alloc() returns (r: Option<nat>)
      requires Shape(mem, bs)
      modifies `used
      ensures r.Some? ==> r.value < |mem| && r.value !in old(used) && used == old(used) + {r.value}
      ensures r.None? ==> used == old(used) && forall b :: 0 <= b < |mem| ==> b in used
    {
      var free := set b: nat | b < |mem| && b !in used;
      assert forall b: nat :: b < |mem| && b !in used ==> b in free;
      if free == {} {
        return None;
      }
      var b :| b in free;
      used := used + {b};
      return Some(b);
    }

    method Erase(b: nat)
      requires Shape(mem, bs) && b < |mem|
      modifies `mem
      ensures mem == old(mem)[b := seq(bs, _ => BLANK)] && Shape(mem, bs)
    {
      mem := mem[b := seq(bs, _ => BLANK)];
    }

    /** Programs bytes that have been blank since the last erase. */
    method Prog(b: nat, off: nat, data: seq<Byte>)
      requires Shape(mem, bs) && b < |mem| && off + |data| <= bs
      requires forall i :: off <= i < off + |data| ==> mem[b][i] == BLANK
      modifies `mem
      ensures mem == old(mem)[b := Patch(old(mem[b]), off, data)] && Shape(mem, bs)
    {
      mem := mem[b := Patch(mem[b], off, data)];
    }

    /**
     * lfs_ctz_extend: a new block that continues the first size bytes of the list. An incomplete last
     * block is copied; after a complete one the new block gets its pointers. No block in use is touched.
     */
    method Extend(head: u32, size: u32, ghost blocks: seq<nat>)
      returns (ok: bool, block: u32, off: u32, ghost blocks': seq<nat>)
      requires Shape(mem, bs)
      requires size > 0 ==> IsList(mem, bs, blocks) && 0 <= Index(bs, size - 1) < |blocks|
                            && head == blocks[Index(bs, size - 1)]
                            && forall i :: 0 <= i < |blocks| ==> blocks[i] in used
      modifies this
      ensures Shape(mem, bs) && |mem| == |old(mem)| && old(used) <= used
      ensures forall b :: 0 <= b < |mem| && b in old(used) ==> mem[b] == old(mem[b])
      ensures !ok ==> mem == old(mem) && forall b :: 0 <= b < |mem| ==> b in used
      ensures ok ==> IsOpen(mem, bs, blocks', block, size, off) && off < bs
                     && block !in old(used) && used == old(used) + {block}
                     && (forall i :: 0 <= i < |blocks'| ==> blocks'[i] in used)
                     && Content(mem, bs, blocks', size) == Content(old(mem), bs, blocks, size)
    {
      var r := Alloc();
      if r.None? {
        return false, 0, 0, [];
      }
      var nblock := r.value;
      block := nblock;
      Erase(nblock);
      if size == 0 {
        off, blocks' := 0, [nblock];
        FirstBlock(mem, bs, nblock);
        return true, block, off, blocks';
      }
      ListFrame(old(mem), mem, bs, blocks);
      ContentFrame(old(mem), mem, bs, blocks, size);
      off, blocks' := Continue(nblock, head, size, blocks);
      ok := true;
    }

    /** The part of lfs_ctz_extend that fills the erased block nblock. */
    method Continue(nblock: u32, head: u32, size: u32, ghost blocks: seq<nat>)
      returns (off: u32, ghost blocks': seq<nat>)
      requires size > 0 && IsList(mem, bs, blocks) && 0 <= Index(bs, size - 1) < |blocks|
      requires head == blocks[Index(bs, size - 1)]
      requires nblock < |mem| && BlankFrom(mem[nblock], 0) && nblock !in blocks
      modifies `mem
      ensures Shape(mem, bs) && |mem| == |old(mem)|
      ensures forall b :: 0 <= b < |mem| && b != nblock ==> mem[b] == old(mem[b])
      ensures IsOpen(mem, bs, blocks', nblock, size, off) && off < bs
      ensures forall i :: 0 <= i < |blocks'| ==> blocks'[i] == nblock || blocks'[i] in blocks
      ensures Content(mem, bs, blocks', size) == Content(old(mem), bs, blocks, size)
    {
      assert Shape(mem, bs) && head < |mem| && forall i :: 0 <= i < |blocks| ==> blocks[i] != nblock;
      hide IsList, IsOpen, Content, Start, PointerBytes;
      var index, noff := LfsCtzIndex(bs, size - 1);
      noff := noff + 1;
      TailPosition(bs, size, index, noff);
      if noff != bs {
        CopyFront(head, nblock, noff);
        CopiedOpens(old(mem), mem, bs, blocks, index, nblock, size, noff);
        blocks' := blocks[..index] + [nblock];
        return noff, blocks';
      }
      off, blocks' := AppendBlock(nblock, head, index + 1, blocks, size);
    }

    /** The part of lfs_ctz_extend that adds block number n after a complete block. */
    method AppendBlock(nblock: u32, head: u32, n: nat, ghost blocks: seq<nat>, ghost size: nat)
      returns (off: u32, ghost blocks': seq<nat>)
      requires IsList(mem, bs, blocks) && 0 < n <= |blocks| && head == blocks[n - 1]
      requires size == Start(bs, n) < WORD
      requires nblock < |mem| && BlankFrom(mem[nblock], 0) && nblock !in blocks
      modifies `mem
      ensures Shape(mem, bs) && |mem| == |old(mem)|
      ensures forall b :: 0 <= b < |mem| && b != nblock ==> mem[b] == old(mem[b])
      ensures IsOpen(mem, bs, blocks', nblock, size, off) && off < bs
      ensures forall i :: 0 <= i < |blocks'| ==> blocks'[i] == nblock || blocks'[i] in blocks
      ensures Content(mem, bs, blocks', size) == Content(old(mem), bs, blocks, size)
    {
      ghost var prefix := blocks[..n];
      PrefixIsList(mem, bs, blocks, n);
      CapacityBound(bs, n);
      WritePointers(head, nblock, n, prefix);
      AppendedOpens(old(mem), mem, bs, prefix, nblock, size);
      PrefixContent(old(mem), bs, blocks, n, size);
      blocks' := prefix + [nblock];
      off := 4 * (Ctz(n) + 1);
    }

    /** Copies the first n bytes of one block to another, blank one. */
    method CopyFront(from: nat, to: nat, n: nat)
      requires Shape(mem, bs) && from < |mem| && to < |mem| && from != to && n <= bs
      requires BlankFrom(mem[to], 0)
      modifies `mem
      ensures Shape(mem, bs) && |mem| == |old(mem)|
      ensures forall b :: 0 <= b < |mem| && b != to ==> mem[b] == old(mem[b])
      ensures mem[to][..n] == mem[from][..n] && BlankFrom(mem[to], n)
    {
      var i := 0;
      while i < n
        invariant 0 <= i <= n && Shape(mem, bs) && |mem| == |old(mem)|
        invariant forall b :: 0 <= b < |mem| && b != to ==> mem[b] == old(mem[b])
        invariant forall j :: 0 <= j < i ==> mem[to][j] == mem[from][j]
        invariant BlankFrom(mem[to], i)
      {
        Prog(to, i, [mem[from][i]]);
        i := i + 1;
      }
    }

    /** Writes the pointers of block number n by following those of the blocks before it. */
    method WritePointers(head: nat, to: nat, n: nat, ghost blocks: seq<nat>)
      requires IsList(mem, bs, blocks) && n == |blocks| && head == blocks[n - 1] && InReach(bs, n + 1)
      requires to < |mem| && forall i :: 0 <= i < n ==> blocks[i] != to
      requires BlankFrom(mem[to], 0)
      modifies `mem
      ensures Shape(mem, bs) && |mem| == |old(mem)|
      ensures forall b :: 0 <= b < |mem| && b != to ==> mem[b] == old(mem[b])
      ensures PointersFrom(mem, bs, blocks, to, Ctz(n) + 1) && BlankFrom(mem[to], 4 * (Ctz(n) + 1))
    {
      hide IsList, InReach, Start, PointersFrom, BlankFrom, Ctz, Pow2, Word;
      PointersBegin(mem, bs, blocks, to);
      var skips := Ctz(n) + 1;
      var nhead := head;
      var i := 0;
      while i < skips
        invariant 0 <= i <= skips && Shape(mem, bs) && OthersKept(old(mem), mem, to)
        invariant i < skips ==> Pow2(i) <= n && nhead == blocks[n - Pow2(i)]
        invariant PointersFrom(mem, bs, blocks, to, i) && BlankFrom(mem[to], 4 * i)
      {
        WritePointer(nhead, to, i, blocks);
        if i != skips - 1 {
          NextHead(old(mem), mem, bs, blocks, to, i);
          nhead := Word(mem[nhead], i);
        }
        i := i + 1;
      }
    }

    lemma PointersBegin(mem: Memory, bs: u32, blocks: seq<nat>, to: nat)
      requires IsList(mem, bs, blocks) && InReach(bs, |blocks| + 1) && to < |mem|
      ensures |blocks| > 0
      ensures Shape(mem, bs) && forall i :: 0 <= i < |blocks| ==> blocks[i] < |mem|
      ensures PointersFrom(mem, bs, blocks, to, 0) && OthersKept(mem, mem, to)
      ensures Pow2(0) == 1 && 4 * (Ctz(|blocks|) + 1) <= bs
      ensures Pow2(Ctz(|blocks|)) <= |blocks|
    {
      CapacityBound(bs, |blocks|);
      CtzFactor(|blocks|);
    }

    method WritePointer(w: u32, to: nat, i: nat, ghost blocks: seq<nat>)
      requires Shape(mem, bs) && to < |mem| && 4 * i + 4 <= bs
      requires PointersFrom(mem, bs, blocks, to, i) && BlankFrom(mem[to], 4 * i)
      requires Pow2(i) <= |blocks| && w == blocks[|blocks| - Pow2(i)]
      modifies `mem
      ensures Shape(mem, bs) && OthersKept(old(mem), mem, to)
      ensures PointersFrom(mem, bs, blocks, to, i + 1) && BlankFrom(mem[to], 4 * i + 4)
    {
      Prog(to, 4 * i, Encode(w));
      PointerWritten(old(mem), mem, bs, blocks, to, i, w);
    }
  }

  ghost predicate OthersKept(mem: Memory, mem': Memory, to: nat) {
    |mem'| == |mem| && forall b :: 0 <= b < |mem| && b != to ==> mem'[b] == mem[b]
  }

  /** Where the last byte of a file of size bytes lies, and where the next one goes. */
  lemma TailPosition(bs: u32, size: u32, n: nat, off: nat)
    requires bs >= 128 && size > 0 && off > 0
    requires n == Index(bs, size - 1) && Locates(bs, size - 1, n, off - 1)
    ensures Start(bs, n) < size <= Start(bs, n + 1)
    ensures off == size - Start(bs, n) + PointerBytes(n) <= bs
    ensures off == bs ==> size == Start(bs, n + 1)
    ensures InReach(bs, n + 1)
  {
    CapacityBound(bs, n);
  }

  lemma FirstBlock(mem: Memory, bs: u32, block: nat)
    requires Shape(mem, bs) && block < |mem| && BlankFrom(mem[block], 0)
    ensures IsOpen(mem, bs, [block], block, 0, 0)
    ensures Content(mem, bs, [block], 0) == []
  {
    assert Start(bs, 1) == Start(bs, 0) + Capacity(bs, 0);
  }

  lemma PrefixContent(mem: Memory, bs: u32, blocks: seq<nat>, n: nat, size: nat)
    requires IsList(mem, bs, blocks) && 0 < n <= |blocks|
    requires size == Start(bs, n) < WORD && InReach(bs, n + 1)
    ensures Content(mem, bs, blocks[..n], size) == Content(mem, bs, blocks, size)
  {
    forall p | 0 <= p < size ensures ByteAt(mem, bs, blocks[..n], p) == ByteAt(mem, bs, blocks, p) {
      BeforeStart(bs, n, p);
    }
  }

  lemma NextPointer(n: nat, i: nat)
    requires n > 0 && i < Ctz(n)
    ensures Pow2(i) < n && Ctz(n - Pow2(i)) >= i && Pow2(i + 1) <= n && Pow2(i) + Pow2(i) == Pow2(i + 1)
  {
    CtzFactor(n);
    Pow2Mono(i, Ctz(n));
    MultipleOfSmaller(n, i, Ctz(n));
    MultipleMinus(n, Pow2(i));
    CtzAtLeast(n - Pow2(i), i);
  }

  /** From the block 2^i before the end of the list, its pointer i leads to the one 2^(i+1) before the end. */
  lemma NextHead(mem: Memory, mem': Memory, bs: u32, blocks: seq<nat>, to: nat, i: nat)
    requires IsList(mem, bs, blocks) && OthersKept(mem, mem', to) && to !in blocks && i < Ctz(|blocks|)
    requires Shape(mem', bs)
    ensures Pow2(i) <= |blocks| && Pow2(i + 1) <= |blocks| && 4 * i + 4 <= bs
    ensures var h := blocks[|blocks| - Pow2(i)];
            h < |mem'| && Word(mem'[h], i) == blocks[|blocks| - Pow2(i + 1)]
  {
    NextPointer(|blocks|, i);
    FollowPointer(mem, bs, blocks, |blocks| - Pow2(i), i);
  }

  lemma FollowPointer(mem: Memory, bs: u32, blocks: seq<nat>, i: nat, k: nat)
    requires IsList(mem, bs, blocks) && 0 < i < |blocks| && k <= Ctz(i)
    ensures blocks[i] < |mem| && |mem[blocks[i]]| == bs && 4 * k + 4 <= bs && Pow2(k) <= i
    ensures Word(mem[blocks[i]], k) == blocks[i - Pow2(k)]
  {
    assert PointerOk(mem, bs, blocks, i, k);
  }

  lemma PointerWritten(mem: Memory, mem': Memory, bs: u32, blocks: seq<nat>, to: nat, m: nat, w: u32)
    requires Shape(mem, bs) && to < |mem| && PointersFrom(mem, bs, blocks, to, m) && 4 * m + 4 <= bs
    requires mem' == mem[to := Patch(mem[to], 4 * m, Encode(w))]
    requires Pow2(m) <= |blocks| && w == blocks[|blocks| - Pow2(m)]
    ensures Shape(mem', bs) && PointersFrom(mem', bs, blocks, to, m + 1)
  {
    forall k: nat | k < m + 1 ensures Word(mem'[to], k) == if k < m then Word(mem[to], k) else w {
      PatchedWord(mem[to], m, w, k);
    }
  }

  lemma PatchedWord(block: seq<Byte>, m: nat, w: u32, k: nat)
    requires 4 * m + 4 <= |block| && k <= m
    ensures Word(Patch(block, 4 * m, Encode(w)), k) == if k < m then Word(block, k) else w
  {
    if k == m {
      SameBytes(Patch(block, 4 * m, Encode(w)), m, Encode(w), 0);
    } else {
      SameBytes(Patch(block, 4 * m, Encode(w)), k, block, k);
    }
  }

  lemma SameBytes(s: seq<Byte>, j: nat, t: seq<Byte>, k: nat)
    requires 4 * j + 4 <= |s| && 4 * k + 4 <= |t|
    requires s[4 * j..4 * j + 4] == t[4 * k..4 * k + 4]
    ensures Word(s, j) == Word(t, k)
  {
    var u, v := s[4 * j..4 * j + 4], t[4 * k..4 * k + 4];
    assert u[0] == v[0] && u[1] == v[1] && u[2] == v[2] && u[3] == v[3];
  }

  datatype Status = Ok | NoSpace | TooBig

  datatype Whence = FromStart | FromHere | FromEnd

  /** What 32 bits mean as a signed number. */
  function Signed(n: int): (r: int) {
    (n + WORD / 2) % WORD - WORD / 2
  }

  /** A sum that wraps becomes negative; one that does not is itself. */
  lemma SignedSum(base: nat, off: int)
    requires base < 0x8000_0000 && -0x8000_0000 <= off < 0x8000_0000
    ensures base + off < 0x8000_0000 ==> Signed(base + off) == base + off
    ensures base + off >= 0x8000_0000 ==> Signed(base + off) < 0
    ensures (base + off) % WORD == if base + off < 0 then base + off + WORD else base + off
  {
  }

  /** An open file with its data in a skip list (not inline). */
  class File {
    const disk: Disk
    const fileMax: u32
    var head: u32   // last block of the committed list
    var size: u32
    var pos: u32
    var block: u32  // last block of the list under construction, while writing
    var off: u32
    var writing: bool

    ghost var list: seq<nat>   // blocks of the committed list
    ghost var wlist: seq<nat>  // blocks of the list under construction

    constructor (disk: Disk, fileMax: u32, head: u32, size: u32, ghost list: seq<nat>)
      requires IsClosed(disk.mem, disk.bs, list, head, size)
      requires size <= fileMax < WORD - 1 && forall i :: 0 <= i < |list| ==> list[i] in disk.used
      ensures Valid() && this.disk == disk && !writing && pos == 0
      ensures Logical() == Content(disk.mem, disk.bs, list, size)
    {
      this.disk, this.fileMax, this.head, this.size := disk, fileMax, head, size;
      this.list, this.wlist := list, [];
      pos, block, off, writing := 0, BLOCK_NULL, 0, false;
    }

    ghost predicate Valid()
      reads this, disk
    {
      Ready() && (writing ==> Start(disk.bs, |wlist| - 1) < pos)
    }

    /** Like Valid, but the list under construction may just have got a block with no data in it. */
    ghost predicate Ready()
      reads this, disk
    {
      && IsClosed(disk.mem, disk.bs, list, head, size)
      && size <= fileMax && pos <= fileMax < WORD - 1
      && (forall i :: 0 <= i < |list| ==> list[i] in disk.used)
      && (writing ==> IsOpen(disk.mem, disk.bs, wlist, block, pos, off)
                      && block !in list
                      && (forall i :: 0 <= i < |wlist| ==> wlist[i] in disk.used))
    }

    /** The bytes a reader sees once everything written is flushed. */
    ghost function Logical(): (r: seq<Byte>)
      reads this, disk
    {
      if writing then Content(disk.mem, disk.bs, wlist, pos) + Rest(Committed(), pos) else Committed()
    }

    /** The bytes of the committed list. */
    ghost function Committed(): (r: seq<Byte>)
      reads this, disk
    {
      Content(disk.mem, disk.bs, list, size)
    }

    /** The block that may be programmed in place, if any. */
    ghost function Own(): (r: int)
      reads this
    {
      if writing then block else -1
    }

    /** lfs_file_flushedwrite, for a position not past the end of the file. */
    method FlushedWrite(data: seq<Byte>) returns (status: Status)
      requires Valid() && pos + |data| <= fileMax && (!writing ==> pos <= size)
      modifies this, disk
      ensures Valid() && Preserves(old(disk.mem), disk.mem, old(disk.used), old(Own())) && old(disk.used) <= disk.used
      ensures Own() == old(Own()) || Own() !in old(disk.used)
      ensures list == old(list) && head == old(head) && size == old(size)
      ensures old(pos) <= pos && (!writing ==> pos <= size)
      ensures Committed() == old(Committed())
      ensures status == Ok || status == NoSpace
      ensures old(writing) ==> writing
      ensures status == Ok ==> Front() == old(Front()) + data && writing == (old(writing) || |data| > 0)
    {
      hide Valid, Start, PointerBytes, Index, Shape, IsList, IsFile, IsOpen, IsClosed, Content, Front, Committed;
      var done: nat := 0;
      while done < |data|
        invariant Valid() && Preserves(old(disk.mem), disk.mem, old(disk.used), old(Own()))
        invariant old(disk.used) <= disk.used
        invariant Own() == old(Own()) || Own() !in old(disk.used)
        invariant list == old(list) && head == old(head) && size == old(size)
        invariant done <= |data| && pos == old(pos) + done
        invariant if done == 0 then writing == old(writing) else writing
        invariant Front() == old(Front()) + data[..done]
        invariant Committed() == old(Committed())
      {
        label round:
        var n := WriteChunk(data[done..]);
        PreservesBoth(old(disk.mem), old@round(disk.mem), disk.mem, old(disk.used), old@round(disk.used),
                      old(Own()), old@round(Own()));
        if n == 0 {
          return NoSpace;
        }
        assert data[..done + n] == data[..done] + data[done..][..n];
        done := done + n;
      }
      assert data[..done] == data;
      status := Ok;
    }

    /** The content in front of the current position. */
    ghost function Front(): (s: seq<Byte>)
      reads this, disk
      ensures |s| == pos
    {
      if writing then Content(disk.mem, disk.bs, wlist, pos) else Content(disk.mem, disk.bs, list, pos)
    }

    /** One round of the loop of lfs_file_flushedwrite; answers how much it wrote, 0 for no space. */
    method WriteChunk(data: seq<Byte>) returns (n: nat)
      requires Valid() && |data| > 0 && pos + |data| <= fileMax && (!writing ==> pos <= size)
      modifies this, disk
      ensures Valid() && Preserves(old(disk.mem), disk.mem, old(disk.used), old(Own())) && old(disk.used) <= disk.used
      ensures Own() == old(Own()) || Own() !in old(disk.used)
      ensures list == old(list) && head == old(head) && size == old(size)
      ensures n <= |data| && pos == old(pos) + n
      ensures if n == 0 then writing == old(writing) else writing
      ensures Front() == old(Front()) + data[..n] && Committed() == old(Committed())
    {
      if !writing || off == disk.bs {
        var ok := NewBlock();
        if !ok {
          return 0;
        }
      }
      n := if |data| <= disk.bs - off then |data| else disk.bs - off;
      label made:
      ProgramHere(data[..n]);
      PreservesBoth(old(disk.mem), old@made(disk.mem), disk.mem, old(disk.used), old@made(disk.used),
                    old(Own()), block);
    }

    /** lfs_file_flush: copies what follows the written part, then makes the new list the committed one. */
    method Flush() returns (status: Status)
      requires Valid()
      modifies this, disk
      ensures Valid() && Preserves(old(disk.mem), disk.mem, old(disk.used), old(Own())) && old(disk.used) <= disk.used
      ensures status == Ok ==> !writing && pos == old(pos)
                               && Committed() == old(Logical()) && Logical() == old(Logical())
      ensures status == Ok && !old(writing) ==> list == old(list) && head == old(head) && size == old(size)
      ensures status != Ok ==> status == NoSpace && Committed() == old(Committed())
                               && list == old(list) && head == old(head) && size == old(size)
    {
      hide Content, IsList, IsOpen, IsFile, IsClosed, Start, PointerBytes, Index, Shape;
      if !writing {
        return Ok;
      }
      var saved := pos;
      status := CopyRest();
      if status != Ok {
        return status;
      }
      CloseOpen(disk.mem, disk.bs, wlist, block, pos, off);
      head, size, writing, list := block, pos, false, wlist;
      pos := saved;
    }

    /** The copy loop of lfs_file_flush: everything after the position goes to the list under construction. */
    method CopyRest() returns (status: Status)
      requires Valid() && writing
      modifies this, disk
      ensures Valid() && writing && Preserves(old(disk.mem), disk.mem, old(disk.used), old(Own()))
      ensures old(disk.used) <= disk.used
      ensures list == old(list) && head == old(head) && size == old(size)
      ensures Committed() == old(Committed()) && (status == Ok || status == NoSpace)
      ensures status == Ok ==> pos >= size && pos >= old(pos) && Front() == old(Logical())
    {
      LogicalParts();
      var orig := new Reader(disk.mem, disk.bs, head, size, pos, list);
      hide Valid, Start, PointerBytes, Index, Shape, IsList, IsFile, IsOpen, IsClosed, Content;
      hide Front, Logical, Committed;
      while pos < size
        invariant Valid() && writing && Preserves(old(disk.mem), disk.mem, old(disk.used), old(Own()))
        invariant old(disk.used) <= disk.used
        invariant Own() == old(Own()) || Own() !in old(disk.used)
        invariant list == old(list) && head == old(head) && size == old(size) && pos >= old(pos)
        invariant Committed() == old(Committed())
        invariant Front() + Rest(Committed(), pos) == old(Logical())
        invariant fresh(orig) && orig.head == head && orig.size == size && orig.list == list && orig.pos == pos
        invariant orig.Follows(disk.mem, disk.bs)
        decreases size - pos
      {
        label round:
        status := CopyByte(orig);
        PreservesBoth(old(disk.mem), old@round(disk.mem), disk.mem, old(disk.used), old@round(disk.used),
                      old(Own()), old@round(Own()));
        if status != Ok {
          return status;
        }
      }
      status := Ok;
    }

    /** Copies one byte from the committed list. */
    method CopyByte(orig: Reader) returns (status: Status)
      requires Valid() && writing && pos < size
      requires orig.head == head && orig.size == size && orig.list == list && orig.pos == pos
      requires orig.Follows(disk.mem, disk.bs)
      modifies this, disk, orig
      ensures Valid() && writing && Preserves(old(disk.mem), disk.mem, old(disk.used), old(Own()))
      ensures old(disk.used) <= disk.used && (Own() == old(Own()) || Own() !in old(disk.used))
      ensures list == old(list) && head == old(head) && size == old(size)
      ensures Committed() == old(Committed()) && (status == Ok || status == NoSpace)
      ensures status == Ok ==> orig.head == head && orig.size == size && orig.list == list && orig.pos == pos
      ensures status == Ok ==> orig.Follows(disk.mem, disk.bs) && pos == old(pos) + 1
      ensures status == Ok ==> Front() + Rest(Committed(), pos) == old(Front() + Rest(Committed(), pos))
    {
      assert pos + 1 <= fileMax && Committed() == Content(disk.mem, disk.bs, list, size);
      hide Valid, Committed, Front, Content, Index, Start, IsList, IsClosed;
      ghost var committed := Committed();
      var data := orig.Read(disk.mem, disk.bs, 1);
      assert data == committed[pos..pos + 1];
      RestStep(Front(), committed, pos, data);
      status := FlushedWrite(data);
      KeepFollowing(orig, old(disk.mem));
    }

    /** The reader of the committed list is not disturbed by writes elsewhere. */
    lemma KeepFollowing(orig: Reader, mem: Memory)
      requires Valid() && orig.Follows(mem, disk.bs) && |mem| == |disk.mem|
      requires orig.list == list && orig.head == head && orig.size == size
      ensures orig.Follows(disk.mem, disk.bs)
    {
    }

    lemma LogicalParts()
      requires Ready() && (!writing ==> pos <= size)
      ensures Logical() == Front() + Rest(Committed(), pos)
      ensures pos <= |Logical()|
    {
      hide Content, IsOpen, IsClosed;
      if !writing {
        ContentSplits(disk.mem, disk.bs, list, pos, size);
      }
    }

    /** Where a write begins: in append mode not before the end of the file. */
    function WriteStart(append: bool): (r: u32)
      requires size < WORD && pos < WORD
      reads this
    {
      if append && pos < size then size else pos
    }

    /**
     * lfs_file_rawwrite: a gap between the end of the file and the position is filled with zeros first. The number of
     * bytes is also the result, a signed 32-bit number, so it is below 2^31. A file that is always written in append
     * mode is never in the middle of writing before its end.
     */
    method RawWrite(data: seq<Byte>, append: bool) returns (status: Status)
      requires Valid() && |data| < WORD / 2 && fileMax < WORD / 2
      requires append && writing ==> size <= pos
      modifies this, disk
      ensures Valid() && Preserves(old(disk.mem), disk.mem, old(disk.used), old(Own())) && old(disk.used) <= disk.used
      ensures list == old(list) && head == old(head) && size == old(size) && Committed() == old(Committed())
      ensures append && writing ==> size <= pos
      ensures status == TooBig <==> old(WriteStart(append)) + |data| > fileMax
      ensures status == Ok ==>
                && pos == old(WriteStart(append)) + |data|
                && Logical() == Overwrite(old(Logical()), old(WriteStart(append)), data)
      ensures status == TooBig ==> pos == old(WriteStart(append)) && Logical() == old(Logical())
    {
      hide Start, PointerBytes, Index, Content, IsList, IsOpen, IsFile, IsClosed, Overwrite;
      pos := WriteStart(append);
      if pos + |data| > fileMax {
        return TooBig;
      }
      if !writing && pos > size {
        status := FillGap();
        if status != Ok {
          return status;
        }
      }
      label filled:
      status := WriteInside(data);
      PreservesBoth(old(disk.mem), old@filled(disk.mem), disk.mem, old(disk.used), old@filled(disk.used),
                    old(Own()), old@filled(Own()));
      OverwritePadded(old(Logical()), old(WriteStart(append)), data);
    }

    /** A flushed write seen from outside: it overwrites the logical content at the position. */
    method WriteInside(data: seq<Byte>) returns (status: Status)
      requires Valid() && pos + |data| <= fileMax && (!writing ==> pos <= size)
      modifies this, disk
      ensures Valid() && Preserves(old(disk.mem), disk.mem, old(disk.used), old(Own())) && old(disk.used) <= disk.used
      ensures list == old(list) && head == old(head) && size == old(size) && Committed() == old(Committed())
      ensures status == Ok || status == NoSpace
      ensures old(pos) <= pos
      ensures status == Ok ==> pos == old(pos) + |data| && Logical() == Overwrite(old(Logical()), old(pos), data)
    {
      hide Start, PointerBytes, Index, Content, IsList, IsOpen, IsFile, IsClosed;
      LogicalParts();
      status := FlushedWrite(data);
      LogicalParts();
      if status == Ok {
        OverwriteParts(old(Logical()), old(Front()), old(pos), data, Committed());
      }
    }

    /** Writes zeros from the end of the file to the position. */
    method FillGap() returns (status: Status)
      requires Valid() && !writing && pos > size
      modifies this, disk
      ensures Valid() && Preserves(old(disk.mem), disk.mem, old(disk.used), -1) && old(disk.used) <= disk.used
      ensures Own() == -1 || Own() !in old(disk.used)
      ensures list == old(list) && head == old(head) && size == old(size) && Committed() == old(Committed())
      ensures status == Ok || status == NoSpace
      ensures size <= pos && (!writing ==> pos <= size)
      ensures status == Ok ==> pos == old(pos) && Logical() == old(Logical()) + Zeros(old(pos) - size)
    {
      hide Start, PointerBytes, Index, Content, IsList, IsOpen, IsFile, IsClosed;
      var target := pos;
      pos := size;
      while pos < target
        invariant Valid() && Preserves(old(disk.mem), disk.mem, old(disk.used), -1) && old(disk.used) <= disk.used
        invariant Own() == -1 || Own() !in old(disk.used)
        invariant list == old(list) && head == old(head) && size == old(size) && Committed() == old(Committed())
        invariant size <= pos <= target && (!writing ==> pos == size)
        invariant Front() == Committed() + Zeros(pos - size)
        decreases target - pos
      {
        label round:
        status := FlushedWrite([0]);
        PreservesBoth(old(disk.mem), old@round(disk.mem), disk.mem, old(disk.used), old@round(disk.used),
                      -1, old@round(Own()));
        if status != Ok {
          return status;
        }
      }
      LogicalParts();
      status := Ok;
    }

    /** lfs_file_rawsize: the bytes that a reader will see. */
    function RawSize(): (r: u32)
      requires pos < WORD && size < WORD
      reads this
    {
      if writing then (if pos < size then size else pos) else size
    }

    lemma RawSizeIsLogical()
      requires Valid()
      ensures RawSize() == |Logical()|
    {
      hide Content, IsOpen, IsClosed;
    }

    /** Where a seek leads, over unbounded integers. */
    function Target(whence: Whence, off: int): (r: int)
      requires pos < WORD && size < WORD
      reads this
    {
      off + match whence
      case FromStart => 0
      case FromHere => pos
      case FromEnd => RawSize()
    }

    lemma Bounds()
      requires Valid()
      ensures RawSize() <= fileMax && pos <= fileMax
    {
    }

    /** The position that is asked for, computed in signed and unsigned 32-bit numbers. */
    method NewPosition(whence: Whence, off: int) returns (npos: Option<u32>)
      requires Valid() && fileMax < 0x8000_0000 && -0x8000_0000 <= off < 0x8000_0000
      ensures var target := Target(whence, off);
              if 0 <= target <= fileMax then npos == Some(target) else npos.None? || npos.value > fileMax
    {
      hide Signed;
      Bounds();
      match whence
      case FromStart =>
        SignedSum(0, off);
        npos := Some(off % WORD);
      case FromHere =>
        SignedSum(pos, off);
        npos := if Signed(pos + off) < 0 then None else Some((pos + off) % WORD);
      case FromEnd =>
        SignedSum(RawSize(), off);
        npos := if Signed(RawSize() + off) < 0 then None else Some(Signed(RawSize() + off));
    }

    /**
     * lfs_file_rawseek, without its shortcut inside the read cache. The sums are signed 32-bit numbers and wrap; no
     * position that is out of range comes into range by that.
     */
    method Seek(whence: Whence, off: int) returns (status: Status)
      requires Valid() && fileMax < 0x8000_0000 && -0x8000_0000 <= off < 0x8000_0000
      modifies this, disk
      ensures Valid() && Preserves(old(disk.mem), disk.mem, old(disk.used), old(Own())) && old(disk.used) <= disk.used
      ensures old(RawSize()) == |old(Logical())|
      ensures status == TooBig <==> !(0 <= old(Target(whence, off)) <= fileMax)
      ensures status == Ok ==>
                pos == old(Target(whence, off)) && Logical() == old(Logical()) && (pos != old(pos) ==> !writing)
      ensures status != Ok ==> Committed() == old(Committed())
    {
      RawSizeIsLogical();
      var npos := NewPosition(whence, off);
      if npos.None? || npos.value > fileMax {
        return TooBig;
      }
      if pos == npos.value {
        return Ok;
      }
      status := Flush();
      if status == Ok {
        pos := npos.value;
      }
    }

    /** The part of lfs_file_rawtruncate that cuts a file to a smaller size that is still kept in a list. */
    method Shrink(newSize: u32) returns (status: Status)
      requires Valid() && 0 < newSize < |Logical()|
      modifies this, disk
      ensures Valid() && Preserves(old(disk.mem), disk.mem, old(disk.used), old(Own())) && old(disk.used) <= disk.used
      ensures status == Ok ==> !writing && size == newSize && pos == newSize && Logical() == old(Logical())[..newSize]
      ensures status != Ok ==> Committed() == old(Committed())
    {
      status := Flush();
      if status != Ok {
        return status;
      }
      CutTo(newSize);
    }

    method CutTo(newSize: u32)
      requires Valid() && !writing && 0 < newSize < size
      modifies this
      ensures Valid() && !writing && size == newSize && pos == newSize
      ensures Committed() == old(Committed())[..newSize]
    {
      hide Start, PointerBytes, Content, IsList, IsOpen;
      TruncatedIsFile(disk.mem, disk.bs, list, size, newSize);
      TruncatedContent(disk.mem, disk.bs, list, size, newSize);
      var b, o, hops := Find(disk.mem, disk.bs, head, size, newSize - 1, list);
      ghost var cut := list[..Index(disk.bs, newSize - 1) + 1];
      pos, head, size, list := newSize, b, newSize, cut;
    }

    /** Gets the block that the byte at pos goes to: lfs.c:3457-3486. */
    method NewBlock() returns (ok: bool)
      requires Valid() && (!writing ==> pos <= size) && (writing ==> off == disk.bs)
      modifies this, disk
      ensures Ready() && (!ok ==> Valid())
      ensures list == old(list) && head == old(head) && size == old(size) && pos == old(pos)
      ensures Preserves(old(disk.mem), disk.mem, old(disk.used), -1) && old(disk.used) <= disk.used
      ensures ok ==> writing && off < disk.bs && block !in old(disk.used)
      ensures !ok ==> writing == old(writing) && block == old(block)
      ensures Front() == old(Front()) && Committed() == old(Committed())
    {
      var b, o;
      ghost var blocks;
      ok, b, o, blocks := ExtendCurrent();
      hide Start, PointerBytes, Index, Content, IsList, IsOpen, IsFile, IsClosed;
      if ok {
        Adopt(b, o, blocks);
      }
    }

    /** Extends the list under construction, or the part of the committed list before the position. */
    method ExtendCurrent() returns (ok: bool, b: u32, o: u32, ghost blocks: seq<nat>)
      requires Valid() && (!writing ==> pos <= size) && (writing ==> off == disk.bs)
      modifies disk
      ensures Preserves(old(disk.mem), disk.mem, old(disk.used), -1) && old(disk.used) <= disk.used
      ensures Committed() == old(Committed())
      ensures !ok ==> Valid() && Front() == old(Front())
      ensures ok ==> && IsClosed(disk.mem, disk.bs, list, head, size)
                     && IsOpen(disk.mem, disk.bs, blocks, b, pos, o) && o < disk.bs && b !in old(disk.used)
                     && (forall i :: 0 <= i < |blocks| ==> blocks[i] in disk.used)
                     && Content(disk.mem, disk.bs, blocks, pos) == old(Front())
    {
      hide Start, PointerBytes, Index, Content, IsList, IsOpen, IsFile, IsClosed;
      ClosedFits(disk.mem, disk.bs, list, head, size);
      var from;
      ghost var start;
      from, start := ExtendFrom();
      ok, b, o, blocks := disk.Extend(from, pos, start);
      if ok {
        KeepClosed(old(disk.mem), disk.mem, disk.bs, list, head, size);
      }
    }

    /** Makes a freshly extended list the one under construction. */
    method Adopt(b: u32, o: u32, ghost blocks: seq<nat>)
      requires IsClosed(disk.mem, disk.bs, list, head, size) && size <= fileMax && pos <= fileMax < WORD - 1
      requires forall i :: 0 <= i < |list| ==> list[i] in disk.used
      requires IsOpen(disk.mem, disk.bs, blocks, b, pos, o) && b !in list
      requires forall i :: 0 <= i < |blocks| ==> blocks[i] in disk.used
      modifies this`block, this`off, this`writing, this`wlist
      ensures Ready() && writing && block == b && off == o && wlist == blocks
      ensures Front() == Content(disk.mem, disk.bs, blocks, pos) && Committed() == old(Committed())
    {
      block, off, writing, wlist := b, o, true, blocks;
    }

    /** The block whose front, or all of it, the next block continues. */
    method ExtendFrom() returns (from: u32, ghost blocks: seq<nat>)
      requires Valid() && (!writing ==> pos <= size) && (writing ==> off == disk.bs)
      ensures blocks == if writing then wlist else list
      ensures pos > 0 ==> IsList(disk.mem, disk.bs, blocks) && 0 <= Index(disk.bs, pos - 1) < |blocks|
                          && from == blocks[Index(disk.bs, pos - 1)]
      ensures forall i :: 0 <= i < |blocks| ==> blocks[i] in disk.used
    {
      if writing {
        EndOfFullBlock(disk.mem, disk.bs, wlist, block, pos);
        return block, wlist;
      }
      from := block;
      if pos > 0 {
        var unused, hops;
        from, unused, hops := Find(disk.mem, disk.bs, head, size, pos - 1, list);
      }
      blocks := list;
    }

    /** Programs a chunk that fits into the current block. */
    method ProgramHere(data: seq<Byte>)
      requires Ready() && writing && 0 < |data| <= disk.bs - off && pos + |data| <= fileMax
      modifies this`pos, this`off, disk`mem
      ensures Valid() && Preserves(old(disk.mem), disk.mem, old(disk.used), block)
      ensures pos == old(pos) + |data| && off == old(off) + |data|
      ensures Front() == old(Front()) + data && Committed() == old(Committed())
    {
      hide Start, PointerBytes, Index, Content, IsList, IsFile, IsClosed, IsOpen;
      ClosedFits(disk.mem, disk.bs, list, head, size);
      OpenFits(disk.mem, disk.bs, wlist, block, pos, off);
      disk.Prog(block, off, data);
      ProgramAppends(old(disk.mem), disk.mem, disk.bs, wlist, block, pos, off, data);
      KeepClosed(old(disk.mem), disk.mem, disk.bs, list, head, size);
      pos := pos + |data|;
      off := off + |data|;
    }
  }

  lemma CloseOpen(mem: Memory, bs: u32, blocks: seq<nat>, block: nat, pos: nat, off: nat)
    requires IsOpen(mem, bs, blocks, block, pos, off) && Start(bs, |blocks| - 1) < pos
    ensures IsClosed(mem, bs, blocks, block, pos)
  {
    StartIncreasing(bs, 0, |blocks| - 1);
    PositionInBlock(bs, |blocks| - 1, pos - 1);
  }

  /** A cursor that reads a committed list: lfs_file_flushedread without the inline case. */
  class Reader {
    var head: u32
    var size: u32
    var pos: u32
    var block: u32
    var off: u32
    var reading: bool
    ghost var list: seq<nat>
    ghost var index: nat  // which block of the list the cursor is in, while reading

    constructor (ghost mem: Memory, ghost bs: BlockSize, head: u32, size: u32, pos: u32, ghost list: seq<nat>)
      requires IsClosed(mem, bs, list, head, size)
      ensures this.head == head && this.size == size && this.pos == pos && this.list == list && !reading
      ensures Follows(mem, bs)
    {
      this.head, this.size, this.pos, this.list := head, size, pos, list;
      block, off, reading, index := BLOCK_NULL, 0, false, 0;
    }

    ghost predicate Follows(mem: Memory, bs: BlockSize)
      reads this
    {
      && IsClosed(mem, bs, list, head, size)
      && (reading ==> index < |list| && block == list[index] < |mem|
                      && Start(bs, index) <= pos <= Start(bs, index + 1)
                      && off == pos - Start(bs, index) + PointerBytes(index) <= bs)
    }

    /** Reads up to n bytes; fewer only at the end of the file. */
    method Read(mem: Memory, bs: BlockSize, n: nat) returns (data: seq<Byte>)
      requires Follows(mem, bs)
      modifies this
      ensures Follows(mem, bs) && list == old(list) && head == old(head) && size == old(size)
      ensures data == if old(pos) >= size then []
                      else Content(mem, bs, list, size)[old(pos)..if old(pos) + n <= size then old(pos) + n else size]
      ensures pos == old(pos) + |data|
    {
      hide Follows, Content;
      data := [];
      if pos >= size {
        return;
      }
      var want := if n <= size - pos then n else size - pos;
      while |data| < want
        invariant Follows(mem, bs) && list == old(list) && head == old(head) && size == old(size)
        invariant |data| <= want && pos == old(pos) + |data|
        invariant data == Content(mem, bs, list, size)[old(pos)..pos]
        decreases want - |data|
      {
        var more := ReadChunk(mem, bs, want - |data|);
        data := data + more;
      }
    }

    /** Reads up to the end of the current block. */
    method ReadChunk(mem: Memory, bs: BlockSize, n: nat) returns (data: seq<Byte>)
      requires Follows(mem, bs) && 0 < n && pos + n <= size
      modifies this
      ensures Follows(mem, bs) && list == old(list) && head == old(head) && size == old(size)
      ensures 0 < |data| <= n && pos == old(pos) + |data|
      ensures data == Content(mem, bs, list, size)[old(pos)..pos]
    {
      hide IsList, Content, Start, PointerBytes, IsFile;
      if !reading || off == bs {
        Locate(mem, bs);
      }
      var diff := if n <= bs - off then n else bs - off;
      BlockSlice(mem, bs, list, size, index, pos, off, diff);
      data := mem[block][off..off + diff];
      pos, off := pos + diff, off + diff;
    }

    /** Moves the cursor into the block that holds the current position. */
    method Locate(mem: Memory, bs: BlockSize)
      requires Follows(mem, bs) && pos < size
      modifies this`block, this`off, this`reading, this`index
      ensures Follows(mem, bs) && reading && off < bs
    {
      var hops;
      block, off, hops := Find(mem, bs, head, size, pos, list);
      reading, index := true, Index(bs, pos);
    }
  }

  /** A stretch of one block is a stretch of the content. */
  lemma BlockSlice(mem: Memory, bs: u32, blocks: seq<nat>, size: nat, n: nat, pos: nat, off: nat, diff: nat)
    requires IsFile(mem, bs, blocks, size) && n < |blocks| && pos + diff <= size
    requires Start(bs, n) <= pos && off == pos - Start(bs, n) + PointerBytes(n) && off + diff <= bs
    ensures mem[blocks[n]][off..off + diff] == Content(mem, bs, blocks, size)[pos..pos + diff]
    ensures pos + diff <= Start(bs, n + 1)
  {
    StartIncreasing(bs, n, |blocks| - 1);
    CapacityBound(bs, n);
    assert pos + diff <= Start(bs, n + 1);
    var s, t := mem[blocks[n]][off..off + diff], Content(mem, bs, blocks, size)[pos..pos + diff];
    forall i | 0 <= i < diff ensures s[i] == t[i] {
      SliceByte(mem, bs, blocks, n, pos, off, i);
    }
  }

  lemma SliceByte(mem: Memory, bs: u32, blocks: seq<nat>, n: nat, pos: nat, off: nat, i: nat)
    requires IsList(mem, bs, blocks) && n < |blocks| && pos + i < WORD
    requires Start(bs, n) <= pos && off == pos - Start(bs, n) + PointerBytes(n) && off + i < bs
    ensures pos + i < Start(bs, n + 1)
    ensures mem[blocks[n]][off + i] == ByteAt(mem, bs, blocks, pos + i)
  {
    StartIncreasing(bs, n, |blocks| - 1);
    CapacityBound(bs, n);
    PositionInBlock(bs, n, pos + i);
  }

  /** Copy-on-write: no block in use changed, other than possibly the caller's own. */
  ghost predicate Preserves(mem: Memory, mem': Memory, used: set<nat>, own: int) {
    |mem'| == |mem| && forall b :: 0 <= b < |mem| && b in used && b != own ==> mem'[b] == mem[b]
  }

  lemma PreservesBoth(mem: Memory, mem': Memory, mem'': Memory, used: set<nat>, used': set<nat>, own: int, own': int)
    requires Preserves(mem, mem', used, own) && Preserves(mem', mem'', used', own') && used <= used'
    requires own' == own || own' !in used
    ensures Preserves(mem, mem'', used, own)
  {
  }

  /** The bytes of s from position pos on. */
  function Rest(s: seq<Byte>, pos: nat): (r: seq<Byte>) {
    if pos < |s| then s[pos..] else []
  }

  lemma OverwriteParts(logical: seq<Byte>, front: seq<Byte>, pos: nat, data: seq<Byte>, committed: seq<Byte>)
    requires |front| == pos <= |logical| && logical == front + Rest(committed, pos)
    ensures front + data + Rest(committed, pos + |data|) == Overwrite(logical, pos, data)
  {
  }

  lemma OverwritePadded(logical: seq<Byte>, pos: nat, data: seq<Byte>)
    ensures pos > |logical| ==> Overwrite(logical + Zeros(pos - |logical|), pos, data) == Overwrite(logical, pos, data)
  {
  }

  lemma TruncatedContent(mem: Memory, bs: u32, blocks: seq<nat>, size: nat, newSize: nat)
    requires IsFile(mem, bs, blocks, size) && 0 < newSize <= size
    ensures 0 <= Index(bs, newSize - 1) < |blocks|
    ensures Content(mem, bs, blocks[..Index(bs, newSize - 1) + 1], newSize) == Content(mem, bs, blocks, size)[..newSize]
  {
    IndexMono(bs, newSize - 1, size - 1);
    forall p | 0 <= p < newSize
      ensures ByteAt(mem, bs, blocks[..Index(bs, newSize - 1) + 1], p) == ByteAt(mem, bs, blocks, p)
    {
      IndexMono(bs, p, newSize - 1);
    }
  }

  lemma RestStep(front: seq<Byte>, committed: seq<Byte>, pos: nat, data: seq<Byte>)
    requires pos < |committed| && data == committed[pos..pos + 1]
    ensures front + Rest(committed, pos) == (front + data) + Rest(committed, pos + 1)
  {
  }

  lemma EndOfFullBlock(mem: Memory, bs: u32, blocks: seq<nat>, block: nat, pos: nat)
    requires IsOpen(mem, bs, blocks, block, pos, bs)
    ensures pos > 0 && Index(bs, pos - 1) == |blocks| - 1
  {
    CapacityBound(bs, |blocks| - 1);
    StartIncreasing(bs, 0, |blocks| - 1);
    PositionInBlock(bs, |blocks| - 1, pos - 1);
  }

  lemma ClosedFits(mem: Memory, bs: u32, blocks: seq<nat>, head: nat, size: nat)
    requires IsClosed(mem, bs, blocks, head, size)
    ensures Shape(mem, bs) && forall i :: 0 <= i < |blocks| ==> blocks[i] < |mem|
  {
  }

  lemma OpenFits(mem: Memory, bs: u32, blocks: seq<nat>, block: nat, pos: nat, off: nat)
    requires IsOpen(mem, bs, blocks, block, pos, off)
    ensures block < |mem| && |mem[block]| == bs && off <= bs && BlankFrom(mem[block], off)
    ensures block in blocks && Start(bs, |blocks| - 1) <= pos
  {
  }

  lemma KeepClosed(mem: Memory, mem': Memory, bs: u32, blocks: seq<nat>, head: nat, size: nat)
    requires IsClosed(mem, bs, blocks, head, size) && Shape(mem', bs) && |mem| == |mem'|
    requires forall i :: 0 <= i < |blocks| ==> mem'[blocks[i]] == mem[blocks[i]]
    ensures IsClosed(mem', bs, blocks, head, size)
    ensures forall n: nat :: Content(mem', bs, blocks, n) == Content(mem, bs, blocks, n)
  {
    if size > 0 {
      ListFrame(mem, mem', bs, blocks);
    }
    forall n: nat ensures Content(mem', bs, blocks, n) == Content(mem, bs, blocks, n) {
      ContentFrame(mem, mem', bs, blocks, n);
    }
  }
}
