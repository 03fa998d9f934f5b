/** Reading through the caches: lfs_bd_read, littlefs/lfs.c:44-125. */
module DeviceCache {
  import opened Basics
  import opened Bits

  /** The device: blocks of bytes. */
  type Memory = seq<seq<Byte>>

  const NO_BLOCK: int := 0xffff_ffff

  /** The sizes of a configuration, with what lfs_init requires of them (lfs.c:4069-4083). */
  datatype Config = Config(readSize: nat, cacheSize: nat, blockSize: nat) {
    predicate Valid() {
      readSize > 0 && cacheSize > 0 && cacheSize % readSize == 0 && blockSize > 0 && blockSize % cacheSize == 0
    }
  }

  function AlignDown(a: nat, alignment: nat): (r: nat)
    requires alignment > 0
    ensures r <= a < r + alignment && r % alignment == 0
  {
    AlignedBelow(a, alignment);
    a - a % alignment
  }

  lemma AlignedBelow(a: nat, alignment: nat)
    requires alignment > 0
    ensures (a - a % alignment) % alignment == 0
  {
    DivExact(a - a % alignment, a / alignment, alignment);
  }

  function AlignUp(a: nat, alignment: nat): (r: nat)
    requires alignment > 0
    ensures a <= r < a + alignment && r % alignment == 0
  {
    AlignDown(a + alignment - 1, alignment)
  }

  /** The window of a block that a cache holds. */
  datatype Window = Window(block: int, off: nat, size: nat)

  /** One round of the loop of lfs_bd_read. */
  datatype Round =
    | FromPcache(diff: nat)
    | FromRcache(diff: nat)
    | Direct(diff: nat)
    | Load(w: Window)

  predicate Reaches(w: Window, block: nat, off: nat) {
    w.block == block && off < w.off + w.size
  }

  /** How much may be read before cached data that has priority begins. */
  function Before(w: Window, block: nat, off: nat, diff: nat): (r: nat) {
    if Reaches(w, block, off) && off < w.off then Min(diff, w.off - off) else diff
  }

  function Decide(c: Config, pw: Window, rw: Window, hint: nat, block: nat, off: nat, size: nat): (r: Round)
    requires c.Valid()
  {
    if Reaches(pw, block, off) && off >= pw.off then FromPcache(Min(size, pw.size - (off - pw.off)))
    else
      var diff := Before(pw, block, off, size);
      if Reaches(rw, block, off) && off >= rw.off then FromRcache(Min(diff, rw.size - (off - rw.off)))
      else
        var diff := Before(rw, block, off, diff);
        if size >= hint && off % c.readSize == 0 && size >= c.readSize then Direct(AlignDown(diff, c.readSize))
        else
          Load(LoadAt(c, hint, block, off))
  }

  /** The window of read units that a load at a position asks for. */
  function LoadAt(c: Config, hint: nat, block: nat, off: nat): (r: Window)
    requires c.Valid()
  {
    var start := AlignDown(off, c.readSize);
    var end := Min(AlignUp(off + hint, c.readSize), c.blockSize);
    Window(block, start, Min(if end > start then end - start else 0, c.cacheSize))
  }

  /** The round neither moves on nor caches anything at the position: the loop would repeat it for ever. */
  predicate Stalls(r: Round, off: nat) {
    match r
    case FromPcache(diff) => diff == 0
    case FromRcache(diff) => diff == 0
    case Direct(diff) => diff == 0
    case Load(w) => w.off + w.size <= off
  }

  predicate InCache(w: Window, block: nat, off: nat) {
    Reaches(w, block, off) && w.off <= off
  }

  /**
   * A round stalls exactly at an aligned position that neither cache holds, in two cases: what is left is read
   * directly, and pending program data begins inside the unit read; or the hint is empty and less than a unit is left.
   */
  lemma StallsExactly(c: Config, pw: Window, rw: Window, hint: nat, block: nat, off: nat, size: nat)
    requires c.Valid() && 0 < size && off + size <= c.blockSize
    requires rw.off % c.readSize == 0
    ensures Stalls(Decide(c, pw, rw, hint, block, off, size), off) <==>
              && !InCache(pw, block, off) && !InCache(rw, block, off) && off % c.readSize == 0
              && if size >= hint && size >= c.readSize then pw.block == block && off < pw.off < off + c.readSize
                 else hint == 0
  {
    var r := Decide(c, pw, rw, hint, block, off, size);
    match r {
      case Load(w) =>
        BlockIsAligned(c, off);
        LoadCovers(c, off, hint);
      case Direct(diff) => DirectMoves(c, pw, rw, hint, block, off, size);
      case _ =>
    }
  }

  /** The next read unit after a position inside a block still lies in the block. */
  lemma BlockIsAligned(c: Config, off: nat)
    requires c.Valid() && off < c.blockSize
    ensures AlignDown(off, c.readSize) + c.readSize <= c.blockSize && c.readSize <= c.cacheSize
  {
    hide AlignDown;
    BlockMultiple(c);
    Multiples(c.blockSize, AlignDown(off, c.readSize), c.readSize);
    Multiples(c.cacheSize, 0, c.readSize);
  }

  lemma Associate(p: int, q: int, u: int)
    ensures p * (q * u) == (p * q) * u
  {
  }

  lemma LoadCovers(c: Config, off: nat, hint: nat)
    requires c.Valid() && off < c.blockSize
    requires AlignDown(off, c.readSize) + c.readSize <= c.blockSize && c.readSize <= c.cacheSize
    ensures var start := AlignDown(off, c.readSize);
            var end := Min(AlignUp(off + hint, c.readSize), c.blockSize);
            start + Min(if end > start then end - start else 0, c.cacheSize) > off <==>
            !(hint == 0 && off % c.readSize == 0)
  {
    var u := c.readSize;
    var start := AlignDown(off, u);
    var up := AlignUp(off + hint, u);
    if hint == 0 && off % u == 0 {
      Multiples(up, off, u);
    } else {
      Multiples(up, start, u);
    }
  }

  /** Different multiples of u are at least u apart. */
  lemma Multiples(a: nat, b: nat, u: nat)
    requires u > 0 && a % u == 0 && b % u == 0
    ensures a > b ==> a >= b + u
    ensures a < b ==> a + u <= b
  {
    var p, q := a / u, b / u;
    assert a == p * u && b == q * u;
    assert (p - q) * u == p * u - q * u;
    if a > b {
      if p <= q { MulMono(p, q, u); }
      MulAtLeast(p - q, u);
    } else if a < b {
      if q <= p { MulMono(q, p, u); }
      assert (q - p) * u == q * u - p * u;
      MulAtLeast(q - p, u);
    }
  }

  lemma DirectMoves(c: Config, pw: Window, rw: Window, hint: nat, block: nat, off: nat, size: nat)
    requires c.Valid() && 0 < size && rw.off % c.readSize == 0
    requires Decide(c, pw, rw, hint, block, off, size).Direct?
    ensures Decide(c, pw, rw, hint, block, off, size).diff == 0 <==>
            Reaches(pw, block, off) && off < pw.off < off + c.readSize
  {
    var u := c.readSize;
    var diff := Before(rw, block, off, Before(pw, block, off, size));
    if Reaches(rw, block, off) {
      Multiples(rw.off, off, u);
    }
    assert diff < u <==> Reaches(pw, block, off) && off < pw.off < off + u;
    if diff >= u {
      Multiples(AlignDown(diff, u), 0, u);
    } else if AlignDown(diff, u) > 0 {
      Multiples(AlignDown(diff, u), 0, u);
    }
  }

  // ----- When a whole call ends -----

  /** What the loop changes: the window of the read cache, the position, and how much is left. */
  datatype Reading = Reading(rw: Window, off: nat, size: nat)

  ghost predicate Proper(c: Config, block: nat, s: Reading) {
    && c.Valid() && s.off + s.size <= c.blockSize
    && s.rw.off % c.readSize == 0 && s.rw.size % c.readSize == 0
  }

  /** One round, on a device that answers. */
  function NextRound(c: Config, pw: Window, hint: nat, block: nat, s: Reading): (r: Reading)
    requires c.Valid() && 0 < s.size && s.off + s.size <= c.blockSize
  {
    RoundReads(c, pw, s.rw, hint, block, s.off, s.size);
    match Decide(c, pw, s.rw, hint, block, s.off, s.size)
    case Load(w) => s.(rw := w)
    case FromPcache(diff) => s.(off := s.off + diff, size := s.size - diff)
    case FromRcache(diff) => s.(off := s.off + diff, size := s.size - diff)
    case Direct(diff) => s.(off := s.off + diff, size := s.size - diff)
  }

  /** k rounds, or fewer if nothing is left before. */
  ghost function Rounds(c: Config, pw: Window, hint: nat, block: nat, s: Reading, k: nat): (s': Reading)
    requires Proper(c, block, s) && hint >= 1
    ensures Proper(c, block, s')
    decreases k
  {
    if k == 0 || s.size == 0 then s
    else
      RoundKeeps(c, pw, hint, block, s);
      Rounds(c, pw, hint, block, NextRound(c, pw, hint, block, s), k - 1)
  }

  /** The window that the read cache has once the position is aligned. */
  function ArrivalWindow(c: Config, rw: Window, hint: nat, block: nat, off: nat): (r: Window)
    requires c.Valid()
  {
    if off % c.readSize == 0 || InCache(rw, block, off) then rw else LoadAt(c, hint, block, off)
  }

  /**
   * Pending program data begins inside a read unit; the range to be read begins no later than the unit, reaches
   * at least one unit and the hint beyond its start; and the read cache does not hold the unit when it gets there.
   */
  predicate NeverEnds(c: Config, pw: Window, hint: nat, block: nat, s: Reading)
    requires c.Valid()
  {
    pw.block == block && pw.off % c.readSize != 0 &&
    var unit := AlignDown(pw.off, c.readSize);
    && s.off <= unit && unit + c.readSize <= s.off + s.size && unit + hint <= s.off + s.size
    && !InCache(ArrivalWindow(c, s.rw, hint, block, s.off), block, unit)
  }

  lemma RoundKeeps(c: Config, pw: Window, hint: nat, block: nat, s: Reading)
    requires Proper(c, block, s) && 0 < s.size && hint >= 1
    ensures var t := NextRound(c, pw, hint, block, s);
            Proper(c, block, t) && t.off + t.size == s.off + s.size
  {
    hide AlignDown, AlignUp;
    RoundReads(c, pw, s.rw, hint, block, s.off, s.size);
    if Decide(c, pw, s.rw, hint, block, s.off, s.size).Load? {
      LoadFits(c, pw, s.rw, hint, block, s.off, s.size);
    }
  }

  /** A round goes on, or loads what is read next, unless the call never ends. */
  lemma RoundMoves(c: Config, pw: Window, hint: nat, block: nat, s: Reading)
    requires Proper(c, block, s) && 0 < s.size && hint >= 1 && !NeverEnds(c, pw, hint, block, s)
    ensures var t := NextRound(c, pw, hint, block, s);
            t.off > s.off || (t.off == s.off && InCache(t.rw, block, t.off) && !InCache(s.rw, block, s.off))
  {
    StallsExactly(c, pw, s.rw, hint, block, s.off, s.size);
    RoundReads(c, pw, s.rw, hint, block, s.off, s.size);
    if Stalls(Decide(c, pw, s.rw, hint, block, s.off, s.size), s.off) {
      UnitOf(pw.off, s.off, c.readSize);
    }
  }

  /** The read unit of a position is the one multiple that is less than a unit below it. */
  lemma UnitOf(pos: nat, start: nat, u: nat)
    requires u > 0 && start % u == 0 && start <= pos < start + u
    ensures AlignDown(pos, u) == start
  {
    Multiples(AlignDown(pos, u), start, u);
  }

  /** No round changes whether the call ends. */
  lemma RoundDecidesNothing(c: Config, pw: Window, hint: nat, block: nat, s: Reading)
    requires Proper(c, block, s) && 0 < s.size && hint >= 1
    ensures NeverEnds(c, pw, hint, block, NextRound(c, pw, hint, block, s)) <==> NeverEnds(c, pw, hint, block, s)
  {
    hide Decide, AlignDown, AlignUp, ArrivalWindow, NextRound;
    RoundKeeps(c, pw, hint, block, s);
    NeverBackwards(c, pw, hint, block, s);
    var unit := AlignDown(pw.off, c.readSize);
    if pw.block == block && pw.off % c.readSize != 0 && s.off <= unit
       && unit + c.readSize <= s.off + s.size && unit + hint <= s.off + s.size {
      BelowUnit(c, pw, hint, block, s, unit);
    }
  }

  lemma NeverBackwards(c: Config, pw: Window, hint: nat, block: nat, s: Reading)
    requires Proper(c, block, s) && 0 < s.size
    ensures NextRound(c, pw, hint, block, s).off >= s.off
  {
    hide Decide;
  }

  /** A round at or before the unit in which pending data begins. */
  lemma BelowUnit(c: Config, pw: Window, hint: nat, block: nat, s: Reading, unit: nat)
    requires Proper(c, block, s) && 0 < s.size && hint >= 1
    requires pw.block == block && unit % c.readSize == 0 && s.off <= unit < pw.off < unit + c.readSize
    requires unit + c.readSize <= s.off + s.size && unit + hint <= s.off + s.size
    ensures var t := NextRound(c, pw, hint, block, s);
            t.off <= unit && !InCache(ArrivalWindow(c, t.rw, hint, block, t.off), block, unit) <==>
            !InCache(ArrivalWindow(c, s.rw, hint, block, s.off), block, unit)
  {
    match Decide(c, pw, s.rw, hint, block, s.off, s.size)
    case FromPcache(_) =>
    case FromRcache(_) => BelowUnitCached(c, pw, hint, block, s, unit);
    case Direct(_) => BelowUnitDirect(c, pw, hint, block, s, unit);
    case Load(_) => BelowUnitLoad(c, pw, hint, block, s, unit);
  }

  lemma BelowUnitCached(c: Config, pw: Window, hint: nat, block: nat, s: Reading, unit: nat)
    requires Proper(c, block, s) && 0 < s.size && hint >= 1
    requires pw.block == block && unit % c.readSize == 0 && s.off <= unit < pw.off < unit + c.readSize
    requires unit + c.readSize <= s.off + s.size
    requires Decide(c, pw, s.rw, hint, block, s.off, s.size).FromRcache?
    ensures var t := NextRound(c, pw, hint, block, s);
            t.off <= unit && !InCache(ArrivalWindow(c, t.rw, hint, block, t.off), block, unit) <==>
            !InCache(ArrivalWindow(c, s.rw, hint, block, s.off), block, unit)
  {
    hide AlignDown, AlignUp, LoadAt;
    var end := s.rw.off + s.rw.size;
    Sum(s.rw.off, s.rw.size, c.readSize);
    Multiples(end, unit, c.readSize);
  }

  lemma BelowUnitDirect(c: Config, pw: Window, hint: nat, block: nat, s: Reading, unit: nat)
    requires Proper(c, block, s) && 0 < s.size && hint >= 1
    requires pw.block == block && unit % c.readSize == 0 && s.off <= unit < pw.off < unit + c.readSize
    requires unit + c.readSize <= s.off + s.size
    requires Decide(c, pw, s.rw, hint, block, s.off, s.size).Direct?
    ensures var t := NextRound(c, pw, hint, block, s);
            t.off <= unit && t.off % c.readSize == 0 && t.rw == s.rw && s.off % c.readSize == 0
  {
    hide AlignUp, LoadAt, AlignDown;
    var diff := Decide(c, pw, s.rw, hint, block, s.off, s.size).diff;
    Sum(s.off, diff, c.readSize);
    if s.off + diff > unit {
      Multiples(s.off + diff, unit, c.readSize);
    }
  }

  lemma BelowUnitLoad(c: Config, pw: Window, hint: nat, block: nat, s: Reading, unit: nat)
    requires Proper(c, block, s) && 0 < s.size && hint >= 1
    requires s.off <= unit && unit + c.readSize <= s.off + s.size && unit + hint <= s.off + s.size
    requires Decide(c, pw, s.rw, hint, block, s.off, s.size).Load?
    ensures var t := NextRound(c, pw, hint, block, s);
            t.off == s.off && ArrivalWindow(c, t.rw, hint, block, t.off) == ArrivalWindow(c, s.rw, hint, block, s.off)
  {
    hide AlignDown, AlignUp, LoadAt;
    LoadFits(c, pw, s.rw, hint, block, s.off, s.size);
    RoundReads(c, pw, s.rw, hint, block, s.off, s.size);
  }

  lemma Sum(a: nat, b: nat, u: nat)
    requires u > 0 && a % u == 0 && b % u == 0
    ensures (a + b) % u == 0
  {
    var p, q := a / u, b / u;
    assert a == p * u && b == q * u && (p + q) * u == p * u + q * u;
    DivExact(a + b, p + q, u);
  }

  /**
   * lfs_bd_read comes to an end exactly if not NeverEnds. An aligned program cache is enough, as is a range that
   * is shorter than the read unit or the hint.
   */
  lemma EndsExactly(c: Config, pw: Window, hint: nat, block: nat, s: Reading)
    requires Proper(c, block, s) && hint >= 1
    ensures (exists k :: Rounds(c, pw, hint, block, s, k).size == 0) <==> !NeverEnds(c, pw, hint, block, s)
    ensures pw.off % c.readSize == 0 || s.size < c.readSize || s.size < hint ==> !NeverEnds(c, pw, hint, block, s)
  {
    if NeverEnds(c, pw, hint, block, s) {
      forall k ensures Rounds(c, pw, hint, block, s, k).size != 0 {
        GoesOn(c, pw, hint, block, s, k);
      }
    } else {
      var k := ComesToAnEnd(c, pw, hint, block, s);
    }
  }

  lemma {:induction false} GoesOn(c: Config, pw: Window, hint: nat, block: nat, s: Reading, k: nat)
    requires Proper(c, block, s) && hint >= 1 && NeverEnds(c, pw, hint, block, s)
    ensures Rounds(c, pw, hint, block, s, k).size != 0
    decreases k
  {
    hide Decide, AlignDown, AlignUp, ArrivalWindow, NextRound;
    if k > 0 {
      RoundKeeps(c, pw, hint, block, s);
      RoundDecidesNothing(c, pw, hint, block, s);
      GoesOn(c, pw, hint, block, NextRound(c, pw, hint, block, s), k - 1);
    }
  }

  lemma {:induction false} ComesToAnEnd(c: Config, pw: Window, hint: nat, block: nat, s: Reading) returns (k: nat)
    requires Proper(c, block, s) && hint >= 1 && !NeverEnds(c, pw, hint, block, s)
    ensures Rounds(c, pw, hint, block, s, k).size == 0
    decreases s.size, if InCache(s.rw, block, s.off) then 0 else 1
  {
    hide Decide, AlignDown, AlignUp, ArrivalWindow, NextRound, NeverEnds;
    if s.size == 0 {
      k := 0;
    } else {
      RoundKeeps(c, pw, hint, block, s);
      RoundMoves(c, pw, hint, block, s);
      RoundDecidesNothing(c, pw, hint, block, s);
      k := ComesToAnEnd(c, pw, hint, block, NextRound(c, pw, hint, block, s));
      k := k + 1;
    }
  }

  /**
   * An input for which the loop goes on for ever: 64 bytes read from an aligned position while program data is
   * pending from byte 16 of the unit on. With the same caches, 32 bytes under the same hint are read.
   */
  lemma UnalignedPcacheStalls()
    ensures var c, pw := Config(64, 64, 128), Window(0, 16, 16);
            && c.Valid()
            && NeverEnds(c, pw, 64, 0, Reading(NO_WINDOW, 0, 64)) && !NeverEnds(c, pw, 64, 0, Reading(NO_WINDOW, 0, 32))
            && forall k :: Rounds(c, pw, 64, 0, Reading(NO_WINDOW, 0, 64), k).size != 0
  {
    var c, pw := Config(64, 64, 128), Window(0, 16, 16);
    UnitOf(16, 0, 64);
    EndsExactly(c, pw, 64, 0, Reading(NO_WINDOW, 0, 64));
  }


  class Cache {
    var block: int
    var off: nat
    var size: nat
    const buffer: array<Byte>

    constructor (cacheSize: nat)
      ensures block == NO_BLOCK && off == 0 && size == 0 && buffer.Length == cacheSize && fresh(buffer)
    {
      block, off, size := NO_BLOCK, 0, 0;
      buffer := new Byte[cacheSize](_ => 0xff);
    }

    function Win(): (r: Window)
      reads this
    {
      Window(block, off, size)
    }

    ghost predicate Shaped(c: Config)
      reads this
    {
      buffer.Length == c.cacheSize && size <= c.cacheSize && (block != NO_BLOCK ==> off + size <= c.blockSize)
    }

    /** A read cache holds what the device holds. */
    ghost predicate Coherent(c: Config, mem: Memory)
      reads this, buffer
    {
      && c.Valid() && Shaped(c) && off % c.readSize == 0 && size % c.readSize == 0
      && (block == NO_BLOCK || (0 <= block < |mem| && off + size <= |mem[block]|
                                && forall k :: 0 <= k < size ==> buffer[k] == mem[block][off + k]))
    }
  }

  ghost predicate Shape(c: Config, mem: Memory) {
    c.Valid() && |mem| < NO_BLOCK && forall b :: 0 <= b < |mem| ==> |mem[b]| == c.blockSize
  }

  /** The byte that a reader must see: pending program data over the device. */
  ghost function Overlay(mem: Memory, pw: Window, pdata: seq<Byte>, block: nat, pos: nat): (r: Byte) {
    if pw.block == block && pw.off <= pos < pw.off + pw.size && pos - pw.off < |pdata| then pdata[pos - pw.off]
    else if block < |mem| && pos < |mem[block]| then mem[block][pos] else 0
  }

  /** The bytes that a reader must see from a position on. */
  ghost function View(mem: Memory, pw: Window, pdata: seq<Byte>, block: nat, off: nat, n: nat): (s: seq<Byte>)
    ensures |s| == n
  {
    seq<Byte>(n, k requires 0 <= k < n => Overlay(mem, pw, pdata, block, off + k))
  }

  lemma ViewSplit(mem: Memory, pw: Window, pdata: seq<Byte>, block: nat, off: nat, a: nat, b: nat)
    ensures View(mem, pw, pdata, block, off, a + b)
         == View(mem, pw, pdata, block, off, a) + View(mem, pw, pdata, block, off + a, b)
  {
    var s := View(mem, pw, pdata, block, off, a) + View(mem, pw, pdata, block, off + a, b);
    forall k | 0 <= k < a + b ensures Overlay(mem, pw, pdata, block, off + k) == s[k] {
      if k >= a {
        assert s[k] == View(mem, pw, pdata, block, off + a, b)[k - a];
      }
    }
  }

  /** No pending data in a stretch. */
  predicate Clear(pw: Window, block: nat, off: nat, n: nat) {
    pw.block != block || off + n <= pw.off || pw.off + pw.size <= off
  }

  lemma ClearView(mem: Memory, pw: Window, pdata: seq<Byte>, block: nat, off: nat, n: nat)
    requires Clear(pw, block, off, n) && block < |mem| && off + n <= |mem[block]|
    ensures View(mem, pw, pdata, block, off, n) == mem[block][off..off + n]
  {
    var v, s := View(mem, pw, pdata, block, off, n), mem[block][off..off + n];
    forall k | 0 <= k < n ensures v[k] == s[k] {
    }
  }

  lemma PendingView(mem: Memory, pw: Window, pdata: seq<Byte>, block: nat, off: nat, n: nat)
    requires pw.block == block && pw.off <= off && off + n <= pw.off + pw.size && pw.size <= |pdata|
    ensures View(mem, pw, pdata, block, off, n) == pdata[off - pw.off..off - pw.off + n]
  {
    var v, s := View(mem, pw, pdata, block, off, n), pdata[off - pw.off..off - pw.off + n];
    forall k | 0 <= k < n ensures v[k] == s[k] {
      var pos: nat := off + k;
      assert v[k] == Overlay(mem, pw, pdata, block, pos);
      assert s[k] == pdata[pos - pw.off];
    }
  }

  const NO_WINDOW: Window := Window(NO_BLOCK, 0, 0)

  datatype Error = Ok | Corrupt | Io

  /** The device read: whole read units inside one block. Unreadable blocks report an error. */
  method DeviceRead(c: Config, mem: Memory, bad: set<nat>, block: nat, off: nat, to: array<Byte>, at: nat, size: nat)
    returns (err: Error)
    requires Shape(c, mem) && block < |mem| && off + size <= c.blockSize && at + size <= to.Length
    requires off % c.readSize == 0 && size % c.readSize == 0
    modifies to
    ensures err == Ok <==> block !in bad
    ensures err == Ok || err == Io
    ensures err != Ok ==> to[..] == old(to[..])
    ensures err == Ok ==> to[..] == old(to[..at]) + mem[block][off..off + size] + old(to[at + size..])
  {
    if block in bad {
      return Io;
    }
    forall k | at <= k < at + size {
      to[k] := mem[block][off + k - at];
    }
    err := Ok;
  }

  /**
   * The part of lfs_bd_read that loads the read cache. If the device fails, the cache already claims the new
   * window but still holds its old bytes, so it is coherent only if those happen to be the bytes of the window.
   */
  method LoadCache(c: Config, mem: Memory, bad: set<nat>, rcache: Cache, block: nat, start: nat, size: nat)
    returns (err: Error)
    requires Shape(c, mem) && rcache.Shaped(c) && block < |mem| && start + size <= c.blockSize && size <= c.cacheSize
    requires start % c.readSize == 0 && size % c.readSize == 0
    modifies rcache, rcache.buffer
    ensures rcache.Win() == Window(block, start, size)
    ensures err == Ok <==> block !in bad
    ensures err == Ok ==> rcache.Coherent(c, mem)
    ensures err != Ok ==> err == Io && rcache.buffer[..] == old(rcache.buffer[..])
    ensures err != Ok ==> (rcache.Coherent(c, mem) <==> old(rcache.buffer[..size]) == mem[block][start..start + size])
  {
    rcache.block, rcache.off, rcache.size := block, start, size;
    err := DeviceRead(c, mem, bad, block, start, rcache.buffer, 0, size);
    assert err == Ok ==> forall k :: 0 <= k < size ==> rcache.buffer[..][k] == mem[block][start..start + size][k];
    WindowBytes(c, mem, rcache);
    assert err != Ok ==> rcache.buffer[..size] == rcache.buffer[..][..size] == old(rcache.buffer[..])[..size];
  }

  lemma WindowBytes(c: Config, mem: Memory, rcache: Cache)
    requires Shape(c, mem) && rcache.Shaped(c) && 0 <= rcache.block < |mem|
    requires rcache.off % c.readSize == 0 && rcache.size % c.readSize == 0
    ensures rcache.Coherent(c, mem) <==>
            rcache.buffer[..rcache.size] == mem[rcache.block][rcache.off..rcache.off + rcache.size]
  {
    var a, b := rcache.buffer[..rcache.size], mem[rcache.block][rcache.off..rcache.off + rcache.size];
    if a == b {
      forall k | 0 <= k < rcache.size ensures rcache.buffer[k] == mem[rcache.block][rcache.off + k] {
        assert a[k] == b[k];
      }
    }
    if rcache.Coherent(c, mem) {
      forall k | 0 <= k < rcache.size ensures a[k] == b[k] {
        assert rcache.buffer[k] == mem[rcache.block][rcache.off + k];
      }
      assert a == b;
    }
  }

  /** A load asks the device for whole read units of the block, and it covers the position. */
  lemma LoadFits(c: Config, pw: Window, rw: Window, hint: nat, block: nat, off: nat, size: nat)
    requires c.Valid() && 0 < size && off + size <= c.blockSize && hint >= 1
    requires Decide(c, pw, rw, hint, block, off, size).Load?
    ensures var r := Decide(c, pw, rw, hint, block, off, size);
            && r.w.block == block && r.w.off % c.readSize == 0 && r.w.size % c.readSize == 0
            && r.w.off + r.w.size <= c.blockSize && r.w.size <= c.cacheSize && r.w.off <= off < r.w.off + r.w.size
  {
    LoadWindow(c, hint, block, off);
    hide AlignDown, AlignUp;
  }

  lemma LoadWindow(c: Config, hint: nat, block: nat, off: nat)
    requires c.Valid() && off < c.blockSize && hint >= 1
    ensures var w := LoadAt(c, hint, block, off);
            && w.off % c.readSize == 0 && w.size % c.readSize == 0 && w.off + w.size <= c.blockSize
            && w.size <= c.cacheSize && w.off <= off < w.off + w.size
  {
    hide AlignDown, AlignUp;
    BlockIsAligned(c, off);
    LoadCovers(c, off, hint);
    BlockMultiple(c);
    var start, end := AlignDown(off, c.readSize), Min(AlignUp(off + hint, c.readSize), c.blockSize);
    if end > start {
      Difference(end, start, c.readSize);
    }
    assert LoadAt(c, hint, block, off)
        == Window(block, start, Min(if end > start then end - start else 0, c.cacheSize));
  }

  lemma BlockMultiple(c: Config)
    requires c.Valid()
    ensures c.blockSize % c.readSize == 0
  {
    var p, q := c.blockSize / c.cacheSize, c.cacheSize / c.readSize;
    Associate(p, q, c.readSize);
    DivExact(c.blockSize, p * q, c.readSize);
  }

  lemma Difference(a: nat, b: nat, u: nat)
    requires u > 0 && a % u == 0 && b % u == 0 && b <= a
    ensures (a - b) % u == 0
  {
    var p, q := a / u, b / u;
    assert a == p * u && b == q * u && (p - q) * u == p * u - q * u;
    DivExact(a - b, p - q, u);
  }

  /** What a round reads is available where it reads it, and what must be seen. */
  lemma RoundReads(c: Config, pw: Window, rw: Window, hint: nat, block: nat, off: nat, size: nat)
    requires c.Valid() && 0 < size && off + size <= c.blockSize
    ensures var r := Decide(c, pw, rw, hint, block, off, size);
            match r
            case FromPcache(diff) =>
              pw.block == block && pw.off <= off && off + diff <= pw.off + pw.size && diff <= size
            case FromRcache(diff) =>
              && rw.block == block && rw.off <= off && off + diff <= rw.off + rw.size && diff <= size
              && Clear(pw, block, off, diff)
            case Direct(diff) =>
              diff <= size && diff % c.readSize == 0 && off % c.readSize == 0 && Clear(pw, block, off, diff)
            case Load(w) => w == LoadAt(c, hint, block, off) && !(Reaches(rw, block, off) && rw.off <= off)
  {
    assert Clear(pw, block, off, Before(pw, block, off, size)) || (Reaches(pw, block, off) && off >= pw.off);
    var diff := Before(pw, block, off, size);
    assert Before(rw, block, off, diff) <= diff <= size;
  }

  /** The window of an optional program cache. */
  function PcacheWindow(pcache: Cache?): (r: Window)
    reads pcache
  {
    if pcache == null then NO_WINDOW else pcache.Win()
  }

  /**
   * lfs_bd_read, for every call that comes to an end: out[..size] becomes the device bytes overlaid by the pending
   * program data, and the read cache stays coherent with the device.
   */
  method BdRead(c: Config, mem: Memory, bad: set<nat>, pcache: Cache?, rcache: Cache, hint: nat,
                block: nat, off: nat, out: array<Byte>, size: nat)
    returns (err: Error)
    requires Shape(c, mem) && rcache.Coherent(c, mem) && size <= out.Length && hint >= 1
    requires off + size < WORD
    requires !NeverEnds(c, PcacheWindow(pcache), hint, block, Reading(rcache.Win(), off, size))
    requires pcache != null ==> pcache != rcache && pcache.Shaped(c)
                                && pcache.buffer != rcache.buffer && pcache.buffer != out
    requires rcache.buffer != out
    modifies rcache, rcache.buffer, out
    ensures block >= |mem| || off + size > c.blockSize ==> err == Corrupt
    ensures err == Corrupt ==> block >= |mem| || off + size > c.blockSize
    ensures err == Io ==> block in bad
    ensures err == Ok ==> rcache.Coherent(c, mem)
    ensures err == Ok ==> out[..size] == View(mem, PcacheWindow(pcache), PcacheData(pcache), block, off, size)
    ensures out[size..] == old(out[size..])
  {
    hide View, Overlay, NeverEnds, NextRound, InCache, Decide;
    if block >= |mem| || off + size > c.blockSize {
      return Corrupt;
    }
    ghost var pw, pdata := PcacheWindow(pcache), PcacheData(pcache);
    var done: nat := 0;
    assert Proper(c, block, Reading(rcache.Win(), off, size));
    while done < size
      invariant done <= size && rcache.Coherent(c, mem)
      invariant pcache != null ==> pcache.Shaped(c)
      invariant !NeverEnds(c, pw, hint, block, Reading(rcache.Win(), off + done, size - done))
      invariant PcacheWindow(pcache) == pw && PcacheData(pcache) == pdata
      invariant out[..done] == View(mem, pw, pdata, block, off, done)
      invariant out[size..] == old(out[size..])
      decreases size - done, if InCache(rcache.Win(), block, off + done) then 0 else 1
    {
      ghost var s := Reading(rcache.Win(), off + done, size - done);
      RoundKeeps(c, pw, hint, block, s);
      RoundMoves(c, pw, hint, block, s);
      RoundDecidesNothing(c, pw, hint, block, s);
      var n;
      err, n := ReadRound(c, mem, bad, pcache, rcache, hint, block, off + done, out, done, size - done);
      if err != Ok {
        return err;
      }
      ViewSplit(mem, pw, pdata, block, off, done, n);
      assert out[..done + n] == out[..done] + out[done..done + n];
      done := done + n;
    }
    err := Ok;
  }

  function PcacheData(pcache: Cache?): (r: seq<Byte>)
    reads pcache, if pcache == null then {} else {pcache.buffer}
  {
    if pcache == null then [] else pcache.buffer[..]
  }

  /** What the read cache holds is read from there, without asking the device. */
  lemma CacheServes(c: Config, pw: Window, rw: Window, hint: nat, block: nat, off: nat, size: nat)
    requires c.Valid()
    ensures InCache(rw, block, off) && !Reaches(pw, block, off) ==>
              Decide(c, pw, rw, hint, block, off, size) == FromRcache(Min(size, rw.size - (off - rw.off)))
  {
  }

  /** n bytes from a position on, as a cache with these bytes and this window has them. */
  function Held(buffer: seq<Byte>, w: Window, off: nat, n: nat): (r: seq<Byte>) {
    if w.off <= off && off - w.off + n <= |buffer| then buffer[off - w.off..off - w.off + n] else []
  }

  /** What the round asks, and whom. */
  function Asked(c: Config, pcache: Cache?, rcache: Cache, hint: nat, block: nat, off: nat, size: nat): (r: Round)
    requires c.Valid()
    reads pcache, rcache
  {
    Decide(c, PcacheWindow(pcache), rcache.Win(), hint, block, off, size)
  }

  /** The part of lfs_bd_read that copies from the read cache, where nothing is pending. */
  method CopyCached(c: Config, mem: Memory, rcache: Cache, block: nat, off: nat, out: array<Byte>, at: nat, n: nat,
                    ghost pw: Window, ghost pdata: seq<Byte>)
    requires Shape(c, mem) && rcache.Shaped(c) && rcache.block == block < |mem| && off + n <= c.blockSize
    requires rcache.off <= off && off + n <= rcache.off + rcache.size && at + n <= out.Length && rcache.buffer != out
    requires Clear(pw, block, off, n)
    modifies out
    ensures out[at..at + n] == Held(rcache.buffer[..], rcache.Win(), off, n)
    ensures rcache.Coherent(c, mem) ==> out[at..at + n] == View(mem, pw, pdata, block, off, n)
    ensures out[..at] == old(out[..at]) && out[at + n..] == old(out[at + n..])
  {
    hide View, Overlay, Cache.Coherent;
    ClearView(mem, pw, pdata, block, off, n);
    if rcache.Coherent(c, mem) {
      CachedBytes(c, mem, rcache, off, n);
    }
    CopyBytes(rcache.buffer, off - rcache.off, out, at, n);
    assert rcache.buffer[..][off - rcache.off..off - rcache.off + n]
        == rcache.buffer[off - rcache.off..off - rcache.off + n];
  }

  /** One round: n bytes read, or none and the read cache loaded. What the read cache holds is taken on trust. */
  method ReadRound(c: Config, mem: Memory, bad: set<nat>, pcache: Cache?, rcache: Cache, hint: nat,
                   block: nat, off: nat, out: array<Byte>, at: nat, size: nat)
    returns (err: Error, n: nat)
    requires Shape(c, mem) && rcache.Shaped(c) && hint >= 1 && block < |mem|
    requires 0 < size && off + size <= c.blockSize && at + size <= out.Length
    requires Proper(c, block, Reading(rcache.Win(), off, size))
    requires pcache != null ==> pcache != rcache && pcache.Shaped(c)
                                && pcache.buffer != rcache.buffer && pcache.buffer != out
    requires rcache.buffer != out
    modifies rcache, rcache.buffer, out
    ensures err == Ok || (err == Io && block in bad)
    ensures n <= size && rcache.Shaped(c)
    ensures err == Ok ==> Reading(rcache.Win(), off + n, size - n)
                          == NextRound(c, PcacheWindow(pcache), hint, block, Reading(old(rcache.Win()), off, size))
    ensures err == Ok && old(rcache.Coherent(c, mem)) ==>
              && rcache.Coherent(c, mem)
              && out[at..at + n] == View(mem, PcacheWindow(pcache), PcacheData(pcache), block, off, n)
    ensures old(Asked(c, pcache, rcache, hint, block, off, size)).FromRcache? ==>
              err == Ok && out[at..at + n] == Held(old(rcache.buffer[..]), old(rcache.Win()), off, n)
    ensures old(Asked(c, pcache, rcache, hint, block, off, size)).Load? && block in bad ==>
              err == Io && rcache.Win() == LoadAt(c, hint, block, off) && rcache.buffer[..] == old(rcache.buffer[..])
    ensures out[..at] == old(out[..at]) && out[at + size..] == old(out[at + size..])
  {
    hide Decide, Overlay, View, Cache.Coherent, AlignDown, AlignUp, Before, LoadAt, Held;
    var pw, rw := PcacheWindow(pcache), rcache.Win();
    ghost var pdata := PcacheData(pcache);
    var r := Decide(c, pw, rw, hint, block, off, size);
    RoundReads(c, pw, rw, hint, block, off, size);
    match r {
      case FromPcache(diff) =>
        PendingView(mem, pw, pdata, block, off, diff);
        CopyBytes(pcache.buffer, off - pw.off, out, at, diff);
        return Ok, diff;
      case FromRcache(diff) =>
        CopyCached(c, mem, rcache, block, off, out, at, diff, pw, pdata);
        return Ok, diff;
      case Direct(diff) =>
        ClearView(mem, pw, pdata, block, off, diff);
        err := DeviceRead(c, mem, bad, block, off, out, at, diff);
        return err, diff;
      case Load(w) =>
        LoadFits(c, pw, rw, hint, block, off, size);
        err := LoadCache(c, mem, bad, rcache, block, w.off, w.size);
        return err, 0;
    }
  }

  /** With no program cache, less than the hint to read and nothing of it cached, a round loads. */
  lemma ShortReadLoads(c: Config, rw: Window, hint: nat, block: nat, off: nat, size: nat)
    requires c.Valid() && block < NO_BLOCK && !InCache(rw, block, off) && size < hint
    ensures Decide(c, NO_WINDOW, rw, hint, block, off, size) == Load(LoadAt(c, hint, block, off))
  {
  }

  lemma CoherentProper(c: Config, mem: Memory, rcache: Cache, block: nat, off: nat, size: nat)
    requires Shape(c, mem) && rcache.Coherent(c, mem) && off + size <= c.blockSize
    ensures rcache.Shaped(c) && Proper(c, block, Reading(rcache.Win(), off, size))
  {
  }

  lemma HeldSize(buffer: seq<Byte>, w: Window, off: nat, n: nat)
    requires w.off <= off && off - w.off + n <= |buffer|
    ensures |Held(buffer, w, off, n)| == n
  {
  }

  /**
   * A short read fails to load, and is made again when the device answers: the second attempt does not ask it. It
   * reports success and returns what the read cache held before the first attempt, from some other place.
   */
  method Retry(c: Config, mem: Memory, bad: set<nat>, rcache: Cache, hint: nat, block: nat, off: nat,
               out: array<Byte>, size: nat)
    returns (first: Error, second: Error, n: nat)
    requires Shape(c, mem) && rcache.Coherent(c, mem) && block < |mem| && block in bad
    requires 0 < size < hint && off + size <= c.blockSize && size <= out.Length && rcache.buffer != out
    requires !InCache(rcache.Win(), block, off)
    modifies rcache, rcache.buffer, out
    ensures first == Io && second == Ok && 0 < n <= size
    ensures out[..n] == Held(old(rcache.buffer[..]), LoadAt(c, hint, block, off), off, n)
    ensures |Held(old(rcache.buffer[..]), LoadAt(c, hint, block, off), off, n)| == n
  {
    hide Decide, LoadAt, Cache.Coherent, Held;
    CoherentProper(c, mem, rcache, block, off, size);
    ShortReadLoads(c, rcache.Win(), hint, block, off, size);
    LoadFits(c, NO_WINDOW, rcache.Win(), hint, block, off, size);
    first, n := ReadRound(c, mem, bad, null, rcache, hint, block, off, out, 0, size);
    CacheServes(c, NO_WINDOW, rcache.Win(), hint, block, off, size);
    HeldSize(rcache.buffer[..], rcache.Win(), off, Min(size, rcache.size - (off - rcache.off)));
    assert Proper(c, block, Reading(rcache.Win(), off, size));
    second, n := ReadRound(c, mem, {}, null, rcache, hint, block, off, out, 0, size);
    assert out[0..n] == out[..n];
  }

  lemma CachedBytes(c: Config, mem: Memory, rcache: Cache, off: nat, n: nat)
    requires Shape(c, mem) && rcache.Coherent(c, mem) && 0 <= rcache.block < |mem|
    requires rcache.off <= off && off + n <= rcache.off + rcache.size && off + n <= |mem[rcache.block]|
    ensures rcache.buffer[off - rcache.off..off - rcache.off + n] == mem[rcache.block][off..off + n]
  {
    var a, b := rcache.buffer[off - rcache.off..off - rcache.off + n], mem[rcache.block][off..off + n];
    forall k | 0 <= k < n ensures a[k] == b[k] {
      assert rcache.buffer[off - rcache.off + k] == mem[rcache.block][rcache.off + (off - rcache.off + k)];
    }
  }

  /** memcpy */
  method CopyBytes(from: array<Byte>, start: nat, to: array<Byte>, at: nat, n: nat)
    requires from != to && start + n <= from.Length && at + n <= to.Length
    modifies to
    ensures to[..at] == old(to[..at]) && to[at..at + n] == from[start..start + n] && to[at + n..] == old(to[at + n..])
  {
    forall k | 0 <= k < n {
      to[at + k] := from[start + k];
    }
  }
}
