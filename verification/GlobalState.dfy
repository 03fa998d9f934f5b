/**
 * Conservation of the global state, whose pieces are xored over all metadata pairs: littlefs/lfs.c:1312-1328,
 * 1749-1766, 1935-1981, 2150-2180, 2331-2348, 4383-4404.
 */
module GlobalState {
  import opened Basics
  import opened MetadataLog
  import opened StateWord

  function Zero(): (r: Gstate) {
    seq(BITS, _ => false)
  }

  /** lfs_gstate_xor. */
  function Xor(a: Gstate, b: Gstate): (r: Gstate)
    ensures forall i :: 0 <= i < BITS ==> r[i] == (a[i] != b[i])
  {
    seq(BITS, i requires 0 <= i < BITS => a[i] != b[i])
  }

  /** The size bits of a tag, its lowest 10, count things that only matter in memory. */
  const SIZE_BITS: nat := 10

  /** The part of a state that goes to disk. */
  function Disk(a: Gstate): (r: Gstate)
    ensures forall i :: 0 <= i < BITS ==> r[i] == (i >= SIZE_BITS && a[i])
  {
    seq(BITS, i requires 0 <= i < BITS => i >= SIZE_BITS && a[i])
  }

  lemma XorLaws(a: Gstate, b: Gstate, c: Gstate)
    ensures Xor(a, b) == Xor(b, a) && Xor(Xor(a, b), c) == Xor(a, Xor(b, c))
    ensures Xor(a, a) == Zero() && Xor(a, Zero()) == a && Xor(Zero(), a) == a
    ensures Disk(Xor(a, b)) == Xor(Disk(a), Disk(b)) && Disk(Disk(a)) == Disk(a) && Disk(Zero()) == Zero()
  {
  }

  // ----- The piece a pair stores -----

  function Octet(a: Gstate, k: nat): (r: Byte)
    requires k < 12
  {
    Bit(a[8 * k]) + 2 * Bit(a[8 * k + 1]) + 4 * Bit(a[8 * k + 2]) + 8 * Bit(a[8 * k + 3])
    + 16 * Bit(a[8 * k + 4]) + 32 * Bit(a[8 * k + 5]) + 64 * Bit(a[8 * k + 6]) + 128 * Bit(a[8 * k + 7])
  }

  function Power(j: nat): (r: nat)
    requires j < 8
  {
    [1, 2, 4, 8, 16, 32, 64, 128][j]
  }

  /** The little-endian bytes of a state. */
  function Encode(a: Gstate): (d: Data)
    ensures |d| == 12
  {
    seq(12, k requires 0 <= k < 12 => Octet(a, k))
  }

  /** Reads a stored state; a shorter value reads as zero-filled. */
  function Decode(d: Data): (a: Gstate)
  {
    seq(BITS, i requires 0 <= i < BITS => Clipped(d, 12)[i / 8] / Power(i % 8) % 2 == 1)
  }

  lemma RoundTrip(a: Gstate)
    ensures Decode(Encode(a)) == a
  {
    var d := Encode(a);
    assert Clipped(d, 12) == d;
    forall i | 0 <= i < BITS ensures Decode(d)[i] == a[i] {
      OctetBit(a, i / 8, i % 8);
    }
  }

  lemma OctetBit(a: Gstate, k: nat, j: nat)
    requires k < 12 && j < 8
    ensures (Octet(a, k) / Power(j) % 2 == 1) == a[8 * k + j]
  {
    hide Power, Bit, Octet;
    Powers();
    BitSays();
    OctetBits(a, k);
    match j
    case 0 =>
    case 1 =>
    case 2 =>
    case 3 =>
    case 4 =>
    case 5 =>
    case 6 =>
    case _ => assert j == 7;
  }

  lemma OctetBits(a: Gstate, k: nat)
    requires k < 12
    ensures var n := Octet(a, k);
            && n / 1 % 2 == Bit(a[8 * k]) && n / 2 % 2 == Bit(a[8 * k + 1]) && n / 4 % 2 == Bit(a[8 * k + 2])
            && n / 8 % 2 == Bit(a[8 * k + 3]) && n / 16 % 2 == Bit(a[8 * k + 4]) && n / 32 % 2 == Bit(a[8 * k + 5])
            && n / 64 % 2 == Bit(a[8 * k + 6]) && n / 128 % 2 == Bit(a[8 * k + 7])
  {
    hide Bit;
    BitSays();
    EightBits(Bit(a[8 * k]), Bit(a[8 * k + 1]), Bit(a[8 * k + 2]), Bit(a[8 * k + 3]),
              Bit(a[8 * k + 4]), Bit(a[8 * k + 5]), Bit(a[8 * k + 6]), Bit(a[8 * k + 7]));
  }

  lemma BitSays()
    ensures forall b: bool :: Bit(b) < 2 && (Bit(b) == 1 <==> b)
  {
  }

  lemma Powers()
    ensures Power(0) == 1 && Power(1) == 2 && Power(2) == 4 && Power(3) == 8
    ensures Power(4) == 16 && Power(5) == 32 && Power(6) == 64 && Power(7) == 128
  {
  }

  lemma EightBits(b0: nat, b1: nat, b2: nat, b3: nat, b4: nat, b5: nat, b6: nat, b7: nat)
    requires b0 < 2 && b1 < 2 && b2 < 2 && b3 < 2 && b4 < 2 && b5 < 2 && b6 < 2 && b7 < 2
    ensures var n := b0 + 2 * b1 + 4 * b2 + 8 * b3 + 16 * b4 + 32 * b5 + 64 * b6 + 128 * b7;
            && n % 2 == b0 && n / 2 % 2 == b1 && n / 4 % 2 == b2 && n / 8 % 2 == b3
            && n / 16 % 2 == b4 && n / 32 % 2 == b5 && n / 64 % 2 == b6 && n / 128 % 2 == b7
  {
    var r7 := b7;
    var r6 := b6 + 2 * r7;
    var r5 := b5 + 2 * r6;
    var r4 := b4 + 2 * r5;
    var r3 := b3 + 2 * r4;
    var r2 := b2 + 2 * r3;
    var r1 := b1 + 2 * r2;
    var n := b0 + 2 * r1;
    assert n / 2 == r1 && n / 4 == r2 && n / 8 == r3 && n / 16 == r4;
    assert n / 32 == r5 && n / 64 == r6 && n / 128 == r7;
  }

  function StateOf(globals: Entry): (r: Gstate) {
    if MOVESTATE in globals then Decode(globals[MOVESTATE].data) else Zero()
  }

  /** lfs_dir_getgstate: the piece of the global state that a log stores. */
  function Stored(log: Log): (r: Gstate)
    requires PlainLog(log)
  {
    StateOf(Replay(EMPTY, log).globals)
  }

  function StateTag(g: Gstate): (r: Tag) {
    Tag(MOVESTATE, 0x3ff, 12, Encode(g))
  }

  // ----- What commits do to the stored piece -----

  /** Tags that callers commit: anything but a piece of global state, which only the commit itself adds. */
  ghost predicate NoState(log: Log) {
    forall i :: 0 <= i < |log| ==> log[i].ty != MOVESTATE
  }

  lemma {:induction false} StoredFrom(d: Dir, log: Log)
    requires PlainLog(log) && NoState(log)
    ensures Get(Replay(d, log).globals, MOVESTATE) == Get(d.globals, MOVESTATE)
    decreases |log|
  {
    if log != [] {
      StoredFrom(Apply(d, log[0]), log[1..]);
    }
  }

  lemma StoredAfter(log: Log, g: Gstate)
    requires PlainLog(log)
    ensures PlainLog(log + [StateTag(g)]) && Stored(log + [StateTag(g)]) == g
  {
    ReplayAppend(EMPTY, log, [StateTag(g)]);
    assert [StateTag(g)][1..] == [];
    RoundTrip(g);
  }

  /** Other tags leave the piece alone. */
  lemma StoredKept(log: Log, more: Log)
    requires PlainLog(log) && PlainLog(more) && NoState(more)
    ensures PlainLog(log + more) && Stored(log + more) == Stored(log)
  {
    ReplayAppend(EMPTY, log, more);
    StoredFrom(Replay(EMPTY, log), more);
  }

  // ----- The total over a list of pairs -----

  ghost predicate PlainLogs(logs: seq<Log>) {
    forall i :: 0 <= i < |logs| ==> PlainLog(logs[i])
  }

  function Total(logs: seq<Log>): (r: Gstate)
    requires PlainLogs(logs)
  {
    if logs == [] then Zero() else Xor(Stored(logs[0]), Total(logs[1..]))
  }

  lemma {:induction false} TotalAppend(a: seq<Log>, b: seq<Log>)
    requires PlainLogs(a) && PlainLogs(b)
    ensures PlainLogs(a + b) && Total(a + b) == Xor(Total(a), Total(b))
  {
    if a == [] {
      assert a + b == b;
      XorLaws(Total(b), Zero(), Zero());
    } else {
      assert (a + b)[1..] == a[1..] + b;
      TotalAppend(a[1..], b);
      XorLaws(Stored(a[0]), Total(a[1..]), Total(b));
    }
  }

  /** Replacing one pair of a list changes the total by the old and the new piece. */
  lemma TotalReplace(logs: seq<Log>, i: nat, new_: seq<Log>)
    requires PlainLogs(logs) && PlainLogs(new_) && i < |logs|
    ensures var logs' := logs[..i] + new_ + logs[i + 1..];
            PlainLogs(logs') && Total(logs') == Xor(Xor(Total(logs), Stored(logs[i])), Total(new_))
  {
    var a, b := logs[..i], logs[i + 1..];
    assert logs == a + [logs[i]] + b;
    TotalAppend(a, [logs[i]]);
    TotalAppend(a + [logs[i]], b);
    TotalAppend(a, new_);
    TotalAppend(a + new_, b);
    assert [logs[i]][1..] == [];
    XorLaws(Stored(logs[i]), Zero(), Zero());
    XorShuffle(Total(a), Stored(logs[i]), Total(b), Total(new_));
  }

  lemma XorShuffle(a: Gstate, x: Gstate, b: Gstate, y: Gstate)
    ensures Xor(Xor(a, y), b) == Xor(Xor(Xor(Xor(a, x), b), x), y)
  {
  }

  // ----- The pieces in memory -----

  /** A log whose stored piece has no size bits. */
  ghost predicate CleanLogs(logs: seq<Log>)
    requires PlainLogs(logs)
  {
    forall i :: 0 <= i < |logs| ==> Disk(Stored(logs[i])) == Stored(logs[i])
  }

  lemma {:induction false} CleanTotal(logs: seq<Log>)
    requires PlainLogs(logs) && CleanLogs(logs)
    ensures Disk(Total(logs)) == Total(logs)
    decreases |logs|
  {
    XorLaws(Zero(), Zero(), Zero());
    if logs != [] {
      CleanTotal(logs[1..]);
      XorLaws(Stored(logs[0]), Total(logs[1..]), Zero());
    }
  }

  /** Adds a piece to a log unless it is zero, as commits do. */
  function WithState(log: Log, g: Gstate): (r: Log) {
    if g == Zero() then log else log + [StateTag(g)]
  }

  /** An appended commit: the piece is only rewritten if the state changed (lfs.c:2150-2170). */
  function AppendedLog(log: Log, tags: Log, delta: Gstate): (r: Log)
    requires PlainLog(log)
  {
    if delta == Zero() then log + tags else log + tags + [StateTag(Xor(delta, Stored(log)))]
  }

  lemma AppendedStores(log: Log, tags: Log, delta: Gstate)
    requires PlainLog(log) && PlainLog(tags) && NoState(tags)
    ensures PlainLog(AppendedLog(log, tags, delta))
    ensures Stored(AppendedLog(log, tags, delta)) == Xor(Stored(log), delta)
  {
    StoredKept(log, tags);
    XorLaws(Stored(log), delta, Zero());
    if delta != Zero() {
      StoredAfter(log + tags, Xor(delta, Stored(log)));
    }
  }

  lemma WrittenStores(tags: Log, g: Gstate)
    requires PlainLog(tags) && NoState(tags)
    ensures PlainLog(WithState(tags, g)) && Stored(WithState(tags, g)) == g
  {
    StoredFrom(EMPTY, tags);
    if g != Zero() {
      StoredAfter(tags, g);
    }
  }

  /**
   * lfs_rawmount: the state recomputed from the pieces; a set uppermost bit counts as one orphan, and an outdated
   * superblock is noted.
   */
  function Mounted(total: Gstate, needsSuperblock: bool): (r: Gstate) {
    var a := WithSuperblock(total, needsSuperblock);
    if a[INVALID_BIT] then a[0 := true] else a
  }

  /** What a mount adds to the sum of the pieces is not for the disk; the pieces do not know about superblocks. */
  lemma MountedDisk(total: Gstate, needsSuperblock: bool)
    requires Disk(total) == total
    ensures Disk(Mounted(total, needsSuperblock)) == total
    ensures total[9 := false] == total
  {
    assert Disk(total)[9] == total[9];
    var b := Mounted(total, needsSuperblock);
    forall i | 0 <= i < BITS ensures Disk(b)[i] == total[i] {
      assert Disk(total)[i] == total[i];
    }
  }

  /**
   * Power loss after a commit: the next mount finds the same pending move, and one orphan counted if the uppermost bit
   * was set. That tells whether there were any exactly if the bit mirrored the count; lfs_fs_preporphans also sets it
   * while a superblock is needed. How many there were, and whether the superblock was outdated, is not on disk.
   */
  lemma MountTells(a: Gstate, needsSuperblock: bool)
    ensures var b := Mounted(Disk(a), needsSuperblock);
            && Orphans(b) == Bit(a[INVALID_BIT]) && Mirrored(b)
            && ((Orphans(b) > 0 <==> Orphans(a) > 0) <==> Mirrored(a))
            && (NeedsSuperblock(b) <==> needsSuperblock)
            && (HasMove(b) <==> HasMove(a)) && MoveId(b) == MoveId(a) && MoveType(b) == MoveType(a)
            && MovePair(b) == MovePair(a)
  {
    hide Num, Disk;
    var b := Mounted(Disk(a), needsSuperblock);
    UpperSlices(a, b);
    LowBits(b[..9]);
  }

  lemma UpperSlices(a: Gstate, b: Gstate)
    requires forall i :: SIZE_BITS <= i < BITS ==> b[i] == a[i]
    ensures b[10..20] == a[10..20] && b[20..31] == a[20..31] && b[32..64] == a[32..64] && b[64..] == a[64..]
  {
  }

  /** Bits of which at most the lowest is set. */
  lemma LowBits(s: seq<bool>)
    requires s != [] && forall i :: 1 <= i < |s| ==> !s[i]
    ensures Num(s) == Bit(s[0])
  {
    ZeroNum(s[1..]);
  }

  /**
   * The metadata pairs in list order and the three states in memory. Pairs that a split has written but that
   * no committed tail pointer reaches yet are pending.
   */
  class Filesystem {
    var linked: seq<Log>
    var pending: seq<Log>
    var gstate: Gstate
    var gdisk: Gstate
    var gdelta: Gstate

    constructor (linked: seq<Log>)
      requires PlainLogs(linked) && CleanLogs(linked)
      ensures Valid() && this.linked == linked && pending == []
      ensures gstate == gdisk == Total(linked) && Disk(gstate) == Total(linked) && gdelta == Zero()
    {
      this.linked, pending := linked, [];
      gstate, gdisk, gdelta := Total(linked), Total(linked), Zero();
      new;
      CleanTotal(linked);
      XorLaws(Total(linked), Zero(), Zero());
    }

    ghost predicate Sane()
      reads this
    {
      PlainLogs(linked) && PlainLogs(pending) && CleanLogs(linked) && CleanLogs(pending)
    }

    /** By how much the stored pieces and the stolen ones miss the state that memory takes for the one on disk. */
    ghost function Drift(): (r: Gstate)
      requires Sane()
      reads this
    {
      Disk(Xor(Xor(Xor(Total(linked), Total(pending)), gdelta), gdisk))
    }

    /** The stored pieces and the stolen ones make up the state that is on disk. */
    ghost predicate Valid()
      reads this
    {
      Sane() && Drift() == Zero()
    }

    /**
     * lfs_fs_preporphans changes the state in memory only: the count moves by k and the rest of the tag stays, as long
     * as the count keeps to its nine bits; the uppermost bit, which commits store, tells whether anything is counted.
     */
    method PrepOrphans(k: int)
      requires Sane() && -128 <= k < 128
      modifies `gstate
      ensures Sane() && Drift() == old(Drift())
      ensures 0 <= Orphans(old(gstate)) + k < 0x200 <==> gstate[9..31] == old(gstate)[9..31]
      ensures 0 <= Orphans(old(gstate)) + k < 0x200 ==> Orphans(gstate) == Orphans(old(gstate)) + k
      ensures gstate[INVALID_BIT] <==> Orphans(gstate) > 0 || NeedsSuperblock(gstate)
      ensures gstate[32..] == old(gstate)[32..]
    {
      OrphansCounted(gstate, k);
      gstate := AddOrphans(gstate, k);
    }

    /** lfs_fs_prepmove: the move is noted in memory, or cleared by the id 0x3ff; the counts are left alone. */
    method PrepMove(id: nat, pair: (nat, nat))
      requires Sane() && id <= NO_ID && pair.0 < WORD && pair.1 < WORD
      modifies `gstate
      ensures Sane() && Drift() == old(Drift())
      ensures HasMove(gstate) <==> id != NO_ID
      ensures id != NO_ID ==> MoveId(gstate) == id && MoveType(gstate) == DELETE_TYPE && MovePair(gstate) == pair
      ensures id == NO_ID ==> MoveId(gstate) == 0 && MoveType(gstate) == 0 && MovePair(gstate) == (0, 0)
      ensures gstate[..10] == old(gstate)[..10] && gstate[INVALID_BIT] == old(gstate)[INVALID_BIT]
    {
      MoveReadsBack(gstate, id, pair);
      gstate := MoveNoted(gstate, id, pair);
    }

    /**
     * A commit appended to pair i: afterwards a mount finds exactly the state in memory, or misses it by what the
     * pieces missed before.
     */
    method AppendCommit(i: nat, tags: Log)
      requires Sane() && pending == [] && i < |linked| && PlainLog(tags) && NoState(tags)
      modifies this
      ensures Sane() && Drift() == old(Drift())
      ensures pending == [] && gstate == old(gstate) && gdisk == gstate && gdelta == Zero()
      ensures |linked| == |old(linked)| && forall j :: 0 <= j < |linked| && j != i ==> linked[j] == old(linked[j])
      ensures old(linked[i]) + tags <= linked[i]
      ensures Stored(linked[i]) == Xor(old(Stored(linked[i])), Disk(Xor(Xor(gstate, old(gdisk)), old(gdelta))))
      ensures Total(linked) == Xor(Disk(gstate), Drift())
    {
      hide Xor, Disk, Stored, Total, Zero;
      TotalOfNothing();
      var delta := Disk(Xor(Xor(gstate, gdisk), gdelta));
      AppendedStores(linked[i], tags, delta);
      var log := AppendedLog(linked[i], tags, delta);
      CleanTotal(linked);
      AppendTotals(Total(linked), gstate, gdisk, gdelta, Stored(linked[i]), delta);
      Replaced(linked, i, log, []);
      StillClean(linked, i, log, delta, []);
      SavedState(gstate, Drift());
      linked := linked[..i] + [log] + [] + linked[i + 1..];
      gdisk, gdelta := gstate, Zero();
    }

    /**
     * lfs_dir_compact of pair i. A block that went bad relocates it: then only stolen pieces are written and the
     * change of state waits for the next commit. Pending pairs become linked.
     */
    method Compact(i: nat, tags: Log, relocated: bool)
      requires Sane() && i < |linked| && PlainLog(tags) && NoState(tags)
      modifies this
      ensures Sane() && Drift() == old(Drift())
      ensures pending == [] && gstate == old(gstate) && gdelta == Zero()
      ensures gdisk == if relocated then old(gdisk) else gstate
      ensures |linked| == |old(linked)| + |old(pending)| && tags <= linked[i]
      ensures linked[..i] == old(linked)[..i] && linked[i + 1..] == old(pending) + old(linked)[i + 1..]
      ensures Total(linked) == Xor(Disk(gdisk), Drift())
    {
      hide Xor, Disk, Stored, Total, Zero, WithState, PlainLog, NoState;
      var change := if relocated then Zero() else Xor(gdisk, gstate);
      var delta := Disk(Xor(change, gdelta));
      var log := WithState(tags, Xor(delta, Stored(linked[i])));
      CompactResult(linked, pending, i, tags, change, gdisk, gdelta);
      XorCancels(gdisk, gstate);
      Spliced(linked, i, log, pending);
      SavedState(if relocated then gdisk else gstate, Drift());
      TotalOfNothing();
      linked := linked[..i] + [log] + pending + linked[i + 1..];
      pending, gdelta := [], Zero();
      if !relocated {
        gdisk := gstate;
      }
    }

    /** lfs_dir_split: the new tail pair takes the change of state; it is not linked yet. */
    method NewTail(tags: Log, relocated: bool)
      requires Sane() && PlainLog(tags) && NoState(tags)
      modifies this
      ensures Sane() && Drift() == old(Drift())
      ensures linked == old(linked) && gstate == old(gstate) && gdelta == Zero()
      ensures |pending| == |old(pending)| + 1 && pending[1..] == old(pending)
      ensures gdisk == if relocated then old(gdisk) else gstate
      ensures Stored(pending[0]) == Disk(Xor(if relocated then Zero() else Xor(old(gdisk), gstate), old(gdelta)))
    {
      hide Xor, Disk, Stored, Zero, WithState, PlainLog, NoState;
      var change := if relocated then Zero() else Xor(gdisk, gstate);
      var delta := Disk(Xor(change, gdelta));
      WrittenStores(tags, delta);
      var log := WithState(tags, delta);
      assert ([log] + pending)[1..] == pending;
      TailTotals(Total(linked), Total(pending), change, gdisk, gdelta, delta);
      XorCancels(gdisk, gstate);
      XorLaws(Xor(change, gdelta), Zero(), Zero());
      pending := [log] + pending;
      gdelta := Zero();
      if !relocated {
        gdisk := gstate;
      }
    }

    /** Dropping pair i: its piece is stolen, and the commit to its predecessor that unlinks it takes it over. */
    method Drop(i: nat, tags: Log, append: bool, relocated: bool)
      requires Sane() && pending == [] && 0 < i < |linked| && PlainLog(tags) && NoState(tags)
      modifies this
      ensures Sane() && Drift() == old(Drift())
      ensures pending == [] && gstate == old(gstate) && gdelta == Zero()
      ensures |linked| == |old(linked)| - 1
      ensures Total(linked) == Xor(if append || !relocated then Disk(gstate) else Disk(old(gdisk)), Drift())
    {
      var stolen := Stored(linked[i]);
      Replaced(linked, i, [], []);
      TotalReplace(linked, i, []);
      DropTotals(Total(linked), gdelta, gdisk, stolen);
      XorLaws(Xor(Total(linked), stolen), Zero(), Zero());
      gdelta := Xor(gdelta, stolen);
      linked := linked[..i] + [] + linked[i + 1..];
      if append {
        AppendCommit(i - 1, tags);
      } else {
        Compact(i - 1, tags, relocated);
      }
    }

    /**
     * What is left when that commit fails: the pair stays linked, but its piece has been stolen already and is not
     * given back. The pieces still add up exactly if there was nothing to steal.
     */
    method DropFails(i: nat)
      requires Sane() && i < |linked|
      modifies `gdelta
      ensures Sane() && Drift() == Xor(old(Drift()), Stored(linked[i]))
      ensures old(Valid()) ==> (Valid() <==> Stored(linked[i]) == Zero())
    {
      StolenTotals(Xor(Total(linked), Total(pending)), gdelta, gdisk, Stored(linked[i]));
      XorLaws(Stored(linked[i]), Zero(), Zero());
      gdelta := Xor(gdelta, Stored(linked[i]));
    }

    /**
     * What a failed compaction after a split leaves: the new pairs are never linked, but the state in memory was
     * already marked as saved in them. The pieces still add up exactly if the split had nothing to save.
     */
    method AbandonTails()
      requires Sane()
      modifies `pending
      ensures Sane() && pending == [] && Drift() == Xor(old(Drift()), Total(old(pending)))
      ensures old(Valid()) ==> (Valid() <==> Total(old(pending)) == Zero())
    {
      CleanTotal(pending);
      AbandonTotals(Total(linked), Total(pending), gdelta, gdisk);
      XorLaws(Total(pending), Zero(), Zero());
      pending := [];
    }

    /** lfs_rawmount: the state is recomputed from the pieces alone. */
    method Mount(needsSuperblock: bool)
      requires PlainLogs(linked) && CleanLogs(linked)
      modifies this
      ensures Valid() && pending == [] && linked == old(linked) && Disk(gstate) == Total(linked)
      ensures gstate == Mounted(Total(linked), needsSuperblock)
    {
      hide Xor, Disk, Stored, Total, Zero;
      CleanTotal(linked);
      TotalOfNothing();
      MountedDisk(Total(linked), needsSuperblock);
      SavedState(Mounted(Total(linked), needsSuperblock), Zero());
      gstate := Total(linked);
      if needsSuperblock {
        gstate := gstate[9 := true];
      }
      if gstate[INVALID_BIT] {
        gstate := gstate[0 := true];
      }
      gdisk, gdelta, pending := gstate, Zero(), [];
    }
  }

  /** An orphan is counted, a split saves that in the new pair, and the compaction that should link it fails. */
  method AbandonedStateIsLost() returns (fs: Filesystem)
    ensures PlainLogs(fs.linked) && Total(fs.linked) == Zero() && fs.gdisk == fs.gstate && Orphans(fs.gstate) == 1
    ensures !fs.Valid()
  {
    hide Num, Stored, Total;
    TotalOfNothing();
    OneEmptyPair();
    fs := new Filesystem([[]]);
    ZeroNum(fs.gstate[..9]);
    fs.PrepOrphans(1);
    ghost var saved := fs.gstate;
    fs.NewTail([], false);
    assert Stored(fs.pending[0])[INVALID_BIT];
    assert fs.pending == [fs.pending[0]];
    OnePair(fs.pending[0]);
    fs.AbandonTails();
  }

  /**
   * A move between two directories is noted in one pair and cleared in the other; dropping the first pair fails. After
   * one more commit, to any pair, a mount finds the move that was over and done with.
   */
  method FailedDropRevivesMove(id: nat, pair: (nat, nat)) returns (fs: Filesystem, before: Gstate)
    requires id < NO_ID && pair.0 < WORD && pair.1 < WORD
    ensures !HasMove(before)
    ensures HasMove(fs.gstate) && MoveId(fs.gstate) == id && MovePair(fs.gstate) == pair
  {
    hide Num, Stored, Total, Xor, Disk, Zero;
    TotalOfNothing();
    ThreeEmptyPairs();
    fs := new Filesystem([[], [], []]);
    fs.PrepMove(id, pair);
    ghost var moving := fs.gstate;
    SoleChange(moving);
    fs.AppendCommit(1, []);
    assert Stored(fs.linked[1]) == Disk(moving);
    fs.PrepMove(NO_ID, pair);
    NothingLeft(fs.gstate);
    fs.AppendCommit(2, []);
    fs.Mount(false);
    before := fs.gstate;
    fs.DropFails(1);
    fs.AppendCommit(0, []);
    MountTells(moving, false);
    fs.Mount(false);
  }

  lemma SoleChange(a: Gstate)
    ensures Stored([]) == Zero()
    ensures Xor(Zero(), Disk(Xor(Xor(a, Zero()), Zero()))) == Disk(a)
    ensures Xor(Disk(Zero()), Xor(Zero(), Disk(a))) == Disk(a)
    ensures Mounted(Zero(), false) == Zero() && !HasMove(Zero()) && Disk(Zero()) == Zero()
    ensures Xor(Zero(), Zero()) == Zero() && Orphans(Zero()) == 0
  {
    XorLaws(a, Zero(), Zero());
    XorLaws(Disk(a), Zero(), Zero());
    ZeroNum(Zero()[..9]);
  }

  /** With no move pending and nothing counted, nothing goes to disk. */
  lemma NothingLeft(a: Gstate)
    requires !a[INVALID_BIT] && MoveId(a) == 0 && MoveType(a) == 0 && MovePair(a) == (0, 0)
    ensures Disk(a) == Zero()
  {
    ZeroNum(a[10..20]);
    ZeroNum(a[20..31]);
    ZeroNum(a[32..64]);
    ZeroNum(a[64..]);
    forall i | SIZE_BITS <= i < BITS ensures !a[i] {
      if i < 20 {
        assert a[i] == a[10..20][i - 10];
      } else if i < 31 {
        assert a[i] == a[20..31][i - 20];
      } else if 32 <= i < 64 {
        assert a[i] == a[32..64][i - 32];
      } else if 64 <= i {
        assert a[i] == a[64..][i - 64];
      }
    }
  }

  lemma ThreeEmptyPairs()
    ensures PlainLogs([[], [], []]) && CleanLogs([[], [], []]) && Total([[], [], []]) == Zero()
    ensures PlainLog([]) && NoState([])
  {
    assert Stored([]) == Zero();
    OnePair([]);
    var logs: seq<Log> := [[], [], []];
    assert logs[1..] == [[], []] && logs[1..][1..] == [[]];
    XorLaws(Zero(), Zero(), Zero());
  }

  lemma OneEmptyPair()
    ensures PlainLogs([[]]) && CleanLogs([[]]) && Total([[]]) == Zero() && PlainLog([]) && NoState([])
  {
    assert Stored([]) == Zero();
    OnePair([]);
  }

  lemma OnePair(log: Log)
    requires PlainLog(log)
    ensures PlainLogs([log]) && Total([log]) == Stored(log)
  {
    assert [log][1..] == [];
    XorLaws(Stored(log), Zero(), Zero());
  }

  /** Replacing the log of one pair, and linking others behind it, in terms of totals. */
  lemma Replaced(logs: seq<Log>, i: nat, log: Log, more: seq<Log>)
    requires PlainLogs(logs) && i < |logs| && PlainLog(log) && PlainLogs(more)
    ensures var logs' := logs[..i] + [log] + more + logs[i + 1..];
            PlainLogs(logs') && Total(logs') == Xor(Xor(Total(logs), Stored(logs[i])), Xor(Stored(log), Total(more)))
  {
    assert logs[..i] + [log] + more + logs[i + 1..] == logs[..i] + ([log] + more) + logs[i + 1..];
    assert ([log] + more)[1..] == more;
    TotalReplace(logs, i, [log] + more);
  }

  /** Replacing one piece by its sum with a clean change keeps all pieces clean. */
  lemma StillClean(logs: seq<Log>, i: nat, log: Log, delta: Gstate, more: seq<Log>)
    requires PlainLogs(logs) && PlainLogs(more) && CleanLogs(logs) && CleanLogs(more) && i < |logs|
    requires PlainLog(log) && Disk(delta) == delta && Stored(log) == Xor(Stored(logs[i]), delta)
    ensures var logs' := logs[..i] + [log] + more + logs[i + 1..];
            PlainLogs(logs') && CleanLogs(logs') && PlainLogs([]) && Total([]) == Zero() && CleanLogs([])
  {
    XorLaws(Stored(logs[i]), delta, Zero());
  }

  /** With nothing pending and nothing stolen, the pieces that miss a state by some drift have that drift. */
  lemma SavedState(g: Gstate, drift: Gstate)
    ensures Disk(drift) == drift ==>
              Disk(Xor(Xor(Xor(Xor(Disk(g), drift), Zero()), Zero()), g)) == drift && Xor(Disk(g), Zero()) == Disk(g)
    ensures Disk(Zero()) == Zero()
  {
    XorLaws(Disk(g), Zero(), Zero());
    if Disk(drift) == drift {
      var r := Disk(Xor(Xor(Xor(Xor(Disk(g), drift), Zero()), Zero()), g));
      forall i | 0 <= i < BITS ensures r[i] == drift[i] {
        assert Disk(drift)[i] == drift[i];
      }
    }
  }

  lemma Spliced(logs: seq<Log>, i: nat, log: Log, more: seq<Log>)
    requires i < |logs|
    ensures var logs' := logs[..i] + [log] + more + logs[i + 1..];
            && |logs'| == |logs| + |more| && logs'[i] == log
            && logs'[..i] == logs[..i] && logs'[i + 1..] == more + logs[i + 1..]
  {
  }

  lemma XorCancels(a: Gstate, b: Gstate)
    ensures Xor(a, Xor(a, b)) == b && Xor(a, Zero()) == a
  {
  }

  lemma TotalOfNothing()
    ensures PlainLogs([]) && CleanLogs([]) && Total([]) == Zero()
  {
  }

  /** A compaction that writes the change and everything stolen into pair i, and links the pending pairs behind it. */
  lemma CompactResult(linked: seq<Log>, pending: seq<Log>, i: nat, tags: Log, change: Gstate, gdisk: Gstate,
                      gdelta: Gstate)
    requires PlainLogs(linked) && PlainLogs(pending) && CleanLogs(linked) && CleanLogs(pending) && i < |linked|
    requires PlainLog(tags) && NoState(tags)
    ensures var log := WithState(tags, Xor(Disk(Xor(change, gdelta)), Stored(linked[i])));
            var linked' := linked[..i] + [log] + pending + linked[i + 1..];
            var drift := Disk(Xor(Xor(Xor(Total(linked), Total(pending)), gdelta), gdisk));
            && tags <= log && PlainLogs(linked') && CleanLogs(linked') && Disk(drift) == drift
            && Total(linked') == Xor(Disk(Xor(gdisk, change)), drift)
  {
    var delta := Disk(Xor(change, gdelta));
    var piece := Xor(delta, Stored(linked[i]));
    WrittenStores(tags, piece);
    CleanTotal(linked);
    CleanTotal(pending);
    CompactTotals(Total(linked), Total(pending), change, gdisk, gdelta, Stored(linked[i]), delta);
    Replaced(linked, i, WithState(tags, piece), pending);
    XorLaws(Stored(linked[i]), delta, Zero());
    XorLaws(Xor(change, gdelta), Zero(), Zero());
    StillClean(linked, i, WithState(tags, piece), delta, pending);
    hide Xor, Disk, Stored, Total, Zero;
  }

  lemma AppendTotals(t: Gstate, gstate: Gstate, gdisk: Gstate, gdelta: Gstate, s: Gstate, delta: Gstate)
    requires delta == Disk(Xor(Xor(gstate, gdisk), gdelta)) && Disk(t) == t
    ensures var drift := Disk(Xor(Xor(Xor(t, Zero()), gdelta), gdisk));
            Disk(drift) == drift && Xor(Xor(t, s), Xor(Xor(s, delta), Zero())) == Xor(Disk(gstate), drift)
  {
    var drift := Disk(Xor(Xor(Xor(t, Zero()), gdelta), gdisk));
    forall i | 0 <= i < BITS
      ensures Xor(Xor(t, s), Xor(Xor(s, delta), Zero()))[i] == Xor(Disk(gstate), drift)[i]
    {
      assert Disk(t)[i] == t[i];
    }
  }

  lemma CompactTotals(t: Gstate, p: Gstate, change: Gstate, gdisk: Gstate, gdelta: Gstate, s: Gstate, delta: Gstate)
    requires delta == Disk(Xor(change, gdelta)) && Disk(t) == t && Disk(p) == p
    ensures var drift := Disk(Xor(Xor(Xor(t, p), gdelta), gdisk));
            && Disk(drift) == drift
            && Xor(Xor(t, s), Xor(Xor(delta, s), p)) == Xor(Disk(Xor(gdisk, change)), drift)
  {
    var drift := Disk(Xor(Xor(Xor(t, p), gdelta), gdisk));
    forall i | 0 <= i < BITS
      ensures Xor(Xor(t, s), Xor(Xor(delta, s), p))[i] == Xor(Disk(Xor(gdisk, change)), drift)[i]
    {
      assert Disk(t)[i] == t[i] && Disk(p)[i] == p[i];
    }
  }

  lemma TailTotals(t: Gstate, p: Gstate, change: Gstate, gdisk: Gstate, gdelta: Gstate, delta: Gstate)
    requires delta == Disk(Xor(change, gdelta))
    ensures Disk(Xor(Xor(Xor(t, Xor(delta, p)), Zero()), Xor(gdisk, change))) ==
            Disk(Xor(Xor(Xor(t, p), gdelta), gdisk))
  {
  }

  lemma DropTotals(t: Gstate, gdelta: Gstate, gdisk: Gstate, s: Gstate)
    ensures Disk(Xor(Xor(Xor(Xor(t, s), Zero()), Xor(gdelta, s)), gdisk)) ==
            Disk(Xor(Xor(Xor(t, Zero()), gdelta), gdisk))
  {
  }

  lemma StolenTotals(t: Gstate, gdelta: Gstate, gdisk: Gstate, s: Gstate)
    requires Disk(s) == s
    ensures Disk(Xor(Xor(t, Xor(gdelta, s)), gdisk)) == Xor(Disk(Xor(Xor(t, gdelta), gdisk)), s)
  {
    var x, y := Disk(Xor(Xor(t, Xor(gdelta, s)), gdisk)), Disk(Xor(Xor(t, gdelta), gdisk));
    forall i | 0 <= i < BITS ensures x[i] == Xor(y, s)[i] {
      assert Disk(s)[i] == s[i];
    }
  }

  lemma AbandonTotals(t: Gstate, p: Gstate, gdelta: Gstate, gdisk: Gstate)
    requires Disk(p) == p
    ensures Disk(Xor(Xor(Xor(t, Zero()), gdelta), gdisk)) == Xor(Disk(Xor(Xor(Xor(t, p), gdelta), gdisk)), p)
  {
    var x, y := Disk(Xor(Xor(Xor(t, Zero()), gdelta), gdisk)), Disk(Xor(Xor(Xor(t, p), gdelta), gdisk));
    forall i | 0 <= i < BITS ensures x[i] == Xor(y, p)[i] {
      assert Disk(p)[i] == p[i];
    }
  }
}
