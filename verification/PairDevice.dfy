/**
 * Commits issued operation by operation to a device whose power may fail: the attempt to append, the check that it
 * reads back, and the compaction (littlefs/lfs.c:1523-1701, 1870-1981, 2154-2241).
 */
module PairDevice {
  import opened Basics
  import opened MetadataLog
  import opened Compaction
  import opened MetadataPair
  import opened PairRuns
  import GlobalState

  lemma {:induction false} DoAllSnoc(d: Disk, ops: seq<Op>, op: Op)
    ensures DoAll(d, ops + [op]) == Do(DoAll(d, ops), op)
    decreases |ops|
  {
    if ops == [] {
      assert [op][1..] == [];
    } else {
      assert (ops + [op])[1..] == ops[1..] + [op];
      DoAllSnoc(Do(d, ops[0]), ops[1..], op);
    }
  }

  /** The first operations of a list have been done, and the power that is left. */
  ghost predicate Progress(d: Disk, d': Disk, ops: seq<Op>, i: nat, fuel: nat, fuel': nat) {
    i <= |ops| && d' == DoAll(d, ops[..i]) && fuel' + i == fuel
  }

  function Reached(ops: seq<Op>, fuel: nat): (k: nat)
    ensures k <= |ops|
  {
    if fuel < |ops| then fuel else |ops|
  }

  lemma Starting(d: Disk, ops: seq<Op>, fuel: nat)
    ensures Progress(d, d, ops, 0, fuel, fuel)
  {
  }

  lemma Arrived(d: Disk, d': Disk, ops: seq<Op>, fuel: nat, fuel': nat, damage: Damage)
    requires Progress(d, d', ops, |ops|, fuel, fuel')
    ensures |ops| <= fuel && d' == Crash(d, ops, Reached(ops, fuel), damage) == DoAll(d, ops)
  {
    assert ops[..|ops|] == ops;
  }

  /** Operations number base and on of a list program some units in order. */
  ghost predicate ProgramsAt(ops: seq<Op>, base: nat, second: bool, off: nat, us: seq<Unit>) {
    base + |us| <= |ops| && forall i :: 0 <= i < |us| ==> ops[base + i] == Prog(second, off + i, us[i])
  }

  lemma ProgramsIn(ops: seq<Op>, before: seq<Op>, second: bool, off: nat, us: seq<Unit>, after: seq<Op>)
    requires ops == before + Progs(second, off, us) + after
    ensures ProgramsAt(ops, |before|, second, off, us)
  {
    forall i | 0 <= i < |us| ensures ops[|before| + i] == Prog(second, off + i, us[i]) {
      assert ops[|before| + i] == Progs(second, off, us)[i];
    }
  }

  class Device {
    var disk: Disk
    var fuel: nat  // operations until power fails
    const damage: Damage

    constructor (disk: Disk, fuel: nat, damage: Damage)
      ensures this.disk == disk && this.fuel == fuel && this.damage == damage
    {
      this.disk, this.fuel, this.damage := disk, fuel, damage;
    }

    /** One device operation, number i of some list of operations. */
    method Issue(op: Op, ghost start: Disk, ghost power: nat, ghost ops: seq<Op>, ghost i: nat) returns (alive: bool)
      requires i < |ops| && ops[i] == op && Progress(start, disk, ops, i, power, fuel)
      modifies this
      ensures alive <==> i < power
      ensures alive ==> Progress(start, disk, ops, i + 1, power, fuel)
      ensures !alive ==> disk == Crash(start, ops, Reached(ops, power), damage)
    {
      if fuel == 0 {
        disk := Cut(disk, op, damage);
        return false;
      }
      assert ops[..i + 1] == ops[..i] + [op];
      DoAllSnoc(start, ops[..i], op);
      disk, fuel := Do(disk, op), fuel - 1;
      return true;
    }

    /** lfs_dir_commitattr for the first tags of a commit. */
    method WriteTags(second: bool, off: nat, tags: Log, count: nat,
                     ghost start: Disk, ghost power: nat, ghost ops: seq<Op>, ghost base: nat)
      returns (alive: bool)
      requires count <= |tags| && ProgramsAt(ops, base, second, off, AttrUnits(tags)[..count])
      requires Progress(start, disk, ops, base, power, fuel)
      modifies this
      ensures alive <==> base + count <= power
      ensures alive ==> Progress(start, disk, ops, base + count, power, fuel)
      ensures !alive ==> disk == Crash(start, ops, Reached(ops, power), damage)
    {
      hide Crash, Reached;
      BelowPower(start, disk, ops, base, power, fuel);
      var i := 0;
      while i < count
        invariant 0 <= i <= count && base + i <= power
        invariant Progress(start, disk, ops, base + i, power, fuel)
      {
        var u := Attr(tags[i]);
        assert AttrUnits(tags)[..count][i] == u;
        alive := Issue(Prog(second, off + i, u), start, power, ops, base + i);
        if !alive {
          return;
        }
        i := i + 1;
      }
      alive := true;
    }

    /** The tags and the checksum of a commit: lfs_dir_commitattr for each tag, then lfs_dir_commitcrc. */
    method WriteCommit(second: bool, off: nat, front: seq<Unit>, tags: Log, room: nat,
                       ghost start: Disk, ghost power: nat, ghost ops: seq<Op>, ghost base: nat)
      returns (alive: bool)
      requires ProgramsAt(ops, base, second, off, CommitUnits(front, tags, room))
      requires Progress(start, disk, ops, base, power, fuel)
      modifies this
      ensures alive <==> base + |CommitUnits(front, tags, room)| <= power
      ensures alive ==> Progress(start, disk, ops, base + |CommitUnits(front, tags, room)|, power, fuel)
      ensures !alive ==> disk == Crash(start, ops, Reached(ops, power), damage)
    {
      hide Crash, Reached;
      ghost var us := CommitUnits(front, tags, room);
      CommitShape(front, tags, room);
      BelowPower(start, disk, ops, base, power, fuel);
      var sum := front;
      var i := 0;
      while i < |tags|
        invariant 0 <= i <= |tags| && base + i <= power
        invariant sum == front + AttrUnits(tags)[..i]
        invariant Progress(start, disk, ops, base + i, power, fuel)
      {
        var u := Attr(tags[i]);
        assert us[i] == u;
        alive := Issue(Prog(second, off + i, u), start, power, ops, base + i);
        if !alive {
          return;
        }
        sum := sum + [u];
        i := i + 1;
      }
      assert AttrUnits(tags)[..i] == AttrUnits(tags);
      if |tags| + 2 < room {
        alive := Issue(Prog(second, off + i, Fcrc), start, power, ops, base + i);
        if !alive {
          return;
        }
        sum := sum + [Fcrc];
        i := i + 1;
      }
      assert sum == front + (AttrUnits(tags) + if |tags| + 2 < room then [Fcrc] else []);
      alive := Issue(Prog(second, off + i, Ccrc(sum)), start, power, ops, base + i);
    }

    /** lfs_dir_compact: erases the other block, writes the next revision, the tags and, if it fits, the checksum. */
    method Rewrite(m: Mdir, tags: Log, n: nat, flushed: nat,
                   ghost start: Disk, ghost power: nat, ghost ops: seq<Op>, ghost before: seq<Op>)
      returns (alive: bool)
      requires ops == before + if |tags| + 2 <= n then CompactOps(m, tags, n) else OverfullOps(m, tags, n, flushed)
      requires Progress(start, disk, ops, |before|, power, fuel)
      modifies this
      ensures alive <==> |ops| <= power
      ensures disk == Crash(start, ops, Reached(ops, power), damage)
    {
      hide Crash, Reached, Progress, Progs;
      ghost var base := |before|;
      var rev := Rev(NextRev(m.rev));
      RewriteOps(m, tags, n, flushed, ops, before);
      alive := Issue(Erase(!m.second), start, power, ops, base);
      if !alive {
        return;
      }
      if |tags| + 2 <= n {
        alive := Issue(Prog(!m.second, 0, rev), start, power, ops, base + 1);
        if alive {
          alive := WriteCommit(!m.second, 1, [rev], tags, n - 1, start, power, ops, base + 2);
        }
      } else if flushed > 0 && n > 1 {
        alive := Issue(Prog(!m.second, 0, rev), start, power, ops, base + 1);
        if alive {
          alive := WriteTags(!m.second, 1, tags, Min(flushed, n - 1) - 1, start, power, ops, base + 2);
        }
      } else {
        BelowPower(start, disk, ops, base + 1, power, fuel);
      }
      if alive {
        Arrived(start, disk, ops, power, fuel, damage);
      }
    }

    /**
     * lfs_dir_relocatingcommit: tries to append, and compacts if that does not fit or does not read back. It leaves
     * what cutting the operations of the commit at the point of power loss leaves, and, if power lasts, the directory
     * of a completed commit.
     */
    method Commit(m: Mdir, e: Event, n: nat) returns (alive: bool, m': Mdir)
      requires Inv(disk, m, n) && LogOk(m.log) && EventOk(m.log, e) && e.cut.None?
      modifies this
      ensures disk == Crash(old(disk), OpsOf(old(disk), m, e, n), Reached(OpsOf(old(disk), m, e, n), old(fuel)), damage)
      ensures alive <==> |OpsOf(old(disk), m, e, n)| <= old(fuel)
      ensures alive ==> (disk, m') == Step(old(disk), m, e, n)
      ensures !alive ==> m' == m
    {
      hide Crash, Reached, Progress, DoAll, Progs, AppendTags, CompactTags, CommitUnits, LogOk, EventOk, Inv, Appended;
      hide Rewritten;
      PlainOk(m.log);
      ghost var start, power, ops := disk, fuel, OpsOf(disk, m, e, n);
      ghost var triedOps := TriedOps(m, e, n);
      Starting(start, ops, power);
      TriedIssued(disk, m, e, n);
      m' := m;
      if m.erased {
        var tags := AppendTags(m.log, e);
        if m.off + |tags| + 1 <= n {
          alive := WriteCommit(m.second, m.off, [], tags, n - m.off, start, power, ops, 0);
          if !alive {
            return;
          }
          SoFar(start, disk, ops, triedOps, RestOps(start, m, e, n), power, fuel);
          if ReadsBack(Half(disk, m.second), m.off, CommitUnits([], tags, n - m.off)) {
            m' := Appended(m, tags, n);
            Arrived(start, disk, ops, power, fuel, damage);
            Uncut(start, m, e, n, damage, power);
            return;
          }
        } else {
          var count := Min(e.flushed, Min(|tags|, if m.off < n then n - 1 - m.off else 0));
          alive := WriteTags(m.second, m.off, tags, count, start, power, ops, 0);
          if !alive {
            return;
          }
        }
      }
      var tags := CompactionOf(m.log, e);
      alive := Rewrite(m, tags, n, e.reflushed, start, power, ops, triedOps);
      if alive {
        Uncut(start, m, e, n, damage, power);
        if |tags| + 2 <= n {
          m' := Rewritten(m, tags, n);
        }
      }
    }
  }

  lemma BelowPower(d: Disk, d': Disk, ops: seq<Op>, i: nat, fuel: nat, fuel': nat)
    requires Progress(d, d', ops, i, fuel, fuel')
    ensures i <= fuel
  {
  }

  /** An erase and some programming at the end of a list of operations. */
  lemma EraseAndProgs(ops: seq<Op>, before: seq<Op>, second: bool, us: seq<Unit>)
    requires ops == before + ([Erase(second)] + Progs(second, 0, us))
    ensures |ops| == |before| + 1 + |us| && ops[|before|] == Erase(second)
    ensures forall i :: 0 <= i < |us| ==> ops[|before| + 1 + i] == Prog(second, i, us[i])
  {
    forall i | 0 <= i < |us| ensures ops[|before| + 1 + i] == Prog(second, i, us[i]) {
      assert ops[|before| + 1 + i] == Progs(second, 0, us)[i];
    }
  }

  /** After the header follow the rest of the units. */
  lemma HeaderFirst(ops: seq<Op>, base: nat, second: bool, rev: Unit, us: seq<Unit>)
    requires |ops| == base + 1 + |us| + 1
    requires forall i :: 0 <= i < |us| + 1 ==> ops[base + 1 + i] == Prog(second, i, ([rev] + us)[i])
    ensures ops[base + 1] == Prog(second, 0, rev) && ProgramsAt(ops, base + 2, second, 1, us)
  {
    assert ops[base + 1 + 0] == Prog(second, 0, ([rev] + us)[0]);
    forall i | 0 <= i < |us| ensures ops[base + 2 + i] == Prog(second, 1 + i, us[i]) {
      assert ops[base + 1 + (i + 1)] == Prog(second, i + 1, ([rev] + us)[i + 1]);
    }
  }

  lemma RewriteOps(m: Mdir, tags: Log, n: nat, flushed: nat, ops: seq<Op>, before: seq<Op>)
    requires ops == before + if |tags| + 2 <= n then CompactOps(m, tags, n) else OverfullOps(m, tags, n, flushed)
    ensures var base, rev := |before|, Rev(NextRev(m.rev));
            && base < |ops| && ops[base] == Erase(!m.second)
            && (|tags| + 2 <= n ==>
                  && base + 1 < |ops| && ops[base + 1] == Prog(!m.second, 0, rev)
                  && ProgramsAt(ops, base + 2, !m.second, 1, CommitUnits([rev], tags, n - 1))
                  && |ops| == base + 2 + |CommitUnits([rev], tags, n - 1)|)
            && (|tags| + 2 > n && flushed > 0 && n > 1 ==>
                  var count := Min(flushed, n - 1) - 1;
                  && base + 1 < |ops| && ops[base + 1] == Prog(!m.second, 0, rev) && count <= |tags|
                  && ProgramsAt(ops, base + 2, !m.second, 1, AttrUnits(tags)[..count])
                  && |ops| == base + 2 + count)
            && (|tags| + 2 > n && !(flushed > 0 && n > 1) ==> |ops| == base + 1)
  {
    hide Progs, CommitUnits, AttrUnits, ProgramsAt, NextRev;
    var base, rev := |before|, Rev(NextRev(m.rev));
    if |tags| + 2 <= n {
      var us := CommitUnits([rev], tags, n - 1);
      EraseAndProgs(ops, before, !m.second, [rev] + us);
      HeaderFirst(ops, base, !m.second, rev, us);
    } else {
      AttrCount(tags);
      var us := OverfullUnits(m, tags, n, flushed);
      EraseAndProgs(ops, before, !m.second, us);
      if flushed > 0 && n > 1 {
        var attrs := AttrUnits(tags)[..Min(flushed, n - 1) - 1];
        assert us == [rev] + attrs;
        HeaderFirst(ops, base, !m.second, rev, attrs);
      }
    }
  }

  lemma AttrCount(tags: Log)
    ensures |AttrUnits(tags)| == |tags|
  {
  }

  /** The tags of a compaction, as lfs_dir_compact gathers them. */
  method CompactionOf(log: Log, e: Event) returns (tags: Log)
    requires LogOk(log) && EventOk(log, e)
    ensures tags == CompactTags(log, e)
  {
    AttrsMean(log, e);
    var count := Count(0, log) + Net(e.attrs);
    tags := Traverse(log, e.attrs, 0, count);
    tags := tags + TailTags(TailAfter(MeaningOf(log).tail, e.attrs));
    tags := tags + StateTags(GlobalState.Xor(e.delta, GlobalState.Stored(log)), false);
  }

  lemma TriedIssued(d: Disk, m: Mdir, e: Event, n: nat)
    requires PlainLog(m.log)
    ensures ProgramsAt(OpsOf(d, m, e, n), 0, m.second, m.off, Tried(m, e, n))
    ensures |TriedOps(m, e, n)| == |Tried(m, e, n)|
    ensures WayOf(d, m, e, n) != Append ==>
              OpsOf(d, m, e, n) == TriedOps(m, e, n) +
                if |CompactTags(m.log, e)| + 2 <= n then CompactOps(m, CompactTags(m.log, e), n)
                else OverfullOps(m, CompactTags(m.log, e), n, e.reflushed)
    ensures WayOf(d, m, e, n) == Append ==> OpsOf(d, m, e, n) == TriedOps(m, e, n)
  {
    hide Progs, DoAll, AppendTags, CompactTags, CommitUnits, ReadsBack, ProgramsAt, CompactOps, OverfullOps, Tried;
    assert OpsOf(d, m, e, n) == [] + TriedOps(m, e, n) + RestOps(d, m, e, n);
    ProgramsIn(OpsOf(d, m, e, n), [], m.second, m.off, Tried(m, e, n), RestOps(d, m, e, n));
  }

  /** With the first of two lists of operations done, the disk is what they make of it. */
  lemma SoFar(d: Disk, d': Disk, ops: seq<Op>, a: seq<Op>, b: seq<Op>, fuel: nat, fuel': nat)
    requires ops == a + b && Progress(d, d', ops, |a|, fuel, fuel')
    ensures d' == DoAll(d, a)
  {
    assert ops[..|a|] == a;
  }

  lemma Uncut(d: Disk, m: Mdir, e: Event, n: nat, damage: Damage, power: nat)
    requires PlainLog(m.log) && e.cut.None? && |OpsOf(d, m, e, n)| <= power
    ensures Crash(d, OpsOf(d, m, e, n), Reached(OpsOf(d, m, e, n), power), damage)
         == Crash(d, OpsOf(d, m, e, n), Completed(d, m, e, n), e.damage)
  {
  }
}
