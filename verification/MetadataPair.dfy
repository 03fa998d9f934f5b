/**
 * Power-loss atomicity of a metadata pair: commits by appending (littlefs/lfs.c:2157-2227, 1571-1701) and by
 * compaction (lfs.c:1870-1981), read back by lfs_dir_fetchmatch (lfs.c:1036-1310).
 *
 * Assumptions, made here once. A block is a sequence of units that are programmed in order; power loss leaves
 * the units programmed so far, and possibly one unreadable unit. A unit that is programmed without having been erased
 * becomes unreadable. The checksum is ideal: it accepts exactly the units it was computed over, so a checksum is
 * represented by those units.
 */
module MetadataPair {
  import opened Basics
  import opened MetadataLog

  datatype Unit =
    | Blank                     // erased
    | Rev(rev: u32)             // revision count at the front of a block
    | Attr(tag: Tag)
    | Fcrc                      // the next unit was erased when this commit was written
    | Ccrc(sum: seq<Unit>)      // ends a commit
    | Junk(word: u32)           // torn, or programmed twice

  type Block = seq<Unit>

  /** The two blocks of a pair. */
  datatype Disk = Disk(b0: Block, b1: Block)

  function Half(d: Disk, second: bool): (r: Block) {
    if second then d.b1 else d.b0
  }

  function SetHalf(d: Disk, second: bool, b: Block): (r: Disk) {
    if second then d.(b1 := b) else d.(b0 := b)
  }

  // ----- Revision counts: lfs_util.h:165-167 -----

  /** The distance from b to a around the 32-bit circle, as a signed number. */
  function Scmp(a: u32, b: u32): (r: int) {
    var diff := (a - b) % WORD;
    if diff >= WORD / 2 then diff - WORD else diff
  }

  function NextRev(r: u32): (result: u32) {
    (r + 1) % WORD
  }

  /** The next revision is newer, and the old one is not, also when the counter wraps. */
  lemma NextIsNewer(r: u32)
    ensures Scmp(NextRev(r), r) == 1 && Scmp(r, NextRev(r)) == -1
  {
  }

  /** The word found at the front of a block, whatever is there. */
  function FrontWord(b: Block): (r: u32) {
    if b == [] then 0
    else
      match b[0]
      case Rev(r) => r
      case Junk(w) => w
      case Blank => WORD - 1
      case _ => 0
  }

  // ----- Scanning a block -----

  /** What a scan has accepted so far; off is 0 while no commit is found. */
  datatype Scanned = Scanned(log: Log, off: nat, erased: bool)

  /** Looks at the unit at off again to see whether it is still erased. */
  predicate StillErased(b: Block, off: nat, hasFcrc: bool) {
    hasFcrc && off < |b| && b[off] == Blank
  }

  /** One block of lfs_dir_fetchmatch: run and pending are the units and tags since the last accepted commit. */
  function Scan(b: Block, i: nat, run: seq<Unit>, pending: Log, hasFcrc: bool, best: Scanned): (r: Scanned)
    decreases |b| - i
  {
    if i >= |b| then best.(erased := false)
    else
      match b[i]
      case Blank => best.(erased := StillErased(b, best.off, hasFcrc))
      case Attr(t) => Scan(b, i + 1, run + [b[i]], pending + [t], false, best)
      case Fcrc => Scan(b, i + 1, run + [b[i]], pending, true, best)
      case Ccrc(sum) =>
        if sum == run then Scan(b, i + 1, [], [], hasFcrc, Scanned(best.log + pending, i + 1, false))
        else best.(erased := false)
      case _ => best.(erased := false)
  }

  const NOTHING: Scanned := Scanned([], 0, false)

  function ScanBlock(b: Block): (r: Scanned) {
    if b == [] then NOTHING else Scan(b, 1, [b[0]], [], false, NOTHING)
  }

  /** The directory as it is kept in memory. */
  datatype Mdir = Mdir(second: bool, rev: u32, log: Log, off: nat, erased: bool)

  function Loaded(d: Disk, second: bool): (r: Mdir) {
    var s := ScanBlock(Half(d, second));
    Mdir(second, FrontWord(Half(d, second)), s.log, s.off, s.erased)
  }

  /** lfs_dir_fetchmatch: the newer block, or the other one if the newer has no valid commit. */
  function Fetch(d: Disk): (r: Option<Mdir>) {
    var newer := Scmp(FrontWord(d.b1), FrontWord(d.b0)) > 0;
    if Loaded(d, newer).off > 0 then Some(Loaded(d, newer))
    else if Loaded(d, !newer).off > 0 then Some(Loaded(d, !newer))
    else None
  }

  // ----- Committing -----

  function AttrUnits(tags: Log): (r: seq<Unit>) {
    seq(|tags|, i requires 0 <= i < |tags| => Attr(tags[i]))
  }

  /** The units of a commit that follows front, in a block with room units left; front is checksummed too. */
  function CommitUnits(front: seq<Unit>, tags: Log, room: nat): (r: seq<Unit>) {
    var body := AttrUnits(tags) + if |tags| + 2 < room then [Fcrc] else [];
    body + [Ccrc(front + body)]
  }

  /** Device operations. */
  datatype Op = Erase(second: bool) | Prog(second: bool, off: nat, u: Unit)

  function Progs(second: bool, off: nat, us: seq<Unit>): (ops: seq<Op>)
    ensures |ops| == |us|
  {
    seq(|us|, i requires 0 <= i < |us| => Prog(second, off + i, us[i]))
  }

  function AppendOps(m: Mdir, tags: Log, n: nat): (r: seq<Op>)
    requires m.off + |tags| + 1 <= n
  {
    Progs(m.second, m.off, CommitUnits([], tags, n - m.off))
  }

  function CompactOps(m: Mdir, tags: Log, n: nat): (r: seq<Op>)
    requires |tags| + 2 <= n
  {
    var front := [Rev(NextRev(m.rev))];
    [Erase(!m.second)] + Progs(!m.second, 0, front + CommitUnits(front, tags, n - 1))
  }

  /** Programming needs an erased unit. */
  predicate Allowed(d: Disk, op: Op) {
    op.Prog? ==> op.off < |Half(d, op.second)| && Half(d, op.second)[op.off] == Blank
  }

  /** What programming makes of a unit. */
  function Put(old_: Unit, u: Unit): (r: Unit) {
    if old_ == Blank then u else Junk(0)
  }

  /** One completed operation. */
  function Do(d: Disk, op: Op): (r: Disk) {
    var b := Half(d, op.second);
    match op
    case Erase(s) => SetHalf(d, s, seq(|b|, _ => Blank))
    case Prog(s, off, u) => if off < |b| then SetHalf(d, s, b[off := Put(b[off], u)]) else d
  }

  function DoAll(d: Disk, ops: seq<Op>): (r: Disk)
    decreases |ops|
  {
    if ops == [] then d else DoAll(Do(d, ops[0]), ops[1..])
  }

  ghost predicate AllAllowed(d: Disk, ops: seq<Op>)
    decreases |ops|
  {
    ops == [] || (Allowed(d, ops[0]) && AllAllowed(Do(d, ops[0]), ops[1..]))
  }

  /** What an operation that is cut off may leave: nothing changed, or damage where it was working. */
  datatype Damage = NoDamage | TornUnit(word: u32) | HalfErased(b: Block)

  /** A block whose erase was cut off: it cannot show a commit under a revision count that it did not have. */
  predicate Plausible(old_: Block, b: Block) {
    |b| == |old_| && (ScanBlock(b).off == 0 || (ScanBlock(old_).off > 0 && FrontWord(b) == FrontWord(old_)))
  }

  function Cut(d: Disk, op: Op, damage: Damage): (r: Disk) {
    match (op, damage)
    case (Prog(s, off, u), TornUnit(w)) =>
      if off < |Half(d, s)| then SetHalf(d, s, Half(d, s)[off := Junk(w)]) else d
    case (Erase(s), HalfErased(b)) => if Plausible(Half(d, s), b) then SetHalf(d, s, b) else d
    case _ => d
  }

  /** Power fails after k operations. */
  function Crash(d: Disk, ops: seq<Op>, k: nat, damage: Damage): (r: Disk)
    requires k <= |ops|
  {
    var d' := DoAll(d, ops[..k]);
    if k < |ops| then Cut(d', ops[k], damage) else d'
  }

  // ----- Scans of damaged and of completed commits -----

  lemma {:induction false} ScanBounds(b: Block, i: nat, run: seq<Unit>, pending: Log, hasFcrc: bool, best: Scanned)
    requires best.off <= i <= |b|
    ensures best.off <= Scan(b, i, run, pending, hasFcrc, best).off <= |b|
    decreases |b| - i
  {
    if i < |b| {
      match b[i] {
        case Attr(t) => ScanBounds(b, i + 1, run + [b[i]], pending + [t], false, best);
        case Fcrc => ScanBounds(b, i + 1, run + [b[i]], pending, true, best);
        case Ccrc(sum) =>
          if sum == run {
            ScanBounds(b, i + 1, [], [], hasFcrc, Scanned(best.log + pending, i + 1, false));
          }
        case _ =>
      }
    }
  }

  /** A scan keeps the best commit it knows, or finds one that ends further on. */
  lemma {:induction false} ScanStays(b: Block, i: nat, run: seq<Unit>, pending: Log, hasFcrc: bool, best: Scanned)
    requires best.off <= i <= |b|
    ensures var s := Scan(b, i, run, pending, hasFcrc, best);
            s.off > i || (s.off == best.off && s.log == best.log)
    decreases |b| - i
  {
    if i < |b| {
      match b[i] {
        case Attr(t) => ScanStays(b, i + 1, run + [b[i]], pending + [t], false, best);
        case Fcrc => ScanStays(b, i + 1, run + [b[i]], pending, true, best);
        case Ccrc(sum) =>
          if sum == run {
            ScanStays(b, i + 1, [], [], hasFcrc, Scanned(best.log + pending, i + 1, false));
          }
        case _ =>
      }
    }
  }

  /**
   * A scan that found the last commit ending at off passes off with nothing pending, in any block with the same
   * front.
   */
  lemma {:induction false} Resume(b: Block, b': Block, i: nat, run: seq<Unit>, pending: Log, hasFcrc: bool,
                                  best: Scanned, off: nat)
    requires best.off <= i <= off <= |b| == |b'| && b'[..off] == b[..off]
    requires best.off == i ==> run == [] && pending == []
    requires Scan(b, i, run, pending, hasFcrc, best).off == off
    ensures var s := Scan(b, i, run, pending, hasFcrc, best);
            exists f :: Scan(b', i, run, pending, hasFcrc, best) == Scan(b', off, [], [], f, Scanned(s.log, off, false))
    decreases |b| - i
  {
    ScanStays(b, i, run, pending, hasFcrc, best);
    if i == off {
      assert Scan(b', i, run, pending, hasFcrc, best) == Scan(b', off, [], [], hasFcrc, best.(erased := best.erased));
      AgainErased(b', off, hasFcrc, best);
    } else {
      assert b'[i] == b'[..off][i] == b[i];
      match b[i] {
        case Attr(t) => Resume(b, b', i + 1, run + [b[i]], pending + [t], false, best, off);
        case Fcrc => Resume(b, b', i + 1, run + [b[i]], pending, true, best, off);
        case Ccrc(sum) =>
          if sum == run {
            Resume(b, b', i + 1, [], [], hasFcrc, Scanned(best.log + pending, i + 1, false), off);
          }
        case _ =>
      }
    }
  }

  /** The erased mark of the best commit so far is decided anew at the end of the scan. */
  lemma {:induction false} AgainErased(b: Block, off: nat, hasFcrc: bool, best: Scanned)
    requires best.off == off <= |b|
    ensures Scan(b, off, [], [], hasFcrc, best) == Scan(b, off, [], [], hasFcrc, Scanned(best.log, off, false))
  {
    ErasedIrrelevant(b, off, [], [], hasFcrc, best, Scanned(best.log, off, false));
  }

  lemma {:induction false} ErasedIrrelevant(b: Block, i: nat, run: seq<Unit>, pending: Log, hasFcrc: bool,
                                            s: Scanned, t: Scanned)
    requires i <= |b| && s.log == t.log && s.off == t.off
    ensures Scan(b, i, run, pending, hasFcrc, s) == Scan(b, i, run, pending, hasFcrc, t)
    decreases |b| - i
  {
    if i < |b| {
      match b[i] {
        case Attr(a) => ErasedIrrelevant(b, i + 1, run + [b[i]], pending + [a], false, s, t);
        case Fcrc => ErasedIrrelevant(b, i + 1, run + [b[i]], pending, true, s, t);
        case _ =>
      }
    }
  }

  predicate Body(u: Unit) {
    u.Attr? || u.Fcrc?
  }

  predicate Stops(u: Unit) {
    u.Blank? || u.Junk?
  }

  /** Units of a commit without its checksum are not accepted. */
  lemma {:induction false} TornCommit(b: Block, i: nat, run: seq<Unit>, pending: Log, hasFcrc: bool, best: Scanned,
                                      end: nat)
    requires i <= end <= |b| && (forall j :: i <= j < end ==> Body(b[j])) && (end < |b| ==> Stops(b[end]))
    ensures Scan(b, i, run, pending, hasFcrc, best).log == best.log
    ensures Scan(b, i, run, pending, hasFcrc, best).off == best.off
    decreases |b| - i
  {
    if i < end {
      match b[i] {
        case Attr(t) => TornCommit(b, i + 1, run + [b[i]], pending + [t], false, best, end);
        case Fcrc => TornCommit(b, i + 1, run + [b[i]], pending, true, best, end);
      }
    }
  }

  /** A complete commit is accepted, and the block is known to be erased after it if there is room for more. */
  lemma {:induction false} WholeCommit(b: Block, i: nat, run: seq<Unit>, pending: Log, hasFcrc: bool, best: Scanned,
                                       tags: Log, fcrc: bool)
    requires i + |tags| + (if fcrc then 1 else 0) + 1 <= |b|
    requires var body := AttrUnits(tags) + if fcrc then [Fcrc] else [];
             b[i..i + |body| + 1] == body + [Ccrc(run + body)]
             && (i + |body| + 1 < |b| ==> b[i + |body| + 1] == Blank)
    ensures var s := Scan(b, i, run, pending, hasFcrc, best);
            && s.log == best.log + pending + tags
            && s.off == i + |tags| + (if fcrc then 1 else 0) + 1
            && (fcrc && s.off < |b| ==> s.erased)
            && (s.erased ==> s.off < |b|)
    decreases |tags|
  {
    hide Scan;
    var body := AttrUnits(tags) + if fcrc then [Fcrc] else [];
    var slice := b[i..i + |body| + 1];
    assert slice[0] == b[i] && slice[|body|] == b[i + |body|];
    if tags != [] {
      assert b[i] == Attr(tags[0]);
      ScanAttr(b, i, run, pending, hasFcrc, best);
      var body' := AttrUnits(tags[1..]) + if fcrc then [Fcrc] else [];
      assert body == [b[i]] + body';
      assert b[i + 1..i + 1 + |body'| + 1] == slice[1..];
      assert run + body == (run + [b[i]]) + body';
      WholeCommit(b, i + 1, run + [b[i]], pending + [tags[0]], false, best, tags[1..], fcrc);
      assert best.log + (pending + [tags[0]]) + tags[1..] == best.log + pending + tags;
    } else {
      assert body == if fcrc then [Fcrc] else [];
      assert run + [] == run;
      BareCommit(b, i, run, pending, hasFcrc, best, fcrc);
    }
  }

  lemma ScanAttr(b: Block, i: nat, run: seq<Unit>, pending: Log, hasFcrc: bool, best: Scanned)
    requires i < |b| && b[i].Attr?
    ensures Scan(b, i, run, pending, hasFcrc, best) ==
            Scan(b, i + 1, run + [b[i]], pending + [b[i].tag], false, best)
  {
  }

  /** The end of a commit: its checksum, perhaps behind a forward checksum. */
  lemma BareCommit(b: Block, i: nat, run: seq<Unit>, pending: Log, hasFcrc: bool, best: Scanned, fcrc: bool)
    requires var n := if fcrc then 1 else 0;
             && i + n < |b| && (fcrc ==> b[i] == Fcrc)
             && b[i + n] == Ccrc(run + if fcrc then [Fcrc] else [])
             && (i + n + 1 < |b| ==> b[i + n + 1] == Blank)
    ensures var s := Scan(b, i, run, pending, hasFcrc, best);
            && s.log == best.log + pending && s.off == i + (if fcrc then 1 else 0) + 1
            && (fcrc && s.off < |b| ==> s.erased) && (s.erased ==> s.off < |b|)
  {
    if fcrc {
      assert Scan(b, i, run, pending, hasFcrc, best) == Scan(b, i + 1, run + [b[i]], pending, true, best);
      assert Scan(b, i + 1, run + [b[i]], pending, true, best)
          == Scan(b, i + 2, [], [], true, Scanned(best.log + pending, i + 2, false));
    } else {
      assert run + [] == run;
    }
  }

  // ----- Programming a run of units -----

  function Written(b: Block, off: nat, us: seq<Unit>): (b': Block)
    requires off + |us| <= |b|
    ensures |b'| == |b|
  {
    seq(|b|, i requires 0 <= i < |b| => if off <= i < off + |us| then Put(b[i], us[i - off]) else b[i])
  }

  lemma ProgsCons(second: bool, off: nat, us: seq<Unit>)
    ensures us == [] ==> Progs(second, off, us) == []
    ensures us != [] ==> Progs(second, off, us) == [Prog(second, off, us[0])] + Progs(second, off + 1, us[1..])
  {
  }

  lemma WrittenCons(b: Block, off: nat, us: seq<Unit>)
    requires off + |us| <= |b|
    ensures us == [] ==> Written(b, off, us) == b
    ensures us != [] ==> Written(b, off, us) == Written(b[off := Put(b[off], us[0])], off + 1, us[1..])
  {
  }

  predicate BlankRun(b: Block, off: nat, n: nat) {
    off + n <= |b| && forall i :: off <= i < off + n ==> b[i] == Blank
  }

  lemma BlankRunCons(b: Block, off: nat, us: seq<Unit>)
    requires off + |us| <= |b|
    ensures us == [] ==> BlankRun(b, off, |us|)
    ensures us != [] ==> (BlankRun(b, off, |us|) <==>
                          b[off] == Blank && BlankRun(b[off := Put(b[off], us[0])], off + 1, |us[1..]|))
  {
    if us != [] && b[off] == Blank && BlankRun(b[off := Put(b[off], us[0])], off + 1, |us[1..]|) {
      forall i | off <= i < off + |us| ensures b[i] == Blank {
        assert i > off ==> b[off := Put(b[off], us[0])][i] == b[i];
      }
    }
  }

  lemma {:induction false} ProgsWrite(d: Disk, second: bool, off: nat, us: seq<Unit>)
    requires off + |us| <= |Half(d, second)|
    ensures DoAll(d, Progs(second, off, us)) == SetHalf(d, second, Written(Half(d, second), off, us))
    ensures AllAllowed(d, Progs(second, off, us)) <==> BlankRun(Half(d, second), off, |us|)
    decreases |us|
  {
    hide Progs, Written, BlankRun;
    var b := Half(d, second);
    ProgsCons(second, off, us);
    WrittenCons(b, off, us);
    BlankRunCons(b, off, us);
    if us != [] {
      var d' := Do(d, Prog(second, off, us[0]));
      ProgsWrite(d', second, off + 1, us[1..]);
      assert Progs(second, off, us)[1..] == Progs(second, off + 1, us[1..]);
    }
  }

  // ----- The state in memory matches the disk -----

  /** In an intact block nothing is programmed behind an erased unit. */
  ghost predicate Tidy(b: Block) {
    forall i, j :: 0 < i < j < |b| && b[i] == Blank ==> b[j] == Blank
  }

  /** m is what a mount would load, up to the erased mark, and its block is intact. */
  ghost predicate Inv(d: Disk, m: Mdir, n: nat) {
    && |d.b0| == n && |d.b1| == n
    && Fetch(d).Some? && m == Fetch(d).value.(erased := m.erased)
    && Tidy(Half(d, m.second))
    && 0 < m.off <= n
  }

  /** The rest of a block is erased. */
  ghost predicate BlankFrom(b: Block, off: nat) {
    forall i :: off <= i < |b| ==> b[i] == Blank
  }

  /** The erased mark in memory is true of the disk. */
  ghost predicate Clean(d: Disk, m: Mdir) {
    m.erased ==> BlankFrom(Half(d, m.second), m.off)
  }

  lemma LoadedFacts(d: Disk, m: Mdir, n: nat)
    requires Inv(d, m, n)
    ensures |d.b0| == n && |d.b1| == n && 0 < m.off <= n && |Half(d, m.second)| == n
    ensures m == Loaded(d, m.second).(erased := m.erased)
    ensures Tidy(Half(d, m.second))
    ensures m.off < n && Half(d, m.second)[m.off] == Blank ==> BlankFrom(Half(d, m.second), m.off)
  {
  }

  /** Whatever the block of m turns into, it is still chosen if the revisions say so or the other block is dead. */
  lemma StillChosen(d: Disk, m: Mdir, n: nat, d': Disk)
    requires Inv(d, m, n)
    requires FrontWord(Half(d', m.second)) == FrontWord(Half(d, m.second)) && ScanBlock(Half(d', m.second)).off > 0
    requires Half(d', !m.second) == Half(d, !m.second) || Plausible(Half(d, !m.second), Half(d', !m.second))
             || ScanBlock(Half(d', !m.second)).off == 0
    ensures Fetch(d') == Some(Loaded(d', m.second))
  {
  }

  /** What a mount loads satisfies the invariant if its block is intact, and what it says about the rest is true. */
  lemma LoadedInv(d: Disk, n: nat)
    requires |d.b0| == n && |d.b1| == n && Fetch(d).Some? && Tidy(Half(d, Fetch(d).value.second))
    ensures Inv(d, Fetch(d).value, n) && Clean(d, Fetch(d).value)
  {
    var m := Fetch(d).value;
    var b := Half(d, m.second);
    ScanBounds(b, 1, [b[0]], [], false, NOTHING);
    ScanErased(b, 1, [b[0]], [], false, NOTHING);
  }

  lemma {:induction false} ScanErased(b: Block, i: nat, run: seq<Unit>, pending: Log, hasFcrc: bool, best: Scanned)
    requires !best.erased
    ensures var s := Scan(b, i, run, pending, hasFcrc, best);
            s.erased ==> s.off < |b| && b[s.off] == Blank
    decreases |b| - i
  {
    if i < |b| {
      match b[i] {
        case Attr(t) => ScanErased(b, i + 1, run + [b[i]], pending + [t], false, best);
        case Fcrc => ScanErased(b, i + 1, run + [b[i]], pending, true, best);
        case Ccrc(sum) =>
          if sum == run {
            ScanErased(b, i + 1, [], [], hasFcrc, Scanned(best.log + pending, i + 1, false));
          }
        case _ =>
      }
    }
  }

  /** A block after the first k of some units, the next one possibly torn. */
  predicate Partial(b: Block, b': Block, off: nat, us: seq<Unit>, k: nat) {
    && k <= |us| && off + |us| <= |b| == |b'|
    && (|| b' == Written(b, off, us[..k])
        || (k < |us| && b'[off + k].Junk? && b' == Written(b, off, us[..k])[off + k := b'[off + k]]))
  }

  lemma CrashedProgs(d: Disk, second: bool, off: nat, us: seq<Unit>, k: nat, damage: Damage)
    requires off + |us| <= |Half(d, second)| && k <= |us|
    ensures var d' := Crash(d, Progs(second, off, us), k, damage);
            Half(d', !second) == Half(d, !second) && Partial(Half(d, second), Half(d', second), off, us, k)
  {
    assert Progs(second, off, us)[..k] == Progs(second, off, us[..k]);
    ProgsWrite(d, second, off, us[..k]);
  }

  /** What a partial write to the erased end of a block looks like unit by unit. */
  lemma PartialUnits(b: Block, b': Block, off: nat, us: seq<Unit>, k: nat)
    requires Partial(b, b', off, us, k) && BlankFrom(b, off)
    ensures k <= |us| && off + |us| <= |b| == |b'|
    ensures b'[..off] == b[..off]
    ensures forall i :: off <= i < off + k ==> b'[i] == us[i - off]
    ensures off + k < |b| ==> Stops(b'[off + k])
    ensures forall i :: off + k < i < |b| ==> b'[i] == Blank
    ensures k == |us| && off + k < |b| ==> b'[off + k] == Blank
  {
  }

  /** What any partial write looks like: units are programmed or not, and the front is as it was. */
  lemma PartialAnywhere(b: Block, b': Block, off: nat, us: seq<Unit>, k: nat)
    requires Partial(b, b', off, us, k)
    ensures |b'| == |b| && b'[..off] == b[..off]
    ensures forall i :: off <= i < off + k ==> b'[i] == Put(b[i], us[i - off])
    ensures k < |us| ==> b'[off + k] == b[off + k] || b'[off + k].Junk?
    ensures forall i :: off + k < i < |b| ==> b'[i] == b[i]
    ensures k == |us| && off + k < |b| ==> b'[off + k] == b[off + k]
  {
  }

  /** Writing from the end of the commits on keeps a block tidy. */
  lemma TidyAppend(b: Block, b': Block, off: nat, us: seq<Unit>, k: nat)
    requires Partial(b, b', off, us, k) && Tidy(b)
    requires (forall i :: 0 < i < off ==> b[i] != Blank) && (forall i :: 0 <= i < |us| ==> us[i] != Blank)
    ensures Tidy(b')
  {
    PartialAnywhere(b, b', off, us, k);
    forall i | 0 < i < off + k ensures b'[i] != Blank {
      if i < off {
        assert b'[i] == b'[..off][i] == b[i];
      }
    }
    forall i, j | 0 < i < j < |b'| && b'[i] == Blank ensures b'[j] == Blank {
      assert b[i] == Blank && b[j] == Blank;
    }
  }

  /** Accepted commits contain no erased unit. */
  lemma {:induction false} AcceptedNotBlank(b: Block, i: nat, run: seq<Unit>, pending: Log, hasFcrc: bool,
                                            best: Scanned)
    requires best.off <= i
    ensures forall j :: i <= j < Scan(b, i, run, pending, hasFcrc, best).off && j < |b| ==> b[j] != Blank
    decreases |b| - i
  {
    if i < |b| {
      match b[i] {
        case Attr(t) => AcceptedNotBlank(b, i + 1, run + [b[i]], pending + [t], false, best);
        case Fcrc => AcceptedNotBlank(b, i + 1, run + [b[i]], pending, true, best);
        case Ccrc(sum) =>
          if sum == run {
            AcceptedNotBlank(b, i + 1, [], [], hasFcrc, Scanned(best.log + pending, i + 1, false));
          }
        case _ =>
      }
    }
  }

  lemma BlockNotBlank(b: Block)
    ensures forall j :: 0 < j < ScanBlock(b).off && j < |b| ==> b[j] != Blank
  {
    hide Scan;
    if b != [] {
      AcceptedNotBlank(b, 1, [b[0]], [], false, NOTHING);
    }
  }

  /** A block with no checksum in it shows no commit. */
  lemma NeverCommitted(b: Block, end: nat)
    requires 1 <= end <= |b| && (forall j :: 1 <= j < end ==> Body(b[j])) && (end < |b| ==> Stops(b[end]))
    ensures ScanBlock(b).off == 0
  {
    hide Scan, Body, Stops;
    TornCommit(b, 1, [b[0]], [], false, NOTHING, end);
  }

  // ----- Atomicity of an append -----

  lemma CommitShape(front: seq<Unit>, tags: Log, room: nat)
    ensures var us := CommitUnits(front, tags, room);
            && |us| == |tags| + (if |tags| + 2 < room then 1 else 0) + 1
            && (forall i :: 0 <= i < |us| - 1 ==> Body(us[i]))
            && us[|us| - 1].Ccrc?
            && (forall i :: 0 <= i < |us| ==> us[i] != Blank)
  {
  }

  lemma SliceIs(b: Block, off: nat, us: seq<Unit>)
    requires off + |us| <= |b| && forall i :: 0 <= i < |us| ==> b[off + i] == us[i]
    ensures b[off..off + |us|] == us
  {
  }

  /** Scanning the block of m after part of an appended commit. */
  lemma AppendScan(b: Block, b': Block, off: nat, tags: Log, k: nat)
    requires ScanBlock(b).off == off && 0 < off && off + |tags| + 1 <= |b|
    requires BlankFrom(b, off)
    requires Partial(b, b', off, CommitUnits([], tags, |b| - off), k)
    ensures FrontWord(b') == FrontWord(b)
    ensures ScanBlock(b').off >= off
    ensures k < |CommitUnits([], tags, |b| - off)| ==> ScanBlock(b').log == ScanBlock(b).log && ScanBlock(b').off == off
    ensures k == |CommitUnits([], tags, |b| - off)| ==>
              ScanBlock(b').log == ScanBlock(b).log + tags && ScanBlock(b').off == off + k
    ensures k == |CommitUnits([], tags, |b| - off)| && |tags| + 2 < |b| - off ==> ScanBlock(b').erased
  {
    hide Scan;
    var us := CommitUnits([], tags, |b| - off);
    CommitShape([], tags, |b| - off);
    PartialUnits(b, b', off, us, k);
    assert b'[0] == b'[..off][0] == b[..off][0] == b[0];
    Resume(b, b', 1, [b[0]], [], false, NOTHING, off);
    var f :| ScanBlock(b') == Scan(b', off, [], [], f, Scanned(ScanBlock(b).log, off, false));
    var best := Scanned(ScanBlock(b).log, off, false);
    if k < |us| {
      TornCommit(b', off, [], [], f, best, off + k);
    } else {
      var fcrc := |tags| + 2 < |b| - off;
      var body := AttrUnits(tags) + if fcrc then [Fcrc] else [];
      assert [] + body == body;
      SliceIs(b', off, us);
      WholeCommit(b', off, [], [], f, best, tags, fcrc);
      assert best.log + [] + tags == best.log + tags;
    }
  }

  /** The directory in memory after a complete append. */
  function Appended(m: Mdir, tags: Log, n: nat): (r: Mdir)
    requires m.off + |tags| + 1 <= n
  {
    m.(log := m.log + tags, off := m.off + |AppendOps(m, tags, n)|)
  }

  /**
   * Appending a commit is atomic: wherever power fails, a mount finds the log before or after it, after it only
   * if every unit was written, and the pair is intact again. Only erased units are programmed.
   */
  lemma AppendAtomic(d: Disk, m: Mdir, n: nat, tags: Log, k: nat, damage: Damage)
    requires Inv(d, m, n) && m.off + |tags| + 1 <= n && k <= |AppendOps(m, tags, n)|
    requires BlankFrom(Half(d, m.second), m.off)
    ensures AllAllowed(d, AppendOps(m, tags, n))
    ensures var d' := Crash(d, AppendOps(m, tags, n), k, damage);
            && Fetch(d').Some? && Inv(d', Fetch(d').value, n) && Clean(d', Fetch(d').value)
            && Fetch(d').value.log == (if k < |AppendOps(m, tags, n)| then m.log else m.log + tags)
            && (k == |AppendOps(m, tags, n)| ==>
                  var m' := Appended(m, tags, n); Inv(d', m', n) && BlankFrom(Half(d', m'.second), m'.off))
  {
    hide Scan, ScanBlock, Fetch, DoAll, AllAllowed, Progs, AttrUnits, Tidy;
    LoadedFacts(d, m, n);
    var b := Half(d, m.second);
    var us := CommitUnits([], tags, n - m.off);
    CommitShape([], tags, n - m.off);
    ProgsWrite(d, m.second, m.off, us);
    CrashedProgs(d, m.second, m.off, us, k, damage);
    var d' := Crash(d, AppendOps(m, tags, n), k, damage);
    AppendScan(b, Half(d', m.second), m.off, tags, k);
    BlockNotBlank(b);
    TidyAppend(b, Half(d', m.second), m.off, us, k);
    PartialUnits(b, Half(d', m.second), m.off, us, k);
    StillChosen(d, m, n, d');
    LoadedInv(d', n);
  }

  // ----- An append that is given up -----

  /** A scan stops where an unreadable unit stands behind the last commit. */
  lemma StaleScan(b: Block, b': Block, off: nat)
    requires ScanBlock(b).off == off && 0 < off < |b| == |b'| && b'[..off] == b[..off] && Stops(b'[off])
    ensures FrontWord(b') == FrontWord(b) && ScanBlock(b').off == off && ScanBlock(b').log == ScanBlock(b).log
  {
    hide Scan;
    assert b'[0] == b'[..off][0] == b[..off][0] == b[0];
    Resume(b, b', 1, [b[0]], [], false, NOTHING, off);
    var f :| ScanBlock(b') == Scan(b', off, [], [], f, Scanned(ScanBlock(b).log, off, false));
    TornCommit(b', off, [], [], f, Scanned(ScanBlock(b).log, off, false), off);
  }

  /** A scan does not accept a run of units without a checksum. */
  lemma UnfinishedScan(b: Block, b': Block, off: nat, end: nat)
    requires ScanBlock(b).off == off && 0 < off <= end <= |b| == |b'| && b'[..off] == b[..off]
    requires (forall i :: off <= i < end ==> Body(b'[i])) && (end < |b'| ==> Stops(b'[end]))
    ensures FrontWord(b') == FrontWord(b) && ScanBlock(b').off == off && ScanBlock(b').log == ScanBlock(b).log
  {
    hide Scan, Stops, Body;
    assert b'[0] == b'[..off][0] == b[..off][0] == b[0];
    Resume(b, b', 1, [b[0]], [], false, NOTHING, off);
    var f :| ScanBlock(b') == Scan(b', off, [], [], f, Scanned(ScanBlock(b).log, off, false));
    TornCommit(b', off, [], [], f, Scanned(ScanBlock(b).log, off, false), end);
  }

  /** Units that do no harm behind the commits of a block: no checksum is among them, or the first is spoilt already. */
  predicate Harmless(b: Block, off: nat, us: seq<Unit>) {
    && (forall i :: 0 <= i < |us| ==> Body(us[i]) || us[i].Ccrc?)
    && ((off < |b| && b[off] != Blank) || forall i :: 0 <= i < |us| ==> Body(us[i]))
  }

  /** Scanning a block after some harmless units were programmed: the commits are as they were. */
  lemma HarmlessScan(b: Block, b': Block, off: nat, us: seq<Unit>, k: nat)
    requires ScanBlock(b).off == off && 0 < off && Tidy(b) && Partial(b, b', off, us, k) && Harmless(b, off, us)
    ensures FrontWord(b') == FrontWord(b) && ScanBlock(b').off == off && ScanBlock(b').log == ScanBlock(b).log
    ensures Tidy(b')
  {
    hide Scan, ScanBlock;
    BlockNotBlank(b);
    TidyAppend(b, b', off, us, k);
    PartialAnywhere(b, b', off, us, k);
    if us == [] {
      assert b' == b;
    } else if b[off] != Blank {
      if k > 0 || b'[off] != b[off] {
        StaleScan(b, b', off);
      } else {
        assert b' == b;
      }
    } else {
      assert BlankFrom(b, off);
      PartialUnits(b, b', off, us, k);
      UnfinishedScan(b, b', off, off + k);
    }
  }

  /**
   * Programming harmless units behind the commits, cut anywhere, leaves the directory as it was. If anything was
   * programmed, the erased mark in memory is no longer true.
   */
  lemma TriedHarmless(d: Disk, m: Mdir, n: nat, us: seq<Unit>, k: nat, damage: Damage)
    requires Inv(d, m, n) && m.off + |us| <= n && k <= |us| && Harmless(Half(d, m.second), m.off, us)
    ensures var d' := Crash(d, Progs(m.second, m.off, us), k, damage);
            && Fetch(d').Some? && Inv(d', Fetch(d').value, n) && Clean(d', Fetch(d').value)
            && Fetch(d').value.log == m.log && Inv(d', m, n)
            && (k == |us| > 0 ==> Half(d', m.second)[m.off] != Blank)
            && (us == [] ==> d' == d)
  {
    hide Scan, ScanBlock, Fetch, DoAll, Progs, Tidy;
    LoadedFacts(d, m, n);
    var b := Half(d, m.second);
    CrashedProgs(d, m.second, m.off, us, k, damage);
    var d' := Crash(d, Progs(m.second, m.off, us), k, damage);
    HarmlessScan(b, Half(d', m.second), m.off, us, k);
    PartialAnywhere(b, Half(d', m.second), m.off, us, k);
    StillChosen(d, m, n, d');
    LoadedInv(d', n);
    SameDirectory(d, m, n, d');
    if us == [] {
      NothingIssued(d, Progs(m.second, m.off, us), damage);
    }
  }

  lemma NothingIssued(d: Disk, ops: seq<Op>, damage: Damage)
    requires ops == []
    ensures Crash(d, ops, 0, damage) == d
  {
  }

  lemma SameDirectory(d: Disk, m: Mdir, n: nat, d': Disk)
    requires Inv(d, m, n) && Fetch(d') == Some(Loaded(d', m.second)) && Inv(d', Fetch(d').value, n)
    requires ScanBlock(Half(d', m.second)).log == ScanBlock(Half(d, m.second)).log
    requires ScanBlock(Half(d', m.second)).off == ScanBlock(Half(d, m.second)).off
    requires FrontWord(Half(d', m.second)) == FrontWord(Half(d, m.second))
    ensures Inv(d', m, n) && Fetch(d').value.log == m.log
  {
  }

  /** The check of lfs_dir_commitcrc after the last unit: what was written reads back. */
  predicate ReadsBack(b: Block, off: nat, us: seq<Unit>) {
    off + |us| <= |b| && b[off..off + |us|] == us
  }

  /** A commit reads back exactly if the block was erased where it begins. */
  lemma ReadsBackExactly(d: Disk, m: Mdir, n: nat, us: seq<Unit>)
    requires Inv(d, m, n) && us != [] && m.off + |us| <= n
    requires forall i :: 0 <= i < |us| ==> Body(us[i]) || us[i].Ccrc?
    ensures ReadsBack(Half(DoAll(d, Progs(m.second, m.off, us)), m.second), m.off, us) <==>
            BlankFrom(Half(d, m.second), m.off)
  {
    hide Scan, ScanBlock, Fetch, DoAll, Progs, Tidy;
    LoadedFacts(d, m, n);
    ProgsWrite(d, m.second, m.off, us);
    var b := Half(d, m.second);
    var b' := Written(b, m.off, us);
    if ReadsBack(b', m.off, us) {
      assert b'[m.off..m.off + |us|][0] == us[0];
    }
  }

  // ----- Atomicity of a compaction -----

  /** Scanning a block that was erased and then got a header and part of a commit. */
  lemma FreshScan(b: Block, b': Block, rev: u32, tags: Log, k: nat)
    requires |tags| + 2 <= |b| && BlankFrom(b, 0)
    requires Partial(b, b', 0, [Rev(rev)] + CommitUnits([Rev(rev)], tags, |b| - 1), k)
    ensures var us := [Rev(rev)] + CommitUnits([Rev(rev)], tags, |b| - 1);
            && (k < |us| ==> ScanBlock(b').off == 0)
            && (k == |us| ==>
                  FrontWord(b') == rev && ScanBlock(b').log == tags && ScanBlock(b').off == |us| && Tidy(b'))
            && (forall i :: |us| <= i < |b| ==> b'[i] == Blank)
            && (k == |us| && |tags| + 3 < |b| ==> ScanBlock(b').erased)
  {
    hide ScanBlock, CommitUnits, Tidy, Partial, BlankFrom, FrontWord;
    CommitShape([Rev(rev)], tags, |b| - 1);
    PartialUnits(b, b', 0, [Rev(rev)] + CommitUnits([Rev(rev)], tags, |b| - 1), k);
    if k < 1 + |CommitUnits([Rev(rev)], tags, |b| - 1)| {
      FreshCut(b', rev, CommitUnits([Rev(rev)], tags, |b| - 1), k);
    } else {
      BlankIsTidy(b);
      TidyAppend(b, b', 0, [Rev(rev)] + CommitUnits([Rev(rev)], tags, |b| - 1), k);
      FreshDone(b', rev, tags);
    }
  }

  /** A header, if that much was written, and part of a commit. */
  lemma FreshCut(b: Block, rev: u32, cu: seq<Unit>, k: nat)
    requires k < 1 + |cu| <= |b| && (forall i :: 0 <= i < |cu| - 1 ==> Body(cu[i]))
    requires forall i :: 0 <= i < k ==> b[i] == ([Rev(rev)] + cu)[i]
    requires Stops(b[k]) && forall i :: k < i < |b| ==> b[i] == Blank
    ensures ScanBlock(b).off == 0
  {
    hide Scan, Body, Stops;
    forall i | 1 <= i < k ensures Body(b[i]) {
      assert b[i] == ([Rev(rev)] + cu)[i] == cu[i - 1];
    }
    BlankStops();
    TornCommit(b, 1, [b[0]], [], false, NOTHING, if k > 1 then k else 1);
  }

  lemma BlankStops()
    ensures Stops(Blank)
  {
  }

  lemma FreshDone(b: Block, rev: u32, tags: Log)
    requires |b| > 0 && 1 + |CommitUnits([Rev(rev)], tags, |b| - 1)| <= |b|
    requires var us := [Rev(rev)] + CommitUnits([Rev(rev)], tags, |b| - 1);
             && (forall i :: 0 <= i < |us| ==> b[i] == us[i]) && (|us| < |b| ==> b[|us|] == Blank)
    ensures FrontWord(b) == rev && ScanBlock(b).log == tags
    ensures ScanBlock(b).off == 1 + |CommitUnits([Rev(rev)], tags, |b| - 1)|
    ensures |tags| + 3 < |b| ==> ScanBlock(b).erased
  {
    hide CommitUnits, ScanBlock, FrontWord;
    var cu := CommitUnits([Rev(rev)], tags, |b| - 1);
    var us := [Rev(rev)] + cu;
    assert b[0] == us[0];
    forall i | 0 <= i < |cu| ensures b[1 + i] == cu[i] {
      assert b[1 + i] == us[1 + i];
    }
    SliceIs(b, 1, cu);
    FreshCommit(b, rev, tags);
  }

  lemma BlankIsTidy(b: Block)
    requires BlankFrom(b, 0)
    ensures Tidy(b)
  {
  }

  /** A header and a complete commit behind it. */
  lemma FreshCommit(b: Block, rev: u32, tags: Log)
    requires |b| > 0 && 1 + |CommitUnits([Rev(rev)], tags, |b| - 1)| <= |b| && b[0] == Rev(rev)
    requires var cu := CommitUnits([Rev(rev)], tags, |b| - 1);
             b[1..1 + |cu|] == cu && (1 + |cu| < |b| ==> b[1 + |cu|] == Blank)
    ensures FrontWord(b) == rev && ScanBlock(b).log == tags
    ensures ScanBlock(b).off == 1 + |CommitUnits([Rev(rev)], tags, |b| - 1)|
    ensures |tags| + 3 < |b| ==> ScanBlock(b).erased
  {
    hide Scan;
    CommitShape([Rev(rev)], tags, |b| - 1);
    WholeCommit(b, 1, [Rev(rev)], [], false, NOTHING, tags, |tags| + 2 < |b| - 1);
    assert [] + [] + tags == tags;
  }

  /** Power fails after k operations of a compaction: before the erase, in it, or in the writing. */
  lemma CrashedCompaction(d: Disk, m: Mdir, n: nat, tags: Log, k: nat, damage: Damage)
    requires |d.b0| == n && |d.b1| == n && |tags| + 2 <= n && k <= |CompactOps(m, tags, n)|
    ensures var d' := Crash(d, CompactOps(m, tags, n), k, damage);
            var us := [Rev(NextRev(m.rev))] + CommitUnits([Rev(NextRev(m.rev))], tags, n - 1);
            var blank := seq(n, _ => Blank);
            && Half(d', m.second) == Half(d, m.second)
            && (k == 0 ==> || Half(d', !m.second) == Half(d, !m.second)
                           || Plausible(Half(d, !m.second), Half(d', !m.second)))
            && (k > 0 ==> Partial(blank, Half(d', !m.second), 0, us, k - 1))
    ensures AllAllowed(d, CompactOps(m, tags, n))
  {
    var front := [Rev(NextRev(m.rev))];
    CommitShape(front, tags, n - 1);
    EraseThenWrite(d, !m.second, n, front + CommitUnits(front, tags, n - 1), k, damage);
  }

  lemma EraseThenWrite(d: Disk, second: bool, n: nat, us: seq<Unit>, k: nat, damage: Damage)
    requires |d.b0| == n && |d.b1| == n && |us| <= n && k <= |us| + 1
    ensures var ops := [Erase(second)] + Progs(second, 0, us);
            var d' := Crash(d, ops, k, damage);
            && Half(d', !second) == Half(d, !second)
            && (k == 0 ==> Half(d', second) == Half(d, second) || Plausible(Half(d, second), Half(d', second)))
            && (k > 0 ==> Partial(seq(n, _ => Blank), Half(d', second), 0, us, k - 1))
            && AllAllowed(d, ops)
  {
    hide Progs, Scan, ScanBlock;
    var ops := [Erase(second)] + Progs(second, 0, us);
    var d1 := Do(d, ops[0]);
    assert ops[1..] == Progs(second, 0, us);
    ProgsWrite(d1, second, 0, us);
    if k > 0 {
      CrashTail(d, Erase(second), Progs(second, 0, us), k, damage);
      hide Crash;
      CrashedProgs(d1, second, 0, us, k - 1, damage);
    }
  }

  lemma CrashTail(d: Disk, op: Op, rest: seq<Op>, k: nat, damage: Damage)
    requires 0 < k <= |rest| + 1
    ensures Crash(d, [op] + rest, k, damage) == Crash(Do(d, op), rest, k - 1, damage)
  {
    hide Do, Cut;
    var ops := [op] + rest;
    assert ops[..k][0] == op && ops[..k][1..] == rest[..k - 1];
  }

  /** The directory in memory after a complete compaction. */
  function Rewritten(m: Mdir, tags: Log, n: nat): (r: Mdir)
    requires |tags| + 2 <= n
  {
    Mdir(!m.second, NextRev(m.rev), tags, |CompactOps(m, tags, n)| - 1, m.erased)
  }

  /**
   * Compaction is atomic: wherever power fails, a mount finds the old log in the old block or the new log in the
   * other one, the new one only if every unit was written, also when the revision count wraps around.
   */
  lemma CompactAtomic(d: Disk, m: Mdir, n: nat, tags: Log, k: nat, damage: Damage)
    requires Inv(d, m, n) && |tags| + 2 <= n && k <= |CompactOps(m, tags, n)|
    ensures AllAllowed(d, CompactOps(m, tags, n))
    ensures var d' := Crash(d, CompactOps(m, tags, n), k, damage);
            && Fetch(d').Some? && Inv(d', Fetch(d').value, n) && Clean(d', Fetch(d').value)
            && Fetch(d').value.log == (if k < |CompactOps(m, tags, n)| then m.log else tags)
            && (k == |CompactOps(m, tags, n)| ==> Inv(d', Rewritten(m, tags, n), n) && Clean(d', Rewritten(m, tags, n)))
  {
    CommitShape([Rev(NextRev(m.rev))], tags, n - 1);
    CrashedCompaction(d, m, n, tags, k, damage);
    if k < |CompactOps(m, tags, n)| {
      CompactionCut(d, m, n, tags, k, damage);
    } else {
      CompactionDone(d, m, n, tags, damage);
    }
  }

  lemma CompactionCut(d: Disk, m: Mdir, n: nat, tags: Log, k: nat, damage: Damage)
    requires Inv(d, m, n) && |tags| + 2 <= n && k < |CompactOps(m, tags, n)|
    ensures var d' := Crash(d, CompactOps(m, tags, n), k, damage);
            && Fetch(d').Some? && Inv(d', Fetch(d').value, n) && Clean(d', Fetch(d').value)
            && Fetch(d').value.log == m.log
  {
    CrashedCompaction(d, m, n, tags, k, damage);
    var d' := Crash(d, CompactOps(m, tags, n), k, damage);
    if k > 0 {
      FreshScan(seq(n, _ => Blank), Half(d', !m.second), NextRev(m.rev), tags, k - 1);
    }
    OldBlockLives(d, m, n, d');
  }

  /** If the other block does not show a commit that it did not have, the directory is as before. */
  lemma OldBlockLives(d: Disk, m: Mdir, n: nat, d': Disk)
    requires Inv(d, m, n) && |d'.b0| == n && |d'.b1| == n && Half(d', m.second) == Half(d, m.second)
    requires Half(d', !m.second) == Half(d, !m.second) || Plausible(Half(d, !m.second), Half(d', !m.second))
             || ScanBlock(Half(d', !m.second)).off == 0
    ensures Fetch(d').Some? && Inv(d', Fetch(d').value, n) && Clean(d', Fetch(d').value)
    ensures Fetch(d').value.log == m.log && Inv(d', m, n)
  {
    StillChosen(d, m, n, d');
    LoadedInv(d', n);
  }

  lemma CompactionDone(d: Disk, m: Mdir, n: nat, tags: Log, damage: Damage)
    requires Inv(d, m, n) && |tags| + 2 <= n
    ensures var d' := Crash(d, CompactOps(m, tags, n), |CompactOps(m, tags, n)|, damage);
            && Fetch(d').Some? && Inv(d', Fetch(d').value, n) && Clean(d', Fetch(d').value)
            && Fetch(d').value.log == tags && Inv(d', Rewritten(m, tags, n), n) && Clean(d', Rewritten(m, tags, n))
  {
    var rev := NextRev(m.rev);
    var us := [Rev(rev)] + CommitUnits([Rev(rev)], tags, n - 1);
    CommitShape([Rev(rev)], tags, n - 1);
    var k := |CompactOps(m, tags, n)|;
    assert k == |us| + 1;
    CrashedCompaction(d, m, n, tags, k, damage);
    var d' := Crash(d, CompactOps(m, tags, n), k, damage);
    FreshScan(seq(n, _ => Blank), Half(d', !m.second), rev, tags, |us|);
    NewBlockChosen(d', m);
    LoadedInv(d', n);
  }

  /**
   * What a compaction that runs out of space programs: the first units, as far as the program cache lets go of them,
   * one always being kept free for a checksum that is never written.
   */
  function OverfullUnits(m: Mdir, tags: Log, n: nat, flushed: nat): (us: seq<Unit>)
    requires |tags| + 2 > n
    ensures |us| <= n
  {
    ([Rev(NextRev(m.rev))] + AttrUnits(tags))[..Min(flushed, if n > 0 then n - 1 else 0)]
  }

  function OverfullOps(m: Mdir, tags: Log, n: nat, flushed: nat): (r: seq<Op>)
    requires |tags| + 2 > n
  {
    [Erase(!m.second)] + Progs(!m.second, 0, OverfullUnits(m, tags, n, flushed))
  }

  /** A compaction that does not fit leaves the directory as it was, cut off or not. */
  lemma OverfullHarmless(d: Disk, m: Mdir, n: nat, tags: Log, flushed: nat, k: nat, damage: Damage)
    requires Inv(d, m, n) && |tags| + 2 > n && k <= |OverfullOps(m, tags, n, flushed)|
    ensures AllAllowed(d, OverfullOps(m, tags, n, flushed))
    ensures var d' := Crash(d, OverfullOps(m, tags, n, flushed), k, damage);
            && Fetch(d').Some? && Inv(d', Fetch(d').value, n) && Clean(d', Fetch(d').value)
            && Fetch(d').value.log == m.log && Inv(d', m, n) && Half(d', m.second) == Half(d, m.second)
  {
    hide Scan, ScanBlock, Fetch, Crash, AllAllowed, Progs;
    LoadedFacts(d, m, n);
    var us := OverfullUnits(m, tags, n, flushed);
    EraseThenWrite(d, !m.second, n, us, k, damage);
    var d' := Crash(d, OverfullOps(m, tags, n, flushed), k, damage);
    var b' := Half(d', !m.second);
    if k > 0 {
      PartialUnits(seq(n, _ => Blank), b', 0, us, k - 1);
      NeverCommitted(b', if k - 1 > 1 then k - 1 else 1);
    }
    OldBlockLives(d, m, n, d');
  }

  lemma NewBlockChosen(d: Disk, m: Mdir)
    requires FrontWord(Half(d, m.second)) == m.rev && FrontWord(Half(d, !m.second)) == NextRev(m.rev)
    requires ScanBlock(Half(d, !m.second)).off > 0
    ensures Fetch(d) == Some(Loaded(d, !m.second))
  {
    NextIsNewer(m.rev);
  }

  // ----- lfs_dir_fetchmatch -----

  lemma KeptSnoc(log: Log, t: Tag)
    ensures Count(0, log + [t]) == Count(Count(0, log), [t])
    ensures TailAfter(NoTail, log + [t]) == TailAfter(TailAfter(NoTail, log), [t])
  {
    CountAppend(0, log, [t]);
    TailAppend(NoTail, log, [t]);
  }

  lemma KeptOne(count: int, tail: Tail, t: Tag)
    ensures Count(count, [t]) == if Type1(t.ty) == 0 then (if t.id >= count then t.id + 1 else count)
                                 else if IsSplice(t) then count + Splice(t) else count
    ensures TailAfter(tail, [t]) == if IsTail(t) then TailFrom(t.ty, t.data) else tail
  {
    assert [t][1..] == [];
  }

  /** The tag loop of lfs_dir_fetchmatch over one block, with the count and the tail that it keeps. */
  method ScanLoop(b: Block) returns (s: Scanned, count: int, tail: Tail)
    ensures s == ScanBlock(b)
    ensures count == Count(0, s.log) && tail == TailAfter(NoTail, s.log)
  {
    s, count, tail := NOTHING, 0, NoTail;
    if b == [] {
      return;
    }
    var i, run, pending, hasFcrc, maybeErased := 1, [b[0]], [], false, false;
    var tempCount, tempTail := 0, NoTail;
    while i < |b|
      invariant 1 <= i <= |b| && !s.erased && !maybeErased
      invariant ScanBlock(b) == Scan(b, i, run, pending, hasFcrc, s)
      invariant count == Count(0, s.log) && tail == TailAfter(NoTail, s.log)
      invariant tempCount == Count(0, s.log + pending) && tempTail == TailAfter(NoTail, s.log + pending)
    {
      hide Count, TailAfter, Splice, IsSplice, IsTail, TailFrom;
      match b[i] {
        case Blank =>
          maybeErased := true;
          break;
        case Attr(t) =>
          KeptSnoc(s.log + pending, t);
          KeptOne(tempCount, tempTail, t);
          assert s.log + (pending + [t]) == (s.log + pending) + [t];
          run, pending, hasFcrc := run + [b[i]], pending + [t], false;
          if Type1(t.ty) == 0 {
            if t.id >= tempCount {
              tempCount := t.id + 1;
            }
          } else if IsSplice(t) {
            tempCount := tempCount + Splice(t);
          }
          if IsTail(t) {
            tempTail := TailFrom(t.ty, t.data);
          }
        case Fcrc =>
          run, hasFcrc := run + [b[i]], true;
        case Ccrc(sum) =>
          if sum != run {
            break;
          }
          s := Scanned(s.log + pending, i + 1, false);
          assert s.log + [] == s.log;
          run, pending, count, tail := [], [], tempCount, tempTail;
        case _ =>
          break;
      }
      i := i + 1;
    }
    if maybeErased {
      s := s.(erased := StillErased(b, s.off, hasFcrc));
    }
  }

  /**
   * lfs_dir_fetchmatch: choose the newer revision, scan, and fall back to the other block. The count and the tail found
   * are those of the log.
   */
  method FetchMatch(d: Disk) returns (m: Option<Mdir>, count: int, tail: Tail)
    ensures m == Fetch(d)
    ensures m.Some? ==> count == Count(0, m.value.log) && tail == TailAfter(NoTail, m.value.log)
  {
    var r := false;
    var rev0, rev1 := FrontWord(d.b0), FrontWord(d.b1);
    if Scmp(rev1, rev0) > 0 {
      r := true;
    }
    var i := 0;
    var second := r;
    while i < 2
      invariant 0 <= i <= 2
      invariant second == (if i == 1 then !r else r)
      invariant i > 0 ==> Loaded(d, r).off == 0
      invariant i > 1 ==> Loaded(d, !r).off == 0
    {
      var s;
      s, count, tail := ScanLoop(Half(d, second));
      if s.off != 0 {
        return Some(Mdir(second, if second then rev1 else rev0, s.log, s.off, s.erased)), count, tail;
      }
      second := !second;
      i := i + 1;
    }
    return None, 0, NoTail;
  }
}
