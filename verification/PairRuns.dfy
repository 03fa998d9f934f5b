/**
 * Whole runs of commits to a metadata pair (lfs_dir_relocatingcommit, littlefs/lfs.c:2120-2241, with lfs_dir_compact,
 * lfs.c:1870-1981, as its way out): what a commit writes, what it means, and what is found after power loss anywhere.
 */
module PairRuns {
  import opened Basics
  import opened MetadataLog
  import opened Compaction
  import opened MetadataPair
  import GlobalState
  import StateWord

  type Gstate = StateWord.Gstate

  // ----- What a directory means -----

  /** What a mount finds in a log: the entries, the tail, and the piece of the global state. */
  datatype Meaning = Meaning(entries: seq<Entry>, tail: Tail, state: Gstate)

  function Means(d: Dir): (r: Meaning) {
    Meaning(d.entries, TailOf(d.globals), GlobalState.StateOf(d.globals))
  }

  function MeaningOf(log: Log): (r: Meaning)
    requires PlainLog(log)
  {
    Means(Replay(EMPTY, log))
  }

  /** The log of a pair: a mount counts exactly its entries. */
  ghost predicate LogOk(log: Log) {
    PlainLog(log) && TailsKept(log) && Count(0, log) == |Replay(EMPTY, log).entries| <= MAX_ID
  }

  /** Tails are replaced, never deleted. */
  ghost predicate TailsKept(log: Log) {
    forall i :: 0 <= i < |log| ==> IsTail(log[i]) ==> !IsDelete(log[i])
  }

  // ----- A commit and what it writes -----

  /**
   * One commit: its attributes, the change of global state that it brings along, how much of an append and of a
   * compaction that run out of space gets out of the program cache, and where power fails in it, if it does.
   */
  datatype Event = Event(attrs: Log, delta: Gstate, flushed: nat, reflushed: nat, cut: Option<nat>, damage: Damage)

  /** What callers commit: entries and tails. Global state is added by the commit itself. */
  predicate CallerTag(t: Tag) {
    t.ty >= 0x500 ==>
      && (t.ty == TAIL || t.ty == TAIL + 1) && t.size == 8 && |t.data| == 8
      && (t.ty == TAIL + 1 ==> !IsNull(t.data))
  }

  ghost predicate CallerTags(attrs: Log) {
    PlainLog(attrs) && forall i :: 0 <= i < |attrs| ==> CallerTag(attrs[i])
  }

  /** The attributes name existing entries, and afterwards the last entry has a name. */
  ghost predicate EventOk(log: Log, e: Event)
    requires PlainLog(log)
  {
    && CallerTags(e.attrs) && Commits(Replay(EMPTY, log), e.attrs)
    && LastNamed(Replay(Replay(EMPTY, log), e.attrs).entries)
  }

  predicate LastNamed(entries: seq<Entry>) {
    entries != [] ==> NAME in entries[|entries| - 1]
  }

  /** How many more entries there are after a commit. */
  function Net(attrs: Log): (r: int)
    decreases |attrs|
  {
    if attrs == [] then 0 else (if IsSplice(attrs[0]) then Splice(attrs[0]) else 0) + Net(attrs[1..])
  }

  /** What a commit is to mean. */
  function Committed(x: Meaning, e: Event): (r: Meaning)
    requires PlainLog(e.attrs)
  {
    Meaning(Replay(Dir(x.entries, map[]), e.attrs).entries, TailAfter(x.tail, e.attrs),
            GlobalState.Xor(x.state, e.delta))
  }

  /** lfs_dir_traverse without a filter, as appending uses it: all attributes but the empty pseudo tags. */
  function WithoutNoops(attrs: Log): (r: Log)
    decreases |attrs|
  {
    if attrs == [] then [] else (if IsNoop(attrs[0]) then [] else [attrs[0]]) + WithoutNoops(attrs[1..])
  }

  /** The tags an append writes. The piece of global state is rewritten only if the state changed. */
  function AppendTags(log: Log, e: Event): (r: Log)
    requires PlainLog(log)
  {
    WithoutNoops(e.attrs)
    + if e.delta == GlobalState.Zero() then [] else StateTags(GlobalState.Xor(e.delta, GlobalState.Stored(log)), true)
  }

  function StateTags(g: Gstate, always: bool): (r: Log) {
    if always || g != GlobalState.Zero() then [GlobalState.StateTag(g)] else []
  }

  function TailTags(t: Tail): (r: Log) {
    match t
    case NoTail => []
    case Tail(hard, pair) => [Tag(TAIL + if hard then 1 else 0, MAX_ID, 8, pair)]
  }

  /** The number of entries in memory: what the last scan counted, and the creates and deletes since. */
  function NewCount(log: Log, e: Event): (r: int) {
    Count(0, log) + Net(e.attrs)
  }

  /** The tags a compaction writes: what is left of the entries, the tail if there is one, and the state if any. */
  function CompactTags(log: Log, e: Event): (r: Log)
    requires PlainLog(log)
  {
    var count := NewCount(log, e);
    Emitted(log + e.attrs, 0, if count < 0 then 0 else count)
    + TailTags(TailAfter(MeaningOf(log).tail, e.attrs))
    + StateTags(GlobalState.Xor(e.delta, GlobalState.Stored(log)), false)
  }

  // ----- Replaying attributes -----

  /** What becomes of the entries does not depend on the other values. */
  lemma {:induction false} EntriesAlone(d: Dir, globals: Entry, log: Log)
    requires PlainLog(log)
    ensures Replay(d, log).entries == Replay(Dir(d.entries, globals), log).entries
    decreases |log|
  {
    if log != [] {
      var globals' := Apply(Dir(d.entries, globals), log[0]).globals;
      EntriesAlone(Apply(d, log[0]), globals', log[1..]);
    }
  }

  /** The tail that a scan keeps is the one that the replay leaves. */
  lemma {:induction false} TailReplay(d: Dir, log: Log)
    requires PlainLog(log) && TailsKept(log)
    ensures TailOf(Replay(d, log).globals) == TailAfter(TailOf(d.globals), log)
    decreases |log|
  {
    if log != [] {
      TailStep(d, log[0]);
      TailReplay(Apply(d, log[0]), log[1..]);
    }
  }

  lemma CallerTails(attrs: Log)
    requires CallerTags(attrs)
    ensures PlainLog(attrs) && TailsKept(attrs)
  {
  }

  lemma TailStep(d: Dir, t: Tag)
    requires Plain(t) && (IsTail(t) ==> !IsDelete(t))
    ensures TailOf(Apply(d, t).globals) == if IsTail(t) then TailFrom(t.ty, t.data) else TailOf(d.globals)
  {
    hide IsNull;
  }

  lemma NoStateAmong(attrs: Log)
    requires CallerTags(attrs)
    ensures GlobalState.NoState(attrs)
  {
  }

  lemma {:induction false} WithoutNoopsPlain(attrs: Log)
    requires CallerTags(attrs)
    ensures CallerTags(WithoutNoops(attrs))
    decreases |attrs|
  {
    hide Plain, CallerTag, IsNoop;
    if attrs != [] {
      WithoutNoopsPlain(attrs[1..]);
    }
  }

  lemma {:induction false} NoopsChangeNothing(d: Dir, attrs: Log)
    requires PlainLog(attrs) && PlainLog(WithoutNoops(attrs))
    ensures Replay(d, WithoutNoops(attrs)) == Replay(d, attrs)
    ensures Commits(d, attrs) ==> Commits(d, WithoutNoops(attrs))
    decreases |attrs|
  {
    if attrs != [] {
      var rest := WithoutNoops(attrs[1..]);
      if IsNoop(attrs[0]) {
        assert WithoutNoops(attrs) == rest;
        assert Apply(d, attrs[0]) == d;
      } else {
        assert WithoutNoops(attrs)[1..] == rest;
      }
      assert PlainLog(rest);
      NoopsChangeNothing(Apply(d, attrs[0]), attrs[1..]);
    }
  }

  // ----- Counting -----

  lemma {:induction false} CommitsLength(d: Dir, log: Log)
    requires Commits(d, log) && PlainLog(log) && |d.entries| <= MAX_ID
    ensures |Replay(d, log).entries| == |d.entries| + Net(log) <= MAX_ID
    decreases |log|
  {
    if log != [] {
      CommitsLength(Apply(d, log[0]), log[1..]);
    }
  }

  lemma {:induction false} CommitsAppend(d: Dir, log: Log, t: Tag)
    requires Commits(d, log) && PlainLog(log) && Plain(t) && t.ty >= 0x500
    ensures Commits(d, log + [t])
    decreases |log|
  {
    if log == [] {
      assert [t][1..] == [];
    } else {
      assert (log + [t])[1..] == log[1..] + [t];
      CommitsAppend(Apply(d, log[0]), log[1..], t);
    }
  }

  /** Values of the whole log are not counted. */
  lemma UncountedTag(count: int, t: Tag)
    requires t.ty >= 0x500
    ensures Count(count, [t]) == count && Count(count, []) == count
  {
    assert [t][1..] == [];
  }

  // ----- Both ways of committing mean the same -----

  /** Adding a piece of state, or a tail, to a log. */
  lemma StateTagMeans(log: Log, g: Gstate)
    requires PlainLog(log)
    ensures PlainLog(log + [GlobalState.StateTag(g)])
    ensures MeaningOf(log + [GlobalState.StateTag(g)]) == MeaningOf(log).(state := g)
  {
    hide GlobalState.Encode, GlobalState.Decode;
    var t := GlobalState.StateTag(g);
    ReplayAppend(EMPTY, log, [t]);
    assert [t][1..] == [];
    GlobalState.RoundTrip(g);
  }

  lemma TailTagMeans(log: Log, t: Tail)
    requires PlainLog(log) && (t.Tail? ==> !IsNull(t.pair)) && MeaningOf(log).tail == NoTail
    ensures PlainLog(log + TailTags(t)) && MeaningOf(log + TailTags(t)) == MeaningOf(log).(tail := t)
    ensures Count(0, log + TailTags(t)) == Count(0, log)
  {
    hide IsNull, GlobalState.Decode;
    ReplayAppend(EMPTY, log, TailTags(t));
    CountAppend(0, log, TailTags(t));
    if t.Tail? {
      assert TailTags(t)[1..] == [];
    }
  }

  lemma {:induction false} TailNotNull(tail: Tail, attrs: Log)
    requires tail.Tail? ==> !IsNull(tail.pair)
    ensures TailAfter(tail, attrs).Tail? ==> !IsNull(TailAfter(tail, attrs).pair)
    decreases |attrs|
  {
    if attrs != [] {
      TailNotNull(if IsTail(attrs[0]) then TailFrom(attrs[0].ty, attrs[0].data) else tail, attrs[1..]);
    }
  }

  /** The attributes of a commit, replayed on what is there. */
  lemma AttrsMean(log: Log, e: Event)
    requires LogOk(log) && EventOk(log, e)
    ensures PlainLog(log + e.attrs)
    ensures MeaningOf(log + e.attrs) == Committed(MeaningOf(log), e).(state := MeaningOf(log).state)
    ensures |MeaningOf(log + e.attrs).entries| == NewCount(log, e) <= MAX_ID
    ensures LastNamed(MeaningOf(log + e.attrs).entries)
  {
    var d := Replay(EMPTY, log);
    ReplayAppend(EMPTY, log, e.attrs);
    EntriesAlone(d, map[], e.attrs);
    CallerTails(e.attrs);
    TailReplay(d, e.attrs);
    NoStateAmong(e.attrs);
    GlobalState.StoredFrom(d, e.attrs);
    CommitsLength(d, e.attrs);
    SameState(d.globals, Replay(d, e.attrs).globals);
  }

  lemma SameState(a: Entry, b: Entry)
    requires Get(a, MOVESTATE) == Get(b, MOVESTATE)
    ensures GlobalState.StateOf(a) == GlobalState.StateOf(b)
  {
    hide GlobalState.Decode;
  }

  lemma PlainIds(log: Log)
    requires PlainLog(log)
    ensures forall i :: 0 <= i < |log| ==> log[i].id >= 0
  {
  }

  lemma KeptTogether(a: Log, b: Log)
    requires TailsKept(a) && TailsKept(b)
    ensures TailsKept(a + b)
  {
    hide IsTail, IsDelete;
  }

  lemma StateIsNoTail(g: Gstate)
    ensures TailsKept([GlobalState.StateTag(g)])
  {
  }

  lemma WrittenTail(t: Tail)
    ensures TailsKept(TailTags(t))
  {
  }

  lemma AttrsAreNoTails(log: Log)
    requires forall i :: 0 <= i < |log| ==> IsAttr(log[i])
    ensures TailsKept(log)
  {
  }

  lemma AppendMeans(log: Log, e: Event)
    requires LogOk(log) && EventOk(log, e)
    ensures LogOk(log + AppendTags(log, e))
    ensures MeaningOf(log + AppendTags(log, e)) == Committed(MeaningOf(log), e)
  {
    hide Plain, CallerTag, Count, Replay, Commits, Apply, WithoutNoops, TailAfter, Net, IsTail, IsDelete;
    hide GlobalState.Xor, GlobalState.Decode;
    PlainIds(log);
    var d, tags := Replay(EMPTY, log), WithoutNoops(e.attrs);
    AttrsMean(log, e);
    WithoutNoopsPlain(e.attrs);
    CallerTails(tags);
    PlainIds(tags);
    KeptTogether(log, tags);
    NoopsChangeNothing(d, e.attrs);
    ReplayAppend(EMPTY, log, e.attrs);
    ReplayAppend(EMPTY, log, tags);
    CountAppend(0, log, tags);
    CountIsLength(d, tags);
    GlobalState.XorLaws(e.delta, GlobalState.Stored(log), GlobalState.Zero());
    GlobalState.XorLaws(GlobalState.Stored(log), GlobalState.Zero(), GlobalState.Zero());
    if e.delta == GlobalState.Zero() {
      assert AppendTags(log, e) == tags;
    } else {
      var g := GlobalState.Xor(e.delta, GlobalState.Stored(log));
      StateTagMeans(log + tags, g);
      StateIsNoTail(g);
      KeptTogether(log + tags, [GlobalState.StateTag(g)]);
      CountAppend(0, log + tags, [GlobalState.StateTag(g)]);
      UncountedTag(Count(0, log + tags), GlobalState.StateTag(g));
      assert log + AppendTags(log, e) == (log + tags) + [GlobalState.StateTag(g)];
    }
  }

  /** A log of attributes has no values of the whole log, and no more entries than ids. */
  lemma {:induction false} OnlyEntries(d: Dir, log: Log, n: int)
    requires PlainLog(log) && forall i :: 0 <= i < |log| ==> IsAttr(log[i]) && log[i].id < n
    requires |d.entries| <= n
    ensures Replay(d, log).globals == d.globals && |Replay(d, log).entries| <= n
    decreases |log|
  {
    if log != [] {
      OnlyEntries(Apply(d, log[0]), log[1..], n);
    }
  }

  /** What a compaction keeps of a log of which the last entry has a name: all entries, and no other value. */
  lemma EmittedMeans(log: Log)
    requires PlainLog(log) && LastNamed(Replay(EMPTY, log).entries)
    ensures var n := |Replay(EMPTY, log).entries|;
            var kept := Emitted(log, 0, n);
            && PlainLog(kept) && TailsKept(kept) && Count(0, kept) == n
            && Replay(EMPTY, kept) == Dir(Replay(EMPTY, log).entries, map[])
  {
    hide Emitted, Replay, Plain, Count;
    PlainIds(log);
    var es := Replay(EMPTY, log).entries;
    var n := |es|;
    var kept := Emitted(log, 0, n);
    EmittedPlain(log, 0, n);
    AttrsAreNoTails(kept);
    NothingReplayed();
    OnlyEntries(EMPTY, kept, n);
    CompactionPreserves(log, 0, n);
    var es' := Replay(EMPTY, kept).entries;
    forall i: nat | i < n ensures EntryAt(Replay(EMPTY, kept), i) == es[i] {
      assert EntryAt(Replay(EMPTY, kept), i) == if 0 + i < n then EntryAt(Replay(EMPTY, log), 0 + i) else map[];
    }
    if n > 0 {
      var last: nat := n - 1;
      CompactedCount(log, 0, n);
      assert EntryAt(Replay(EMPTY, kept), last) == es[last];
    } else {
      NothingEmitted(log);
      UncountedTag(0, Tag(TAIL, 0, 0, []));
    }
    assert |es'| == n;
    forall i: nat | i < n ensures es'[i] == es[i] {
      assert EntryAt(Replay(EMPTY, kept), i) == es[i];
    }
    assert es' == es;
  }

  lemma {:induction false} NothingEmitted(log: Log)
    ensures Emitted(log, 0, 0) == []
    decreases |log|
  {
    if log != [] {
      NothingEmitted(log[1..]);
    }
  }

  lemma NothingReplayed()
    ensures Replay(EMPTY, []) == EMPTY
  {
  }

  lemma CompactMeans(log: Log, e: Event)
    requires LogOk(log) && EventOk(log, e)
    ensures LogOk(CompactTags(log, e))
    ensures MeaningOf(CompactTags(log, e)) == Committed(MeaningOf(log), e)
  {
    hide Plain, CallerTag, Count, Replay, Commits, Emitted, TailAfter, Net, GlobalState.Xor, GlobalState.Decode, IsNull,
      IsTail, IsDelete;
    PlainIds(log);
    AttrsMean(log, e);
    var n, before := NewCount(log, e), MeaningOf(log);
    var kept := Emitted(log + e.attrs, 0, n);
    EmittedMeans(log + e.attrs);
    NoValues(kept);
    var tail := TailAfter(before.tail, e.attrs);
    TailOfNotNull(Replay(EMPTY, log).globals);
    TailNotNull(before.tail, e.attrs);
    TailTagMeans(kept, tail);
    WrittenTail(tail);
    KeptTogether(kept, TailTags(tail));
    var front := kept + TailTags(tail);
    GlobalState.XorLaws(e.delta, GlobalState.Stored(log), GlobalState.Zero());
    var g := GlobalState.Xor(e.delta, GlobalState.Stored(log));
    if g == GlobalState.Zero() {
      assert CompactTags(log, e) == front;
    } else {
      StateTagMeans(front, g);
      StateIsNoTail(g);
      KeptTogether(front, [GlobalState.StateTag(g)]);
      CountAppend(0, front, [GlobalState.StateTag(g)]);
      UncountedTag(Count(0, front), GlobalState.StateTag(g));
      assert CompactTags(log, e) == front + [GlobalState.StateTag(g)];
    }
  }

  lemma NoValues(kept: Log)
    requires PlainLog(kept) && Replay(EMPTY, kept).globals == map[]
    ensures MeaningOf(kept).tail == NoTail && MeaningOf(kept).state == GlobalState.Zero()
  {
  }

  lemma TailOfNotNull(globals: Entry)
    ensures TailOf(globals).Tail? ==> !IsNull(TailOf(globals).pair)
  {
  }

  /**
   * Appending and compacting mean the same, namely the commit: the entries and their number as a mount counts them, the
   * tail, and the piece of global state.
   */
  lemma CommitMeaning(log: Log, e: Event)
    requires LogOk(log) && EventOk(log, e)
    ensures LogOk(log + AppendTags(log, e)) && LogOk(CompactTags(log, e))
    ensures MeaningOf(log + AppendTags(log, e)) == MeaningOf(CompactTags(log, e)) == Committed(MeaningOf(log), e)
    ensures Count(0, log + AppendTags(log, e)) == Count(0, CompactTags(log, e)) == NewCount(log, e)
  {
    hide Plain, CallerTag, Count, Replay, Commits, Emitted, TailAfter, Net, AppendTags, CompactTags;
    AppendMeans(log, e);
    CompactMeans(log, e);
    AttrsMean(log, e);
  }

  // ----- How a commit goes about it -----

  predicate Fits(m: Mdir, e: Event, n: nat)
    requires PlainLog(m.log)
  {
    m.off + |AppendTags(m.log, e)| + 1 <= n
  }

  /**
   * The units that an append programs: all of its commit, or, if that does not fit, as many tags as the program cache
   * lets go of before space runs out.
   */
  function Tried(m: Mdir, e: Event, n: nat): (r: seq<Unit>)
    requires PlainLog(m.log)
  {
    var tags := AppendTags(m.log, e);
    if !m.erased then []
    else if Fits(m, e, n) then CommitUnits([], tags, n - m.off)
    else AttrUnits(tags)[..Min(e.flushed, Min(|tags|, if m.off < n then n - 1 - m.off else 0))]
  }

  function TriedOps(m: Mdir, e: Event, n: nat): (r: seq<Op>)
    requires PlainLog(m.log)
  {
    Progs(m.second, m.off, Tried(m, e, n))
  }

  datatype Way = Append | Compact | Overfull

  /**
   * lfs_dir_relocatingcommit: append if memory says that the block is erased, and stay with that if the commit fits and
   * reads back; else compact, which may run out of space as well.
   */
  function WayOf(d: Disk, m: Mdir, e: Event, n: nat): (r: Way)
    requires PlainLog(m.log)
  {
    if m.erased && Fits(m, e, n)
       && ReadsBack(Half(DoAll(d, TriedOps(m, e, n)), m.second), m.off, Tried(m, e, n)) then Append
    else if |CompactTags(m.log, e)| + 2 <= n then Compact
    else Overfull
  }

  /** What is left to do after the attempt to append. */
  function RestOps(d: Disk, m: Mdir, e: Event, n: nat): (r: seq<Op>)
    requires PlainLog(m.log)
  {
    match WayOf(d, m, e, n)
    case Append => []
    case Compact => CompactOps(m, CompactTags(m.log, e), n)
    case Overfull => OverfullOps(m, CompactTags(m.log, e), n, e.reflushed)
  }

  function OpsOf(d: Disk, m: Mdir, e: Event, n: nat): (r: seq<Op>)
    requires PlainLog(m.log)
  {
    TriedOps(m, e, n) + RestOps(d, m, e, n)
  }

  /** The number of operations that complete. */
  function Completed(d: Disk, m: Mdir, e: Event, n: nat): (k: nat)
    requires PlainLog(m.log)
    ensures k <= |OpsOf(d, m, e, n)|
  {
    if e.cut.Some? && e.cut.value < |OpsOf(d, m, e, n)| then e.cut.value else |OpsOf(d, m, e, n)|
  }

  predicate CutOff(d: Disk, m: Mdir, e: Event, n: nat)
    requires PlainLog(m.log)
  {
    Completed(d, m, e, n) < |OpsOf(d, m, e, n)|
  }

  /** A commit takes effect exactly if there is room for it one way or the other, and all of it was written. */
  predicate TakesEffect(d: Disk, m: Mdir, e: Event, n: nat)
    requires PlainLog(m.log)
  {
    WayOf(d, m, e, n) != Overfull && !CutOff(d, m, e, n)
  }

  /**
   * The disk and the memory after a commit. After a power failure memory is loaded from the disk; a commit that fails
   * leaves memory alone, since it worked on a copy.
   */
  function Step(d: Disk, m: Mdir, e: Event, n: nat): (r: (Disk, Mdir))
    requires PlainLog(m.log)
  {
    var d' := Crash(d, OpsOf(d, m, e, n), Completed(d, m, e, n), e.damage);
    if CutOff(d, m, e, n) then (d', if Fetch(d').Some? then Fetch(d').value else m)
    else
      match WayOf(d, m, e, n)
      case Append => (d', Appended(m, AppendTags(m.log, e), n))
      case Compact => (d', Rewritten(m, CompactTags(m.log, e), n))
      case Overfull => (d', m)
  }

  // ----- Lists of operations -----

  lemma {:induction false} DoAllConcat(d: Disk, a: seq<Op>, b: seq<Op>)
    ensures DoAll(d, a + b) == DoAll(DoAll(d, a), b)
    ensures AllAllowed(d, a + b) <==> AllAllowed(d, a) && AllAllowed(DoAll(d, a), b)
    decreases |a|
  {
    hide Do, Allowed;
    if a == [] {
      assert a + b == b;
    } else {
      assert (a + b)[1..] == a[1..] + b;
      DoAllConcat(Do(d, a[0]), a[1..], b);
    }
  }

  /** Power failing in the first or in the second of two lists of operations. */
  lemma CrashConcat(d: Disk, a: seq<Op>, b: seq<Op>, k: nat, damage: Damage)
    requires k <= |a| + |b|
    ensures k < |a| ==> Crash(d, a + b, k, damage) == Crash(d, a, k, damage)
    ensures k >= |a| ==> Crash(d, a + b, k, damage) == Crash(DoAll(d, a), b, k - |a|, damage)
  {
    hide DoAll, Cut;
    if k < |a| {
      assert (a + b)[..k] == a[..k];
    } else {
      assert (a + b)[..k] == a + b[..k - |a|];
      DoAllConcat(d, a, b[..k - |a|]);
    }
  }

  lemma CrashAtEnd(d: Disk, a: seq<Op>, damage: Damage)
    ensures Crash(d, a, |a|, damage) == DoAll(d, a)
  {
    assert a[..|a|] == a;
  }

  // ----- One commit -----

  lemma TriedShape(m: Mdir, e: Event, n: nat)
    requires PlainLog(m.log) && m.off <= n
    ensures var us := Tried(m, e, n);
            && m.off + |us| <= n && (us != [] ==> m.erased)
            && (forall i :: 0 <= i < |us| ==> Body(us[i]) || us[i].Ccrc?)
            && (!m.erased || !Fits(m, e, n) ==> forall i :: 0 <= i < |us| ==> Body(us[i]))
            && (m.erased && Fits(m, e, n) ==> us != [] && TriedOps(m, e, n) == AppendOps(m, AppendTags(m.log, e), n))
  {
    if m.erased && Fits(m, e, n) {
      CommitShape([], AppendTags(m.log, e), n - m.off);
    }
  }

  /** If the commit does not stay appended, what was tried is harmless; if it does, the block was erased. */
  lemma TriedKinds(d: Disk, m: Mdir, e: Event, n: nat)
    requires Inv(d, m, n) && PlainLog(m.log)
    ensures WayOf(d, m, e, n) == Append ==> m.erased && Fits(m, e, n) && BlankFrom(Half(d, m.second), m.off)
    ensures WayOf(d, m, e, n) != Append ==> Harmless(Half(d, m.second), m.off, Tried(m, e, n))
  {
    hide Scan, ScanBlock, Fetch, DoAll, Progs, Tidy, AppendTags, CompactTags, CommitUnits;
    LoadedFacts(d, m, n);
    TriedShape(m, e, n);
    if m.erased && Fits(m, e, n) {
      ReadsBackExactly(d, m, n, Tried(m, e, n));
    }
  }

  /** One commit that stays appended. */
  lemma StepAppended(d: Disk, m: Mdir, e: Event, n: nat)
    requires Inv(d, m, n) && LogOk(m.log) && EventOk(m.log, e) && WayOf(d, m, e, n) == Append
    ensures var (d', m') := Step(d, m, e, n);
            && Fetch(d').Some? && Fetch(d').value.log == m'.log && Inv(d', m', n) && Clean(d', m')
            && m'.log == if CutOff(d, m, e, n) then m.log else m.log + AppendTags(m.log, e)
  {
    hide Scan, ScanBlock, Fetch, DoAll, Progs, Tidy, AppendTags, CompactTags, CommitUnits, LogOk, EventOk, Crash;
    PlainOk(m.log);
    TriedKinds(d, m, e, n);
    TriedShape(m, e, n);
    assert OpsOf(d, m, e, n) == AppendOps(m, AppendTags(m.log, e), n);
    AppendAtomic(d, m, n, AppendTags(m.log, e), Completed(d, m, e, n), e.damage);
    LoadedAgain(m, d, n);
  }

  lemma LoadedAgain(m: Mdir, d: Disk, n: nat)
    ensures Inv(d, m, n) ==> Fetch(d).Some? && Fetch(d).value.log == m.log
  {
  }

  /** One commit that does not stay appended. */
  lemma StepRewritten(d: Disk, m: Mdir, e: Event, n: nat)
    requires Inv(d, m, n) && LogOk(m.log) && EventOk(m.log, e) && WayOf(d, m, e, n) != Append
    ensures var (d', m') := Step(d, m, e, n);
            && Fetch(d').Some? && Fetch(d').value.log == m'.log && Inv(d', m', n)
            && m'.log == (if TakesEffect(d, m, e, n) then CompactTags(m.log, e) else m.log)
            && (Clean(d', m') <==> CutOff(d, m, e, n) || WayOf(d, m, e, n) == Compact
                                   || (Tried(m, e, n) == [] && Clean(d, m)))
  {
    hide Scan, ScanBlock, Fetch, DoAll, Progs, Tidy, AppendTags, CompactTags, CommitUnits, LogOk, EventOk, Crash, Tried,
      Inv, Clean, Harmless, Body, ReadsBack, CompactOps, OverfullOps, Rewritten, Appended;
    PlainOk(m.log);
    LoadedFacts(d, m, n);
    TriedKinds(d, m, e, n);
    TriedShape(m, e, n);
    var us, ops, k := Tried(m, e, n), TriedOps(m, e, n), Completed(d, m, e, n);
    var d1 := DoAll(d, ops);
    CrashConcat(d, ops, RestOps(d, m, e, n), k, e.damage);
    CrashAtEnd(d, ops, e.damage);
    TriedHarmless(d, m, n, us, |us|, e.damage);
    var (d', m') := Step(d, m, e, n);
    LoadedAgain(m', d', n);
    if k < |us| {
      TriedHarmless(d, m, n, us, k, e.damage);
    } else if WayOf(d, m, e, n) == Compact {
      CompactAtomic(d1, m, n, CompactTags(m.log, e), k - |us|, e.damage);
    } else {
      OverfullHarmless(d1, m, n, CompactTags(m.log, e), e.reflushed, k - |us|, e.damage);
      LoadedFacts(d1, m, n);
      StaleOrNot(d, d1, d', m, us);
    }
  }

  /** Whether the erased mark is true after an attempt to append that got nowhere. */
  lemma StaleOrNot(d: Disk, d1: Disk, d': Disk, m: Mdir, us: seq<Unit>)
    requires Half(d', m.second) == Half(d1, m.second) && (us != [] ==> m.erased && m.off < |Half(d1, m.second)|)
    requires us == [] ==> d1 == d
    requires us != [] ==> Half(d1, m.second)[m.off] != Blank
    ensures Clean(d', m) <==> us == [] && Clean(d, m)
  {
  }

  /**
   * One commit, cut off anywhere or not, also after commits that failed halfway: a mount succeeds and finds the commit
   * as a whole or not at all. The erased mark in memory is true afterwards, except after a commit that failed for lack
   * of space with part of an append programmed, or that found the mark untrue and programmed nothing.
   */
  lemma StepAtomic(d: Disk, m: Mdir, e: Event, n: nat)
    requires Inv(d, m, n) && LogOk(m.log) && EventOk(m.log, e)
    ensures var (d', m') := Step(d, m, e, n);
            && Fetch(d').Some? && Fetch(d').value.log == m'.log && Inv(d', m', n) && LogOk(m'.log)
            && MeaningOf(m'.log)
               == (if TakesEffect(d, m, e, n) then Committed(MeaningOf(m.log), e) else MeaningOf(m.log))
            && (Clean(d', m') <==> CutOff(d, m, e, n) || WayOf(d, m, e, n) != Overfull
                                   || (Tried(m, e, n) == [] && Clean(d, m)))
  {
    hide Scan, ScanBlock, Fetch, DoAll, Progs, Tidy, AppendTags, CompactTags, CommitUnits, LogOk, EventOk, Crash, Tried;
    hide Replay, Step, Committed;
    PlainOk(m.log);
    CommitMeaning(m.log, e);
    if WayOf(d, m, e, n) == Append {
      StepAppended(d, m, e, n);
    } else {
      StepRewritten(d, m, e, n);
    }
  }

  lemma PlainOk(log: Log)
    requires LogOk(log)
    ensures PlainLog(log)
  {
  }

  /** Only erased units are programmed exactly if the append programs nothing or the erased mark is true. */
  lemma ProgramsErasedOnly(d: Disk, m: Mdir, e: Event, n: nat)
    requires Inv(d, m, n) && PlainLog(m.log)
    ensures AllAllowed(d, OpsOf(d, m, e, n)) <==> Tried(m, e, n) == [] || BlankFrom(Half(d, m.second), m.off)
  {
    hide Scan, ScanBlock, Fetch, DoAll, Progs, AppendTags, CompactTags, CommitUnits, Crash, Tried, AllAllowed;
    LoadedFacts(d, m, n);
    TriedShape(m, e, n);
    TriedKinds(d, m, e, n);
    var us, ops, rest := Tried(m, e, n), TriedOps(m, e, n), RestOps(d, m, e, n);
    var d1 := DoAll(d, ops);
    DoAllConcat(d, ops, rest);
    ProgsWrite(d, m.second, m.off, us);
    NoneForbidden(d1);
    if WayOf(d, m, e, n) != Append {
      TriedHarmless(d, m, n, us, |us|, NoDamage);
      CrashAtEnd(d, ops, NoDamage);
      if WayOf(d, m, e, n) == Compact {
        CompactAtomic(d1, m, n, CompactTags(m.log, e), 0, NoDamage);
      } else {
        OverfullHarmless(d1, m, n, CompactTags(m.log, e), e.reflushed, 0, NoDamage);
      }
    }
  }

  lemma NoneForbidden(d: Disk)
    ensures AllAllowed(d, [])
  {
  }

  // ----- Whole runs -----

  /** Every commit is one that may be made where it is made. */
  ghost predicate RunOk(d: Disk, m: Mdir, es: seq<Event>, n: nat)
    requires Inv(d, m, n) && LogOk(m.log)
    decreases |es|
  {
    es == [] ||
    (EventOk(m.log, es[0]) &&
     (StepAtomic(d, m, es[0], n);
      RunOk(Step(d, m, es[0], n).0, Step(d, m, es[0], n).1, es[1..], n)))
  }

  /** The state after a run of commits and power failures. */
  ghost function Run(d: Disk, m: Mdir, es: seq<Event>, n: nat): (r: (Disk, Mdir))
    requires Inv(d, m, n) && LogOk(m.log) && RunOk(d, m, es, n)
    decreases |es|
  {
    if es == [] then (d, m)
    else
      StepAtomic(d, m, es[0], n);
      Run(Step(d, m, es[0], n).0, Step(d, m, es[0], n).1, es[1..], n)
  }

  /** What the commits that took effect mean, in order. */
  ghost function Expected(x: Meaning, d: Disk, m: Mdir, es: seq<Event>, n: nat): (r: Meaning)
    requires Inv(d, m, n) && LogOk(m.log) && RunOk(d, m, es, n)
    decreases |es|
  {
    if es == [] then x
    else
      StepAtomic(d, m, es[0], n);
      Expected(if TakesEffect(d, m, es[0], n) then Committed(x, es[0]) else x,
               Step(d, m, es[0], n).0, Step(d, m, es[0], n).1, es[1..], n)
  }

  /**
   * Over any run of commits, with power failures anywhere and with commits that fail for lack of space halfway through
   * an append, a mount always succeeds and finds exactly the commits that took effect, in order: their entries, as many
   * of them as its scan counts, the tail, which its scan keeps as well, and the piece of global state.
   */
  lemma {:induction false} RunAtomic(d: Disk, m: Mdir, es: seq<Event>, n: nat)
    requires Inv(d, m, n) && LogOk(m.log) && RunOk(d, m, es, n)
    ensures var (d', m') := Run(d, m, es, n);
            && Inv(d', m', n) && Fetch(d').Some?
            && var found := Fetch(d').value.log;
               && found == m'.log && LogOk(found) && MeaningOf(found) == Expected(MeaningOf(m.log), d, m, es, n)
               && Count(0, found) == |MeaningOf(found).entries| && TailAfter(NoTail, found) == MeaningOf(found).tail
    decreases |es|
  {
    hide Inv, LogOk, EventOk, Step, Committed, TakesEffect, Replay, Count, Fetch;
    PlainOk(m.log);
    if es == [] {
      LoadedAgain(m, d, n);
      ScannedOk(m.log);
    } else {
      StepAtomic(d, m, es[0], n);
      RunAtomic(Step(d, m, es[0], n).0, Step(d, m, es[0], n).1, es[1..], n);
    }
  }

  /** What lfs_dir_fetchmatch keeps while it scans is what the log means. */
  lemma ScannedOk(log: Log)
    requires LogOk(log)
    ensures PlainLog(log) && Count(0, log) == |MeaningOf(log).entries| && TailAfter(NoTail, log) == MeaningOf(log).tail
  {
    TailReplay(EMPTY, log);
  }

  // ----- After a commit that failed halfway -----

  /**
   * A commit for which neither way has room, and of whose append something was programmed: memory is left as it was,
   * but its erased mark is not true. The next commit that fits programs units that are not erased; its check notices
   * that, and it does not stay appended.
   */
  lemma AfterGivenUp(d: Disk, m: Mdir, e: Event, n: nat, next: Event)
    requires Inv(d, m, n) && LogOk(m.log) && EventOk(m.log, e)
    requires WayOf(d, m, e, n) == Overfull && e.cut.None? && Tried(m, e, n) != []
    ensures var (d', m') := Step(d, m, e, n);
            && m' == m && m.erased && !Clean(d', m)
            && WayOf(d', m, next, n) != Append
            && (Fits(m, next, n) ==> !AllAllowed(d', OpsOf(d', m, next, n)))
  {
    hide Scan, ScanBlock, Fetch, DoAll, Progs, Tidy, AppendTags, CompactTags, CommitUnits, LogOk, EventOk, Crash;
    hide Tried, Inv;
    PlainOk(m.log);
    TriedFacts(d, m, e, n);
    StepRewritten(d, m, e, n);
    var (d', m') := Step(d, m, e, n);
    TriedKinds(d', m, next, n);
    TriedFacts(d', m, next, n);
    ProgramsErasedOnly(d', m, next, n);
  }

  lemma TriedFacts(d: Disk, m: Mdir, e: Event, n: nat)
    requires Inv(d, m, n) && PlainLog(m.log)
    ensures Tried(m, e, n) != [] ==> m.erased
    ensures m.erased && Fits(m, e, n) ==> Tried(m, e, n) != []
  {
    hide Scan, ScanBlock, Fetch, Tidy, AppendTags;
    LoadedFacts(d, m, n);
    TriedShape(m, e, n);
  }

  /** A file with three user attributes, as a rename commits it to the directory that it moves to. */
  const MOVED_ATTRS: Log := [Tag(0x001, 0, 0, []), Tag(0x201, 0, 0, []), Tag(0x300, 0, 0, []), Tag(0x301, 0, 0, []),
                             Tag(0x302, 0, 0, [])]
  const MOVED_FILE: Log := [Tag(CREATE, 0, 0, [])] + MOVED_ATTRS

  /** An empty directory as compaction writes it, in blocks of six units. */
  const EMPTY_DIRECTORY: Disk :=
    Disk([Rev(1), Fcrc, Ccrc([Rev(1), Fcrc]), Blank, Blank, Blank], [Blank, Blank, Blank, Blank, Blank, Blank])

  /**
   * Such a commit: its six tags do not fit behind the empty directory, and the five that are left after compaction do
   * not fit into a block; the first is programmed before that is known.
   */
  lemma GivenUp()
    ensures var d, m := EMPTY_DIRECTORY, Mdir(false, 1, [], 3, true);
            var e := Event(MOVED_FILE, GlobalState.Zero(), 1, 0, None, NoDamage);
            && Fetch(d) == Some(m) && Inv(d, m, 6) && Clean(d, m) && LogOk(m.log) && EventOk(m.log, e)
            && WayOf(d, m, e, 6) == Overfull && Tried(m, e, 6) == [Attr(MOVED_FILE[0])]
  {
    hide Emitted, Commits, Replay, Net, TailAfter, WithoutNoops, Fetch, Inv, Clean, Plain, CallerTag, GlobalState.Xor;
    EmptyDirectory();
    MovedFile();
    GlobalState.XorLaws(GlobalState.Zero(), GlobalState.Zero(), GlobalState.Zero());
    assert [] + MOVED_FILE == MOVED_FILE && MOVED_FILE + [] == MOVED_FILE;
    assert MeaningOf([]) == Meaning([], NoTail, GlobalState.Zero()) && GlobalState.Stored([]) == GlobalState.Zero();
    assert CompactTags([], Event(MOVED_FILE, GlobalState.Zero(), 1, 0, None, NoDamage)) == Emitted(MOVED_FILE, 0, 1);
  }

  lemma EmptyDirectory()
    ensures var d, m := EMPTY_DIRECTORY, Mdir(false, 1, [], 3, true);
            Fetch(d) == Some(m) && Inv(d, m, 6) && Clean(d, m) && LogOk([])
  {
    hide ScanBlock, Scan;
    DirectoryScanned();
  }

  lemma DirectoryScanned()
    ensures ScanBlock(EMPTY_DIRECTORY.b0) == Scanned([], 3, true)
    ensures ScanBlock(EMPTY_DIRECTORY.b1).off == 0
  {
    var b := EMPTY_DIRECTORY.b0;
    assert [b[0]] + [b[1]] == [Rev(1), Fcrc];
    assert Scan(b, 3, [], [], true, Scanned([], 3, false)) == Scanned([], 3, true);
    assert Scan(b, 2, [b[0]] + [b[1]], [], true, NOTHING) == Scanned([], 3, true);
  }

  /** Attributes of the first entry whose classes ascend from some bound on, so that none replaces another. */
  ghost predicate Ascending(bound: int, attrs: Log)
    decreases |attrs|
  {
    attrs != [] ==>
      && IsAttr(attrs[0]) && attrs[0].id == 0 && !IsDelete(attrs[0]) && bound < ClassOf(attrs[0].ty)
      && Ascending(ClassOf(attrs[0].ty), attrs[1..])
  }

  lemma {:induction false} AscendingKept(t: Tag, bound: int, rest: Log)
    requires IsAttr(t) && t.id == 0 && !IsDelete(t) && ClassOf(t.ty) <= bound && Ascending(bound, rest)
    ensures Fate(t, rest) == Some(t)
    decreases |rest|
  {
    if rest != [] {
      AscendingKept(t, ClassOf(rest[0].ty), rest[1..]);
    }
  }

  lemma {:induction false} AscendingEmitted(bound: int, attrs: Log)
    requires Ascending(bound, attrs)
    ensures Emitted(attrs, 0, 1) == attrs && WithoutNoops(attrs) == attrs
    decreases |attrs|
  {
    hide Fate;
    if attrs != [] {
      AscendingKept(attrs[0], ClassOf(attrs[0].ty), attrs[1..]);
      AscendingEmitted(ClassOf(attrs[0].ty), attrs[1..]);
    }
  }

  lemma {:induction false} AscendingCommits(d: Dir, bound: int, attrs: Log)
    requires Ascending(bound, attrs) && |d.entries| == 1
    ensures PlainLog(attrs) && Commits(d, attrs) && Net(attrs) == 0 && TailAfter(NoTail, attrs) == NoTail
    ensures |Replay(d, attrs).entries| == 1
    ensures NAME in d.entries[0] ==> NAME in Replay(d, attrs).entries[0]
    decreases |attrs|
  {
    if attrs != [] {
      AscendingCommits(Apply(d, attrs[0]), ClassOf(attrs[0].ty), attrs[1..]);
    }
  }

  lemma MovedFile()
    ensures CallerTags(MOVED_FILE) && Commits(EMPTY, MOVED_FILE) && Replay(EMPTY, []) == EMPTY
    ensures LastNamed(Replay(EMPTY, MOVED_FILE).entries) && Net(MOVED_FILE) == 1
    ensures TailAfter(NoTail, MOVED_FILE) == NoTail
    ensures WithoutNoops(MOVED_FILE) == MOVED_FILE && |Emitted(MOVED_FILE, 0, 1)| == 5
  {
    hide Apply, Commits, Replay, Net, TailAfter, WithoutNoops, Emitted, Ascending;
    MovedAttrs();
    MovedEntry();
    var d1 := Apply(EMPTY, MOVED_FILE[0]);
    var d2 := Apply(d1, MOVED_ATTRS[0]);
    AscendingCommits(d1, -1, MOVED_ATTRS);
    AscendingCommits(d2, 0, MOVED_ATTRS[1..]);
    AscendingEmitted(-1, MOVED_ATTRS);
    CreatedFirst(MOVED_ATTRS);
    ReplayedFirst(d1, MOVED_ATTRS);
    NothingReplayed();
  }

  /** A create, and the tags behind it. */
  lemma CreatedFirst(attrs: Log)
    requires PlainLog(attrs)
    ensures var t := Tag(CREATE, 0, 0, []);
            && PlainLog([t] + attrs)
            && (Commits(Apply(EMPTY, t), attrs) ==> Commits(EMPTY, [t] + attrs))
            && Replay(EMPTY, [t] + attrs) == Replay(Apply(EMPTY, t), attrs)
            && Net([t] + attrs) == 1 + Net(attrs) && TailAfter(NoTail, [t] + attrs) == TailAfter(NoTail, attrs)
            && WithoutNoops([t] + attrs) == [t] + WithoutNoops(attrs)
            && Emitted([t] + attrs, 0, 1) == Emitted(attrs, 0, 1)
  {
    hide Apply;
    assert ([Tag(CREATE, 0, 0, [])] + attrs)[1..] == attrs;
  }

  lemma ReplayedFirst(d: Dir, attrs: Log)
    requires PlainLog(attrs) && attrs != []
    ensures Replay(d, attrs) == Replay(Apply(d, attrs[0]), attrs[1..])
  {
  }

  lemma MovedAttrs()
    ensures MOVED_FILE[1..] == MOVED_ATTRS && CallerTags(MOVED_FILE)
    ensures Ascending(-1, MOVED_ATTRS) && Ascending(0, MOVED_ATTRS[1..])
  {
    var l1, l2, l3, l4 := MOVED_ATTRS[1..], MOVED_ATTRS[2..], MOVED_ATTRS[3..], MOVED_ATTRS[4..];
    assert l1[1..] == l2 && l2[1..] == l3 && l3[1..] == l4 && l4[1..] == [];
    assert Ascending(0x301, l4);
    assert Ascending(0x300, l3);
    assert Ascending(0x200, l2);
    assert Ascending(0, l1);
  }

  lemma MovedEntry()
    ensures var d1 := Apply(EMPTY, MOVED_FILE[0]);
            var d2 := Apply(d1, MOVED_ATTRS[0]);
            |d1.entries| == |d2.entries| == 1 && NAME in d2.entries[0]
  {
  }
}
