/**
 * Compaction of the metadata log: lfs_dir_traverse with lfs_dir_traverse_filter (littlefs/lfs.c:782-1034), as
 * lfs_dir_compact calls it (lfs.c:1905-1912). The pseudo tags FROM_MOVE and FROM_USERATTRS are not modelled.
 */
module Compaction {
  import opened Basics
  import opened MetadataLog

  // ----- The filter: what later tags do to a tag -----

  /** Some tag u committed after f makes f redundant. The mask depends on a bit of u's type. */
  predicate Redundant(u: Tag, f: Tag) {
    || (u.id == f.id && if u.ty / 0x100 % 2 == 1 then u.ty == f.ty else u.ty / 0x100 == f.ty / 0x100)
    || IsDelete(f)
    || (u.ty == DELETE && u.id == f.id)
  }

  /** Creates and deletes at or below the id of f renumber it. */
  function Renumbered(u: Tag, f: Tag): (r: Tag) {
    if IsSplice(u) && u.id <= f.id then f.(id := f.id + Splice(u)) else f
  }

  /** What becomes of a tag after the rest of the log: nothing, or the tag under its final id. */
  function Fate(t: Tag, rest: Log): (r: Option<Tag>)
    decreases |rest|
  {
    if rest == [] then Some(t)
    else if IsNoop(rest[0]) then Fate(t, rest[1..])
    else if Redundant(rest[0], t) then None
    else Fate(Renumbered(rest[0], t), rest[1..])
  }

  /** Compaction copies attributes, not creates, deletes or values of the whole log. */
  predicate Copied(t: Tag) {
    t.ty < 0x400
  }

  /** The tags that compaction writes for ids begin up to end, renumbered from 0. */
  function Emitted(log: Log, begin: nat, end: nat): (r: Log)
    decreases |log|
  {
    if log == [] then [] else First(log, begin, end) + Emitted(log[1..], begin, end)
  }

  function First(log: Log, begin: nat, end: nat): (r: Log)
    requires log != []
  {
    FirstOf(log[0], log[1..], begin, end)
  }

  function FirstOf(tag: Tag, rest: Log, begin: nat, end: nat): (r: Log) {
    if !Copied(tag) then []
    else
      match Fate(tag, rest)
      case None => []
      case Some(t) => if IsNoop(t) || !(begin <= t.id < end) then [] else [t.(id := t.id - begin)]
  }

  // ----- Compaction keeps the meaning -----

  /** A tag that survives does so under the id from which looking back leads to it. */
  lemma {:induction false} SurvivorIsReached(t: Tag, rest: Log, q: Query)
    requires PlainLog(rest) && ByClass(q) && q.byId && ClassOf(t.ty) == ClassOf(q.ty) && IsAttr(t)
    requires Fate(t, rest).Some?
    ensures Fate(t, rest).value == t.(id := Fate(t, rest).value.id)
    ensures Back(rest, q, Fate(t, rest).value.id) == Older(t.id)
    decreases |rest|
  {
    if rest == [] {
    } else {
      var u := rest[0];
      ClassDecides(q, u.ty);
      SurvivorIsReached(if IsNoop(u) then t else Renumbered(u, t), rest[1..], q);
    }
  }

  /** A value that looking back leads to survives. */
  lemma {:induction false} ReachedSurvives(t: Tag, rest: Log, q: Query, f: int)
    requires PlainLog(rest) && ByClass(q) && q.byId && ClassOf(t.ty) == ClassOf(q.ty) && IsAttr(t)
    requires !IsDelete(t) && Back(rest, q, f) == Older(t.id)
    ensures Fate(t, rest) == Some(t.(id := f))
    decreases |rest|
  {
    if rest == [] {
    } else {
      var u := rest[0];
      ClassDecides(q, u.ty);
      var j := Back(rest[1..], q, f).id;
      ReachedSurvives(t.(id := j), rest[1..], q, f);
      StepForward(t, u, q, j);
    }
  }

  /** If looking back over u turns id j into that of t, the filter turns t into id j. */
  lemma StepForward(t: Tag, u: Tag, q: Query, j: int)
    requires Plain(u) && ByClass(q) && q.byId && ClassOf(t.ty) == ClassOf(q.ty) && IsAttr(t)
    requires !IsDelete(t) && Back1(u, q, j) == Older(t.id)
    ensures IsNoop(u) ==> j == t.id
    ensures !IsNoop(u) ==> !Redundant(u, t) && Renumbered(u, t) == t.(id := j)
  {
    ClassDecides(q, u.ty);
  }

  lemma {:induction false} FatePlain(t: Tag, rest: Log)
    requires Fate(t, rest).Some? && Plain(t) && Copied(t) && PlainLog(rest)
    ensures Plain(Fate(t, rest).value) && Fate(t, rest).value == t.(id := Fate(t, rest).value.id)
    decreases |rest|
  {
    if rest != [] {
      FatePlain(if IsNoop(rest[0]) then t else Renumbered(rest[0], t), rest[1..]);
    }
  }

  lemma {:induction false} EmittedPlain(log: Log, begin: nat, end: nat)
    requires PlainLog(log)
    ensures var e := Emitted(log, begin, end);
            PlainLog(e) && forall i :: 0 <= i < |e| ==> IsAttr(e[i]) && 0 <= e[i].id < end - begin
    decreases |log|
  {
    if log != [] {
      EmittedPlain(log[1..], begin, end);
      if Copied(log[0]) && Fate(log[0], log[1..]).Some? {
        FatePlain(log[0], log[1..]);
      }
    }
  }

  /** What looking back over the compacted log finds, compared with the original. */
  predicate SameFind(original: Trace, compacted: Trace, id: int) {
    match original
    case At(t) => if IsDelete(t) then compacted == Older(id) || (compacted.At? && IsDelete(compacted.tag))
                  else compacted == At(t.(id := id))
    case Created => compacted == Older(id)
    case Older(_) => compacted == Older(id)
  }

  lemma {:induction false} EmittedTrace(log: Log, begin: nat, end: nat, q: Query, f: int)
    requires PlainLog(log) && ByClass(q) && q.byId && begin <= f < end
    ensures SameFind(Back(log, q, f), Back(Emitted(log, begin, end), q, f - begin), f - begin)
    decreases |log|
  {
    if log == [] {
    } else {
      EmittedTrace(log[1..], begin, end, q, f);
      FirstTrace(log, begin, end, q, f);
      EmittedPlain(log, begin, end);
      BackAppend(First(log, begin, end), Emitted(log[1..], begin, end), q, f - begin);
    }
  }

  /** What the first tag of a log adds to the compacted log, seen from id f. */
  lemma FirstTrace(log: Log, begin: nat, end: nat, q: Query, f: int)
    requires log != [] && PlainLog(log) && ByClass(q) && q.byId && begin <= f < end
    ensures var here := Back(First(log, begin, end), q, f - begin);
            match Back(log[1..], q, f)
            case Older(j) => SameFind(Back1(log[0], q, j), here, f - begin)
            case _ => here == Older(f - begin)
  {
    var t := log[0];
    var rest := log[1..];
    ClassDecides(q, t.ty);
    var e := First(log, begin, end);
    assert e != [] ==> e[1..] == [];
    if ClassOf(t.ty) == ClassOf(q.ty) {
      if Fate(t, rest).Some? {
        SurvivorIsReached(t, rest, q);
      }
      if Back(rest, q, f) == Older(t.id) && !IsDelete(t) {
        ReachedSurvives(t, rest, q, f);
      }
    } else if e != [] {
      FatePlain(t, rest);
    }
  }

  /** The lookup for a class of attributes. */
  function ClassQuery(c: TagType): (r: Query) {
    Query(if c / 0x100 % 2 == 1 then M7ff else M700, c, true)
  }

  predicate AttrClass(c: TagType) {
    c < 0x400 && c / 0x100 != 1 && ClassOf(c) == c
  }

  ghost predicate OnlyAttrs(d: Dir) {
    forall i :: 0 <= i < |d.entries| ==> forall c :: c in d.entries[i] ==> AttrClass(c)
  }

  lemma {:induction false} ReplayOnlyAttrs(d: Dir, log: Log)
    requires OnlyAttrs(d) && PlainLog(log)
    ensures OnlyAttrs(Replay(d, log))
    decreases |log|
  {
    if log != [] {
      ApplyOnlyAttrs(d, log[0]);
      ReplayOnlyAttrs(Apply(d, log[0]), log[1..]);
    }
  }

  lemma ApplyOnlyAttrs(d: Dir, t: Tag)
    requires OnlyAttrs(d) && Plain(t)
    ensures OnlyAttrs(Apply(d, t))
  {
    var d' := Apply(d, t);
    forall i, c | 0 <= i < |d'.entries| && c in d'.entries[i] ensures AttrClass(c) {
      if t.ty == CREATE {
        CreateShifts(d, t, i);
      } else if t.ty == DELETE {
        DeleteShifts(d, t, i);
      } else if IsAttr(t) {
        AttrSets(d, t, i);
      }
    }
  }

  /** Directory d' holds exactly the entries begin up to end of d, renumbered from 0. */
  ghost predicate RangeOf(d': Dir, d: Dir, begin: nat, end: nat) {
    forall i: nat :: EntryAt(d', i) == if begin + i < end then EntryAt(d, begin + i) else map[]
  }

  /** Compaction keeps every entry of the ids it copies, and adds nothing. */
  lemma CompactionPreserves(log: Log, begin: nat, end: nat)
    requires PlainLog(log) && begin <= end
    ensures PlainLog(Emitted(log, begin, end))
    ensures RangeOf(Replay(EMPTY, Emitted(log, begin, end)), Replay(EMPTY, log), begin, end)
  {
    EmittedPlain(log, begin, end);
    forall i: nat ensures EntryAt(Replay(EMPTY, Emitted(log, begin, end)), i)
                       == if begin + i < end then EntryAt(Replay(EMPTY, log), begin + i) else map[] {
      EntryPreserved(log, begin, end, i);
    }
  }

  lemma EntryPreserved(log: Log, begin: nat, end: nat, i: nat)
    requires PlainLog(log) && begin <= end && PlainLog(Emitted(log, begin, end))
    ensures EntryAt(Replay(EMPTY, Emitted(log, begin, end)), i)
         == if begin + i < end then EntryAt(Replay(EMPTY, log), begin + i) else map[]
  {
    var e := Emitted(log, begin, end);
    ReplayOnlyAttrs(EMPTY, log);
    ReplayOnlyAttrs(EMPTY, e);
    var left := EntryAt(Replay(EMPTY, e), i);
    var right := if begin + i < end then EntryAt(Replay(EMPTY, log), begin + i) else map[];
    forall c: TagType | AttrClass(c) ensures Get(left, c) == Get(right, c) {
      ClassPreserved(log, begin, end, i, c);
    }
    SameByClass(left, right);
  }

  lemma SameByClass(left: Entry, right: Entry)
    requires forall c :: c in left || c in right ==> AttrClass(c)
    requires forall c: TagType | AttrClass(c) :: Get(left, c) == Get(right, c)
    ensures left == right
  {
    forall c: TagType ensures c in left <==> c in right {
      assert AttrClass(c) ==> Get(left, c) == Get(right, c);
    }
    forall c | c in left ensures left[c] == right[c] {
      assert Get(left, c) == Get(right, c);
    }
  }

  lemma ClassPreserved(log: Log, begin: nat, end: nat, i: nat, c: TagType)
    requires PlainLog(log) && begin <= end && AttrClass(c)
    requires PlainLog(Emitted(log, begin, end))
    ensures Get(EntryAt(Replay(EMPTY, Emitted(log, begin, end)), i), c)
         == if begin + i < end then Get(EntryAt(Replay(EMPTY, log), begin + i), c) else NoEntry
  {
    if begin + i < end {
      InsidePreserved(log, Emitted(log, begin, end), begin, end, i, c);
    } else {
      EmittedPlain(log, begin, end);
      OutsideEmpty(Emitted(log, begin, end), i, c);
    }
  }

  /** What a class holds in the end, told from the trace. */
  function Settled(trace: Trace): (r: Found) {
    if trace.At? && !IsDelete(trace.tag) then Hit(Value(trace.tag.ty, trace.tag.size, trace.tag.data)) else NoEntry
  }

  lemma ClassQueryFits(c: TagType)
    requires AttrClass(c)
    ensures ByClass(ClassQuery(c)) && ClassQuery(c).byId && ClassOf(ClassQuery(c).ty) == c
  {
  }

  lemma HeldIsSettled(log: Log, c: TagType, i: nat)
    requires PlainLog(log) && AttrClass(c)
    ensures Get(EntryAt(Replay(EMPTY, log), i), c) == Settled(Back(log, ClassQuery(c), i))
  {
    hide Replay, Back, PlainLog, ByClass, ClassQuery, AttrClass, ClassOf;
    ClassQueryFits(c);
    BackAnswers(EMPTY, log, ClassQuery(c), i);
  }

  lemma SameFindSettled(original: Trace, compacted: Trace, id: int)
    requires SameFind(original, compacted, id)
    ensures Settled(compacted) == Settled(original)
  {
  }

  lemma InsidePreserved(log: Log, e: Log, begin: nat, end: nat, i: nat, c: TagType)
    requires PlainLog(log) && PlainLog(e) && AttrClass(c) && begin + i < end && e == Emitted(log, begin, end)
    ensures Get(EntryAt(Replay(EMPTY, e), i), c) == Get(EntryAt(Replay(EMPTY, log), begin + i), c)
  {
    hide Replay, Back, Emitted, EntryAt, Get, PlainLog, ByClass, ClassQuery, AttrClass, ClassOf, SameFind, Settled;
    var q := ClassQuery(c);
    ClassQueryFits(c);
    HeldIsSettled(e, c, i);
    HeldIsSettled(log, c, begin + i);
    EmittedTrace(log, begin, end, q, begin + i);
    SameFindSettled(Back(log, q, begin + i), Back(e, q, i), i);
  }

  lemma OutsideEmpty(e: Log, i: nat, c: TagType)
    requires PlainLog(e) && AttrClass(c)
    requires forall k :: 0 <= k < |e| ==> !IsSplice(e[k]) && e[k].id != i
    ensures Get(EntryAt(Replay(EMPTY, e), i), c) == NoEntry
  {
    BackAnswers(EMPTY, e, ClassQuery(c), i);
    OtherIds(e, ClassQuery(c), i);
  }

  lemma {:induction false} OtherIds(log: Log, q: Query, i: int)
    requires forall k :: 0 <= k < |log| ==> !IsSplice(log[k]) && log[k].id != i
    ensures q.byId ==> Back(log, q, i) == Older(i)
    decreases |log|
  {
    if log != [] {
      OtherIds(log[1..], q, i);
    }
  }

  // ----- Splitting -----

  /** Where an entry is found after the ids from split on moved to a pair of their own. */
  function SplitEntry(low: Dir, high: Dir, begin: nat, split: nat, id: nat): (r: Entry) {
    if id < split then EntryAt(low, id - begin) else EntryAt(high, id - split)
  }

  /** A split writes the upper ids to a new pair and the lower ones to the old pair: together they hold everything. */
  lemma SplitPreserves(log: Log, begin: nat, split: nat, end: nat, id: nat)
    requires PlainLog(log) && begin <= split <= end && begin <= id < end
    ensures PlainLog(Emitted(log, begin, split)) && PlainLog(Emitted(log, split, end))
    ensures SplitEntry(Replay(EMPTY, Emitted(log, begin, split)), Replay(EMPTY, Emitted(log, split, end)),
                       begin, split, id)
         == EntryAt(Replay(EMPTY, log), id)
  {
    hide Emitted, Replay, EntryAt, Plain, PlainLog;
    EmittedPlain(log, begin, split);
    EmittedPlain(log, split, end);
    if id < split {
      EntryPreserved(log, begin, split, id - begin);
    } else {
      EntryPreserved(log, split, end, id - split);
    }
  }

  // ----- The recount after a remount -----

  const NAME: TagType := 0

  /** Scanning a compacted log counts up to its highest name. */
  lemma {:induction false} CountOfNames(count: int, log: Log, n: int)
    requires forall k :: 0 <= k < |log| ==> !IsSplice(log[k]) && log[k].id < n
    requires count <= n
    ensures count <= Count(count, log) <= n
    ensures forall k :: 0 <= k < |log| && Type1(log[k].ty) == NAME ==> log[k].id < Count(count, log)
    decreases |log|
  {
    if log != [] {
      var t := log[0];
      var c := if Type1(t.ty) == 0 && t.id >= count then t.id + 1 else count;
      CountOfNames(c, log[1..], n);
      forall k | 0 <= k < |log| && Type1(log[k].ty) == NAME ensures log[k].id < Count(count, log) {
        if k > 0 {
          assert log[k] == log[1..][k - 1];
        }
      }
    }
  }

  /** If the last copied entry has a name, a scan of the compacted log counts exactly the copied entries. */
  lemma CompactedCount(log: Log, begin: nat, end: nat)
    requires PlainLog(log) && begin < end && NAME in EntryAt(Replay(EMPTY, log), end - 1)
    ensures Count(0, Emitted(log, begin, end)) == end - begin
  {
    var e, q, last := Emitted(log, begin, end), ClassQuery(NAME), end - 1 - begin;
    EmittedPlain(log, begin, end);
    NotSplices(e);
    NamesCount(e, end - begin, last);
    hide Emitted, Back, Replay, EntryAt, PlainLog, Count, SameFind, ClassQuery, ClassOf, ByClass, AttrClass;
    ClassQueryFits(NAME) by { assert AttrClass(NAME) by { NameIsClass(); } }
    HeldIsSettled(log, NAME, end - 1);
    EmittedTrace(log, begin, end, q, end - 1);
    SameFindSettled(Back(log, q, end - 1), Back(e, q, last), last);
    NameFound(e, q, last);
  }

  lemma NameIsClass()
    ensures AttrClass(NAME)
  {
  }

  lemma NotSplices(e: Log)
    requires forall i :: 0 <= i < |e| ==> IsAttr(e[i])
    ensures forall i :: 0 <= i < |e| ==> !IsSplice(e[i])
  {
  }

  lemma NameFound(e: Log, q: Query, last: nat)
    requires PlainLog(e) && q == ClassQuery(NAME) && Back(e, q, last).At?
    requires forall k :: 0 <= k < |e| ==> !IsSplice(e[k])
    ensures exists k :: 0 <= k < |e| && Type1(e[k].ty) == NAME && e[k].id == last
  {
    FoundInLog(e, q, last);
    ClassDecides(q, Back(e, q, last).tag.ty);
  }

  lemma NamesCount(e: Log, n: nat, last: int)
    requires forall k :: 0 <= k < |e| ==> !IsSplice(e[k]) && e[k].id < n
    requires last == n - 1
    ensures (exists k :: 0 <= k < |e| && Type1(e[k].ty) == NAME && e[k].id == last) ==> Count(0, e) == n
  {
    CountOfNames(0, e, n);
  }

  lemma {:induction false} FoundInLog(log: Log, q: Query, id: int)
    requires Back(log, q, id).At? && PlainLog(log) && Sensible(q) && q.byId
    requires forall k :: 0 <= k < |log| ==> !IsSplice(log[k])
    ensures Back(log, q, id).tag in log && Back(log, q, id).tag.id == id && Fits(q, Back(log, q, id).tag.ty)
    decreases |log|
  {
    var rest := log[1..];
    if Back(rest, q, id).At? {
      FoundInLog(rest, q, id);
    } else {
      KeepsId(rest, q, id);
    }
  }

  lemma {:induction false} KeepsId(log: Log, q: Query, id: int)
    requires forall k :: 0 <= k < |log| ==> !IsSplice(log[k])
    ensures Back(log, q, id).At? || Back(log, q, id) == Older(id)
    decreases |log|
  {
    if log != [] {
      KeepsId(log[1..], q, id);
    }
  }

  // ----- The loops -----

  /** The inner run of lfs_dir_traverse, with lfs_dir_traverse_filter as its callback. */
  method Filter(tag: Tag, log: Log, from: nat) returns (filtered: Option<Tag>)
    requires from <= |log|
    ensures filtered == Fate(tag, log[from..])
  {
    var filtertag := tag;
    var k := from;
    while k < |log|
      invariant from <= k <= |log|
      invariant Fate(tag, log[from..]) == Fate(filtertag, log[k..])
    {
      var u := log[k];
      assert log[k..][1..] == log[k + 1..];
      k := k + 1;
      if !IsNoop(u) {
        if Redundant(u, filtertag) {
          return None;
        }
        filtertag := Renumbered(u, filtertag);
      }
    }
    filtered := Some(filtertag);
  }

  lemma EmittedFrom(log: Log, k: nat, begin: nat, end: nat)
    requires k <= |log|
    ensures k == |log| ==> Emitted(log[k..], begin, end) == []
    ensures k < |log| ==>
              && First(log[k..], begin, end) == FirstOf(log[k], log[k + 1..], begin, end)
              && Emitted(log[k..], begin, end)
              == FirstOf(log[k], log[k + 1..], begin, end) + Emitted(log[k + 1..], begin, end)
  {
    if k < |log| {
      assert log[k..][0] == log[k] && log[k..][1..] == log[k + 1..];
    }
  }

  /** The outer run of lfs_dir_traverse over the committed tags and the appended attributes. */
  method Traverse(disk: Log, attrs: Log, begin: nat, end: nat) returns (out: Log)
    requires PlainLog(disk + attrs) && begin <= end
    ensures out == Emitted(disk + attrs, begin, end) && PlainLog(out)
    ensures RangeOf(Replay(EMPTY, out), Replay(EMPTY, disk + attrs), begin, end)
  {
    hide Emitted, PlainLog, Fate;
    var log := disk + attrs;
    out := [];
    var k := 0;
    EmittedFrom(log, |log|, begin, end);
    assert log[0..] == log;
    while k < |log|
      invariant 0 <= k <= |log|
      invariant out + Emitted(log[k..], begin, end) == Emitted(log, begin, end)
    {
      var tag := log[k];
      EmittedFrom(log, k, begin, end);
      k := k + 1;
      if Copied(tag) {
        var filtered := Filter(tag, log, k);
        if filtered.Some? {
          var t := filtered.value;
          if begin <= t.id < end && !IsNoop(t) {
            out := out + [t.(id := t.id - begin)];
          }
        }
      }
    }
    CompactionPreserves(log, begin, end);
  }
}
