/**
 * The metadata log: tags in the order they were committed, what they mean (a forward replay), and the
 * backward lookup lfs_dir_getslice (littlefs/lfs.c:651-711) that finds one value without replaying.
 */
module MetadataLog {
  import opened Basics

  /** The 11 bits that lfs_tag_type3 extracts. Their upper 3 bits (lfs_tag_type1) say what kind of tag it is. */
  type TagType = t: int | 0 <= t < 0x800

  const CREATE: TagType := 0x401
  const DELETE: TagType := 0x4ff
  const FROM_NOOP: TagType := 0x100
  const MOVESTATE: TagType := 0x7ff

  const NO_DATA: nat := 0x3ff
  const MAX_ID: int := 0x3ff

  type Data = seq<Byte>

  /** One tag with its data. A size of NO_DATA marks a deleted attribute. */
  datatype Tag = Tag(ty: TagType, id: int, size: nat, data: Data)

  type Log = seq<Tag>

  function Type1(ty: TagType): (r: TagType) {
    0x100 * (ty / 0x100)
  }

  predicate IsSplice(t: Tag) {
    Type1(t.ty) == 0x400
  }

  predicate IsDelete(t: Tag) {
    t.size == NO_DATA
  }

  /** An attribute of an id: name, structure or user attribute. */
  predicate IsAttr(t: Tag) {
    t.ty < 0x400 && Type1(t.ty) != 0x100
  }

  predicate IsNoop(t: Tag) {
    t.ty == FROM_NOOP
  }

  /**
   * The class of a type: a newer attribute replaces an older one of the same class. Types with bit 0x100
   * are classes of their own (mask 0x7ff); the others are told apart by type1 alone (mask 0x700).
   */
  function ClassOf(ty: TagType): (r: TagType) {
    if ty / 0x100 % 2 == 1 then ty else Type1(ty)
  }

  /** What lfs_tag_splice extracts from a create or delete. */
  function Splice(t: Tag): (r: int) {
    if t.ty == CREATE then 1 else -1
  }

  /** The tags that logs are made of: splices are plain creates and deletes, and no pseudo tag but the empty one. */
  predicate Plain(t: Tag) {
    && t.id >= 0
    && (IsSplice(t) ==> (t.ty == CREATE || t.ty == DELETE) && t.size == 0)
    && (Type1(t.ty) == 0x100 ==> IsNoop(t))
  }

  ghost predicate PlainLog(log: Log) {
    forall i :: 0 <= i < |log| ==> Plain(log[i])
  }

  // ----- Meaning: forward replay -----

  datatype Value = Value(ty: TagType, size: nat, data: Data)

  /** The attributes of one id, by class. */
  type Entry = map<TagType, Value>

  /** Everything a log says: the entries by id, and the values that belong to no id. */
  datatype Dir = Dir(entries: seq<Entry>, globals: Entry)

  const EMPTY: Dir := Dir([], map[])

  function Padded(es: seq<Entry>, n: nat): (r: seq<Entry>)
    ensures |r| == if |es| < n then n else |es|
    ensures forall i :: 0 <= i < |r| ==> r[i] == if i < |es| then es[i] else map[]
  {
    if |es| < n then es + seq(n - |es|, _ => map[]) else es
  }

  function SetValue(e: Entry, t: Tag): (r: Entry) {
    if IsDelete(t) then e - {ClassOf(t.ty)} else e[ClassOf(t.ty) := Value(t.ty, t.size, t.data)]
  }

  /** One step of the replay: create inserts an id, delete removes one, an attribute overwrites. */
  function Apply(d: Dir, t: Tag): (r: Dir)
    requires t.id >= 0
  {
    if t.ty == CREATE then
      var es := Padded(d.entries, t.id);
      d.(entries := es[..t.id] + [map[]] + es[t.id..])
    else if t.ty == DELETE then
      if t.id < |d.entries| then d.(entries := d.entries[..t.id] + d.entries[t.id + 1..]) else d
    else if IsAttr(t) then
      var es := Padded(d.entries, t.id + 1);
      d.(entries := es[t.id := SetValue(es[t.id], t)])
    else if t.ty >= 0x400 then
      d.(globals := SetValue(d.globals, t))
    else
      d
  }

  function Replay(d: Dir, log: Log): (r: Dir)
    requires forall i :: 0 <= i < |log| ==> log[i].id >= 0
    decreases |log|
  {
    if log == [] then d else Replay(Apply(d, log[0]), log[1..])
  }

  /** Replaying more tags goes on from where the log before them ended. */
  lemma {:induction false} ReplayAppend(d: Dir, log: Log, more: Log)
    requires PlainLog(log) && PlainLog(more)
    ensures PlainLog(log + more) && Replay(d, log + more) == Replay(Replay(d, log), more)
    decreases |log|
  {
    if log == [] {
      assert log + more == more;
    } else {
      assert (log + more)[1..] == log[1..] + more;
      ReplayAppend(Apply(d, log[0]), log[1..], more);
    }
  }

  /** The entry of an id; an id past the end has no attributes. */
  function EntryAt(d: Dir, id: int): (r: Entry) {
    if 0 <= id < |d.entries| then d.entries[id] else map[]
  }

  datatype Found = NoEntry | Hit(value: Value)

  function Get(e: Entry, c: TagType): (r: Found) {
    if c in e then Hit(e[c]) else NoEntry
  }

  // ----- Lookup: what to find -----

  /** The type masks that lookups use: 0x700, 0x780 and 0x7ff. */
  datatype TypeMask = M700 | M780 | M7ff

  /** The upper bits of a type that a mask keeps. */
  function Masked(m: TypeMask, ty: TagType): (r: nat) {
    match m
    case M700 => ty / 0x100
    case M780 => ty / 0x80
    case M7ff => ty
  }

  /** A lookup by id (id mask 0x3ff) or of a value of the whole log (id mask 0). */
  datatype Query = Query(mask: TypeMask, ty: TagType, byId: bool)

  predicate Fits(q: Query, ty: TagType) {
    Masked(q.mask, ty) == Masked(q.mask, q.ty)
  }

  /** The query asks for attributes if it is by id and for other values if it is not. */
  predicate Sensible(q: Query) {
    if q.byId then q.ty < 0x400 && Type1(q.ty) != 0x100 else q.ty >= 0x500
  }

  /** The mask of the query is that of its class, so nothing but the class decides. */
  predicate ByClass(q: Query) {
    Sensible(q) && q.mask == if q.ty / 0x100 % 2 == 1 then M7ff else M700
  }

  lemma ClassDecides(q: Query, ty: TagType)
    requires ByClass(q)
    ensures Fits(q, ty) <==> ClassOf(ty) == ClassOf(q.ty)
  {
  }

  function Holder(d: Dir, q: Query, id: int): (r: Entry) {
    if q.byId then EntryAt(d, id) else d.globals
  }

  // ----- Backward trace -----

  /** What looking back over part of a log tells about an id: settled, or still open under an older id. */
  datatype Trace = At(tag: Tag) | Created | Older(id: int)

  /** Looking back over one tag. */
  function Back1(t: Tag, q: Query, id: int): (r: Trace) {
    if q.byId && IsSplice(t) && t.id <= id then
      if t.ty == CREATE && t.id == id then Created else Older(id - Splice(t))
    else if Fits(q, t.ty) && (q.byId ==> t.id == id) then At(t)
    else Older(id)
  }

  /** Looking back over a log from its end. */
  function Back(log: Log, q: Query, id: int): (r: Trace)
    decreases |log|
  {
    if log == [] then Older(id)
    else
      match Back(log[1..], q, id)
      case Older(j) => Back1(log[0], q, j)
      case settled => settled
  }

  /** What a settled or exhausted trace answers, given the state before the log. */
  function Answer(d: Dir, tr: Trace, q: Query): (r: Found) {
    match tr
    case At(t) => if IsDelete(t) then NoEntry else Hit(Value(t.ty, t.size, t.data))
    case Created => NoEntry
    case Older(j) => Get(Holder(d, q, j), ClassOf(q.ty))
  }

  lemma CreateShifts(d: Dir, t: Tag, id: int)
    requires t.ty == CREATE && t.id >= 0 && id >= 0
    ensures EntryAt(Apply(d, t), id) ==
            if id < t.id then EntryAt(d, id) else if id == t.id then map[] else EntryAt(d, id - 1)
  {
  }

  lemma DeleteShifts(d: Dir, t: Tag, id: int)
    requires t.ty == DELETE && t.id >= 0 && id >= 0
    ensures EntryAt(Apply(d, t), id) == if id < t.id then EntryAt(d, id) else EntryAt(d, id + 1)
  {
  }

  lemma AttrSets(d: Dir, t: Tag, id: int)
    requires IsAttr(t) && t.id >= 0 && id >= 0
    ensures EntryAt(Apply(d, t), id) == if id == t.id then SetValue(EntryAt(d, id), t) else EntryAt(d, id)
  {
  }

  /** One replay step seen from the lookup side. */
  lemma StepAnswer(d: Dir, t: Tag, q: Query, id: int)
    requires Plain(t) && id >= 0 && ByClass(q)
    ensures Get(Holder(Apply(d, t), q, id), ClassOf(q.ty)) == Answer(d, Back1(t, q, id), q)
    ensures Back1(t, q, id).Older? ==> Back1(t, q, id).id >= 0
  {
    ClassDecides(q, t.ty);
    if t.ty == CREATE {
      CreateShifts(d, t, id);
    } else if t.ty == DELETE {
      DeleteShifts(d, t, id);
    } else if IsAttr(t) {
      AttrSets(d, t, id);
    }
  }

  /** Looking back agrees with replaying forward, from any earlier state. */
  lemma {:induction false} BackAnswers(d: Dir, log: Log, q: Query, id: int)
    requires PlainLog(log) && id >= 0 && ByClass(q)
    ensures Get(Holder(Replay(d, log), q, id), ClassOf(q.ty)) == Answer(d, Back(log, q, id), q)
    ensures Back(log, q, id).Older? ==> Back(log, q, id).id >= 0
    decreases |log|
  {
    if log == [] {
    } else {
      BackAnswers(Apply(d, log[0]), log[1..], q, id);
      match Back(log[1..], q, id) {
        case Older(j) => StepAnswer(d, log[0], q, j);
        case At(t) =>
        case Created =>
      }
    }
  }

  /** A mask finer than the class finds the current value of the class whenever that value fits the mask. */
  lemma {:induction false} FinerMask(log: Log, q: Query, qc: Query, id: int)
    requires ByClass(qc) && Finer(q, qc)
    requires Back(log, qc, id).At? && Fits(q, Back(log, qc, id).tag.ty)
    ensures Back(log, q, id) == Back(log, qc, id)
    decreases |log|
  {
    var rest := log[1..];
    if Back(rest, qc, id).At? {
      FinerMask(rest, q, qc, id);
    } else {
      FinerOpen(rest, q, qc, id);
    }
  }

  /** While no tag of the class has been met, a finer mask has met nothing either. */
  lemma {:induction false} FinerOpen(log: Log, q: Query, qc: Query, id: int)
    requires ByClass(qc) && Finer(q, qc)
    requires !Back(log, qc, id).At?
    ensures Back(log, q, id) == Back(log, qc, id)
    decreases |log|
  {
    if log == [] {
    } else {
      FinerOpen(log[1..], q, qc, id);
      if Fits(q, log[0].ty) {
        FinerFits(q, qc, log[0].ty);
      }
    }
  }

  /** q asks for some of the types of the class that qc asks for. */
  predicate Finer(q: Query, qc: Query) {
    && Sensible(q) && q.byId == qc.byId && ClassOf(q.ty) == ClassOf(qc.ty)
    && (qc.mask == M700 || q.mask == M7ff)
  }

  lemma FinerFits(q: Query, qc: Query, ty: TagType)
    requires ByClass(qc) && Finer(q, qc) && Fits(q, ty)
    ensures Fits(qc, ty)
  {
  }

  lemma {:induction false} BackSnoc(log: Log, t: Tag, q: Query, id: int)
    ensures Back(log + [t], q, id) ==
            match Back1(t, q, id)
            case Older(j) => Back(log, q, j)
            case settled => settled
    decreases |log|
  {
    if log == [] {
      assert [t][1..] == [];
    } else {
      assert (log + [t])[1..] == log[1..] + [t];
      BackSnoc(log[1..], t, q, id);
    }
  }

  // ----- Ids stay within 10 bits -----

  /** A tag that a commit may add to d: it names existing entries, and a create one position more. */
  predicate Legit(d: Dir, t: Tag) {
    && Plain(t)
    && (t.ty == CREATE ==> t.id <= |d.entries| < MAX_ID)
    && (t.ty == DELETE ==> t.id < |d.entries|)
    && (IsAttr(t) ==> t.id < |d.entries|)
  }

  /** Commits on top of d. */
  ghost predicate Commits(d: Dir, log: Log)
    decreases |log|
  {
    log != [] ==> Legit(d, log[0]) && Commits(Apply(d, log[0]), log[1..])
  }

  /** What a compaction writes: attributes only, in any order. */
  ghost predicate Compacted(log: Log) {
    forall i :: 0 <= i < |log| ==> Plain(log[i]) && !IsSplice(log[i]) && (IsAttr(log[i]) ==> log[i].id < MAX_ID)
  }

  /** Looking back over commits for an existing id stays among the ids that existed at every point. */
  lemma {:induction false} CommitsInRange(d: Dir, log: Log, q: Query, id: int)
    requires Commits(d, log) && q.byId && Sensible(q) && |d.entries| <= MAX_ID
    requires forall i :: 0 <= i < |log| ==> log[i].id >= 0
    requires 0 <= id < |Replay(d, log).entries|
    ensures Back(log, q, id).Older? ==> 0 <= Back(log, q, id).id < |d.entries|
    ensures |Replay(d, log).entries| <= MAX_ID
    decreases |log|
  {
    if log == [] {
    } else {
      CommitsInRange(Apply(d, log[0]), log[1..], q, id);
    }
  }

  lemma {:induction false} CompactedKeepsId(log: Log, q: Query, id: int)
    requires Compacted(log)
    ensures Back(log, q, id).Older? ==> Back(log, q, id).id == id
    ensures !Back(log, q, id).Created?
    decreases |log|
  {
    if log != [] {
      CompactedKeepsId(log[1..], q, id);
    }
  }

  lemma {:induction false} BackAppend(log: Log, more: Log, q: Query, id: int)
    ensures Back(log + more, q, id) ==
            match Back(more, q, id)
            case Older(j) => Back(log, q, j)
            case settled => settled
    decreases |log|
  {
    if log == [] {
      assert log + more == more;
    } else {
      assert (log + more)[1..] == log[1..] + more;
      BackAppend(log[1..], more, q, id);
    }
  }

  lemma {:induction false} WalkInRange(d: Dir, log: Log, k: nat, q: Query, id: int)
    requires Commits(d, log) && PlainLog(log) && q.byId && Sensible(q) && |d.entries| <= MAX_ID && k <= |log|
    requires 0 <= id < |Replay(d, log).entries|
    ensures Back(log[k..], q, id).Older? ==> 0 <= Back(log[k..], q, id).id < MAX_ID
    decreases |log|
  {
    hide Commits, PlainLog, Replay, Apply, Back, Sensible;
    if k == 0 {
      WholeLogInRange(d, log, q, id);
      assert log[0..] == log;
    } else {
      var rest := log[1..];
      FirstApplies(log);
      CommitsNext(d, log);
      assert rest[k - 1..] == log[k..];
      WalkInRange(Apply(d, log[0]), rest, k - 1, q, id);
    }
  }

  lemma WholeLogInRange(d: Dir, log: Log, q: Query, id: int)
    requires Commits(d, log) && PlainLog(log) && q.byId && Sensible(q) && |d.entries| <= MAX_ID
    requires 0 <= id < |Replay(d, log).entries|
    ensures Back(log, q, id).Older? ==> 0 <= Back(log, q, id).id < MAX_ID
  {
    hide Commits, Replay, Back, Sensible;
    CommitsInRange(d, log, q, id);
  }

  lemma FirstApplies(log: Log)
    requires PlainLog(log) && log != []
    ensures log[0].id >= 0
  {
  }

  lemma CommitsNext(d: Dir, log: Log)
    requires Commits(d, log) && PlainLog(log) && log != [] && |d.entries| <= MAX_ID
    ensures var d' := Apply(d, log[0]);
            && Commits(d', log[1..]) && PlainLog(log[1..])
            && |d'.entries| <= MAX_ID && Replay(d, log) == Replay(d', log[1..])
  {
  }

  lemma {:induction false} CompactedLength(d: Dir, log: Log)
    requires Compacted(log) && |d.entries| <= MAX_ID
    ensures PlainLog(log) && |Replay(d, log).entries| <= MAX_ID
    decreases |log|
  {
    if log != [] {
      CompactedLength(Apply(d, log[0]), log[1..]);
    }
  }

  /** The log of a metadata block: what its compaction wrote, then the commits since. */
  ghost predicate BlockLog(base: Log, commits: Log) {
    && Compacted(base) && PlainLog(base) && PlainLog(commits)
    && Commits(Replay(EMPTY, base), commits)
  }

  /**
   * At no point of the backward walk over a metadata block does the id leave the 10-bit field, so the tag
   * arithmetic of lfs_dir_getslice never carries into the type.
   */
  lemma WalkStaysInRange(base: Log, commits: Log, k: nat, q: Query, id: int)
    requires BlockLog(base, commits) && q.byId && Sensible(q) && k <= |base| + |commits|
    requires 0 <= id < |Replay(Replay(EMPTY, base), commits).entries|
    ensures var tr := Back((base + commits)[k..], q, id);
            tr.Older? ==> 0 <= tr.id < MAX_ID
  {
    CompactedLength(EMPTY, base);
    if k >= |base| {
      assert (base + commits)[k..] == commits[k - |base|..];
      WalkInRange(Replay(EMPTY, base), commits, k - |base|, q, id);
    } else {
      assert (base + commits)[k..] == base[k..] + commits;
      BackAppend(base[k..], commits, q, id);
      CommitsInRange(Replay(EMPTY, base), commits, q, id);
      CompactedKeepsId(base[k..], q, match Back(commits, q, id) case Older(j) => j case _ => id);
    }
  }

  // ----- The number of ids -----

  /** The count that lfs_dir_fetchmatch keeps while it scans a log. */
  function Count(count: int, log: Log): (r: int)
    decreases |log|
  {
    if log == [] then count
    else
      var t := log[0];
      Count(if Type1(t.ty) == 0 then (if t.id >= count then t.id + 1 else count)
            else if IsSplice(t) then count + Splice(t)
            else count, log[1..])
  }

  /** For commits on top of d the scanned count is the number of entries. */
  lemma {:induction false} CountIsLength(d: Dir, log: Log)
    requires Commits(d, log) && forall i :: 0 <= i < |log| ==> log[i].id >= 0
    ensures Count(|d.entries|, log) == |Replay(d, log).entries|
    decreases |log|
  {
    if log != [] {
      CountIsLength(Apply(d, log[0]), log[1..]);
    }
  }

  lemma {:induction false} CountAppend(count: int, log: Log, more: Log)
    ensures Count(count, log + more) == Count(Count(count, log), more)
    decreases |log|
  {
    if log == [] {
      assert log + more == more;
    } else {
      assert (log + more)[1..] == log[1..] + more;
      var t := log[0];
      CountAppend(if Type1(t.ty) == 0 then (if t.id >= count then t.id + 1 else count)
                  else if IsSplice(t) then count + Splice(t) else count, log[1..], more);
    }
  }

  // ----- The tail -----

  const TAIL: TagType := 0x600

  const NULL_BLOCK: Data := [0xff, 0xff, 0xff, 0xff]

  /** lfs_pair_isnull, on the stored bytes of a pair. */
  predicate IsNull(pair: Data) {
    |pair| >= 8 && (pair[..4] == NULL_BLOCK || pair[4..8] == NULL_BLOCK)
  }

  /** The pair that follows in the list of all pairs; a hard tail continues the same directory. */
  datatype Tail = NoTail | Tail(hard: bool, pair: Data)

  function TailFrom(ty: TagType, pair: Data): (r: Tail) {
    if IsNull(pair) then NoTail else Tail(ty % 2 == 1, pair)
  }

  function TailOf(globals: Entry): (r: Tail) {
    if TAIL in globals then TailFrom(globals[TAIL].ty, globals[TAIL].data) else NoTail
  }

  predicate IsTail(t: Tag) {
    Type1(t.ty) == TAIL
  }

  /** The tail that lfs_dir_fetchmatch keeps while it scans a log, and that a commit keeps in memory. */
  function TailAfter(tail: Tail, attrs: Log): (r: Tail)
    decreases |attrs|
  {
    if attrs == [] then tail
    else TailAfter(if IsTail(attrs[0]) then TailFrom(attrs[0].ty, attrs[0].data) else tail, attrs[1..])
  }

  lemma {:induction false} TailAppend(tail: Tail, log: Log, more: Log)
    ensures TailAfter(tail, log + more) == TailAfter(TailAfter(tail, log), more)
    decreases |log|
  {
    hide TailFrom, IsTail;
    if log == [] {
      assert log + more == more;
    } else {
      assert (log + more)[1..] == log[1..] + more;
      TailAppend(if IsTail(log[0]) then TailFrom(log[0].ty, log[0].data) else tail, log[1..], more);
    }
  }

  // ----- lfs_dir_getslice -----

  /** The log as lookups see it while a move is pending: the moved id reads as deleted. */
  function WithMove(log: Log, q: Query, move: Option<nat>): (r: Log) {
    if q.byId && move.Some? then log + [Tag(DELETE, move.value, 0, [])] else log
  }

  /** The id a walk starts with: ids from a moved one on are those of the entries after it. */
  function StartId(q: Query, move: Option<nat>, gid: nat): (r: int) {
    if q.byId && move.Some? && move.value <= gid then gid + 1 else gid
  }

  /** The first n bytes of data, zero-filled. */
  function Clipped(data: Data, n: nat): (r: Data)
    ensures |r| == n
  {
    if |data| >= n then data[..n] else data + seq(n - |data|, _ => 0)
  }

  /**
   * lfs_dir_getslice from offset 0: walks back from the end of the log and keeps in gdiff how far creates
   * and deletes have shifted the id. It finds what a forward replay would have left for the id.
   */
  method GetSlice(log: Log, q: Query, gid: nat, move: Option<nat>, gsize: nat)
    returns (r: Option<Tag>, buffer: Data)
    requires PlainLog(log) && Sensible(q)
    ensures var tr := Back(WithMove(log, q, move), q, gid);
            && (r.Some? <==> tr.At? && !IsDelete(tr.tag))
            && (r.Some? ==> r.value == tr.tag.(id := r.value.id) && (q.byId ==> r.value.id == gid)
                            && buffer == Clipped(Clipped(tr.tag.data, Min(tr.tag.size, gsize)), gsize))
    ensures ByClass(q) ==>
              var found := Get(Holder(Replay(EMPTY, WithMove(log, q, move)), q, gid), ClassOf(q.ty));
              (r.None? <==> found.NoEntry?) && (r.Some? ==> found == Hit(Value(r.value.ty, r.value.size, r.value.data)))
  {
    hide Replay, WithMove, PlainLog, ByClass, Fits, Holder;
    var gdiff := 0;
    if q.byId && move.Some? && move.value <= gid {
      gdiff := -1;
    }
    MoveTrace(log, q, move, gid);
    MoveAnswers(log, q, move, gid);
    buffer := [];
    var k := |log|;
    assert log[k..] == [];
    while k > 0
      invariant 0 <= k <= |log|
      invariant Back(log[k..], q, StartId(q, move, gid)) == Older(gid - gdiff)
      invariant !q.byId ==> gdiff == 0
    {
      k := k - 1;
      var tag := log[k];
      assert log[k..][1..] == log[k + 1..];
      var id := gid - gdiff;
      LaterSettles(log, k, q, StartId(q, move, gid));
      if q.byId && IsSplice(tag) && tag.id <= id {
        if tag.ty == CREATE && tag.id == id {
          return None, buffer;
        }
        gdiff := gdiff + Splice(tag);
      } else if Fits(q, tag.ty) && (q.byId ==> tag.id == id) {
        if IsDelete(tag) {
          return None, buffer;
        }
        var diff := Min(tag.size, gsize);
        buffer := Clipped(tag.data, diff) + seq(gsize - diff, _ => 0);
        return Some(tag.(id := tag.id + gdiff)), buffer;
      }
    }
    assert log[0..] == log;
    return None, buffer;
  }

  /** While a move is pending, looking back answers what a replay of the moved id's deletion leaves. */
  lemma MoveAnswers(log: Log, q: Query, move: Option<nat>, gid: nat)
    requires PlainLog(log)
    ensures PlainLog(WithMove(log, q, move))
    ensures ByClass(q) ==>
              var tr := Back(WithMove(log, q, move), q, gid);
              Get(Holder(Replay(EMPTY, WithMove(log, q, move)), q, gid), ClassOf(q.ty))
              == if tr.At? && !IsDelete(tr.tag) then Hit(Value(tr.tag.ty, tr.tag.size, tr.tag.data)) else NoEntry
  {
    hide Replay, Back;
    if ByClass(q) {
      BackAnswers(EMPTY, WithMove(log, q, move), q, gid);
    }
  }

  /** Once the tags from k on settle the trace, older tags do not matter. */
  lemma {:induction false} LaterSettles(log: Log, k: nat, q: Query, id: int)
    requires k <= |log|
    ensures !Back(log[k..], q, id).Older? ==> Back(log, q, id) == Back(log[k..], q, id)
    decreases k
  {
    if k == 0 {
      assert log[0..] == log;
    } else {
      assert log[k - 1..][1..] == log[k..];
      LaterSettles(log, k - 1, q, id);
    }
  }

  /** A pending move shifts the id once before the walk begins. */
  lemma MoveTrace(log: Log, q: Query, move: Option<nat>, gid: nat)
    requires Sensible(q)
    ensures Back(WithMove(log, q, move), q, gid)
         == Back(log, q, StartId(q, move, gid))
  {
    if q.byId && move.Some? {
      BackSnoc(log, Tag(DELETE, move.value, 0, []), q, gid);
    }
  }
}
