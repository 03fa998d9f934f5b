/**
 * Runs of the mmconfig store: updates, updates cut by power loss, restarts. Whatever happens, the records found are
 * those of the last completed update or of the one that was in progress (mmconfig/mmconfig.c:810-889, 903-1015).
 */
module ConfigRuns {
  import opened Basics
  import opened ConfigFormat
  import opened ConfigUpdate
  import opened ConfigCrash

  const LAST_VERSION: Word := 0xffff_ffff

  datatype Choice = First | Second | Neither

  /** What mmconfig_init takes for the primary partition. */
  function Boot(first: Image, second: Image): (r: Choice)
    requires HEADER <= |first| && HEADER <= |second|
  {
    if Judge(first) == Ok then
      if Judge(second) == Ok && Version(second) > Version(first) then Second else First
    else if Judge(second) == Ok then Second
    else Neither
  }

  /** Both partitions, and which of them the pointers call primary. */
  datatype State = State(first: Image, second: Image, primaryFirst: bool) {
    function Primary(): (r: Image) { if primaryFirst then first else second }

    function Secondary(): (r: Image) { if primaryFirst then second else first }

    function WithSecondary(image: Image): (r: State) {
      if primaryFirst then this.(second := image) else this.(first := image)
    }

    function Swapped(): (r: State) { this.(primaryFirst := !primaryFirst) }
  }

  /** The header alone: no records, version 0. */
  function EmptyImage(size: nat): (r: Image)
    requires HEADER < size
  {
    EmptyStream();
    Padded(Stream(0, []), size)
  }

  lemma EmptyStream()
    ensures |Stream(0, [])| == HEADER + 1
  {
    StreamParts(0, []);
  }

  lemma EmptyIsValid(size: nat)
    requires HEADER < size
    ensures |Stream(0, [])| <= size && IsValid(EmptyImage(size))
    ensures Contents(EmptyImage(size)) == [] && Version(EmptyImage(size)) == 0
  {
    EmptyStream();
    ImageRoundTrip(0, [], size);
  }

  datatype Geometry = Geometry(size: nat, block: nat)

  /** Two partitions of whole flash blocks. */
  ghost predicate Possible(g: Geometry) {
    4 <= g.block && HEADER < g.size && g.size % g.block == 0
  }

  /** The primary partition is valid and no valid partition is newer; what is in there fits the format. */
  ghost predicate Inv(s: State, g: Geometry) {
    && |s.first| == g.size && |s.second| == g.size && HEADER < g.size
    && IsValid(s.Primary())
    && AllStorable(Contents(s.Primary())) && AllSized(Contents(s.Primary()))
    && (IsValid(s.Secondary()) ==> Superseded(s.Secondary(), s.Primary()))
  }

  ghost predicate Superseded(old_: Image, image: Image)
    requires IsValid(old_) && IsValid(image)
  {
    Version(old_) < Version(image) || (Version(old_) == Version(image) && Contents(old_) == Contents(image))
  }

  function Holding(s: State): (r: seq<Record>)
    requires IsValid(s.Primary())
  {
    Contents(s.Primary())
  }

  /** Erasing both partitions when neither is valid is the last resort of mmconfig_init. */
  function Restarted(s: State): (r: State)
    requires HEADER < |s.first| && HEADER < |s.second|
  {
    match Boot(s.first, s.second)
    case First => s.(primaryFirst := true)
    case Second => s.(primaryFirst := false)
    case Neither => State(EmptyImage(|s.first|), EmptyImage(|s.second|), true)
  }

  predicate Accepts(rs: seq<Record>, nodes: seq<Node>, size: nat) {
    AllKeysValid(nodes) && SpaceRequired(rs, nodes) <= size
  }

  function NextVersion(v: Word): (r: Word) {
    (v + 1) % 0x1_0000_0000
  }

  function NewStream(s: State, nodes: seq<Node>): (r: seq<Byte>)
    requires IsValid(s.Primary())
  {
    Stream(NextVersion(Version(s.Primary())), Updated(Holding(s), nodes))
  }

  datatype Step =
    | Update(nodes: seq<Node>)
    | UpdateCut(nodes: seq<Node>, op: nat, bytes: nat)
    | Restart

  /** What an update that the store accepts needs: data that fits the length field, and room for the terminator. */
  ghost predicate UpdateOk(s: State, nodes: seq<Node>, g: Geometry)
    requires IsValid(s.Primary())
  {
    Accepts(Holding(s), nodes, g.size) ==> StorableNodes(nodes) && SpaceRequired(Holding(s), nodes) != g.size
  }

  /** The update puts a new image in charge. */
  ghost predicate Swaps(s: State, nodes: seq<Node>, g: Geometry)
    requires IsValid(s.Primary())
  {
    Accepts(Holding(s), nodes, g.size) && AllSized(Added(nodes))
  }

  /** What power loss in an update needs besides: that the checksum tells a torn image from the complete one. */
  ghost predicate CutOk(s: State, nodes: seq<Node>, g: Geometry)
    requires IsValid(s.Primary()) && UpdateOk(s, nodes, g)
  {
    Accepts(Holding(s), nodes, g.size) ==>
      (StreamFits(s, nodes, g);
       ChecksumTells(NextVersion(Version(s.Primary())), Updated(Holding(s), nodes), g.size))
  }

  lemma StreamFits(s: State, nodes: seq<Node>, g: Geometry)
    requires IsValid(s.Primary()) && UpdateOk(s, nodes, g) && Accepts(Holding(s), nodes, g.size)
    ensures |NewStream(s, nodes)| <= g.size
  {
    hide Stream, Updated, SpaceRequired;
    RoomForStream(NextVersion(Version(s.Primary())), Holding(s), nodes, g.size);
  }

  ghost predicate StepOk(s: State, step: Step, g: Geometry)
    requires IsValid(s.Primary())
  {
    match step
    case Restart => true
    case Update(nodes) => UpdateOk(s, nodes, g) && (Swaps(s, nodes, g) ==> Version(s.Primary()) != LAST_VERSION)
    case UpdateCut(nodes, op, bytes) => UpdateOk(s, nodes, g) && CutOk(s, nodes, g)
  }

  /**
   * mmconfig_update_secondary_image: the operations all done, the result validated, the pointers swapped if it passed.
   */
  function AfterUpdate(s: State, nodes: seq<Node>, g: Geometry): (r: State)
    requires IsValid(s.Primary()) && HEADER < |s.Secondary()| == g.size && 0 < g.block
    requires FitAll(UpdateOps(g.size, g.block, NewStream(s, nodes)), g.size)
  {
    var written := s.WithSecondary(DoAll(s.Secondary(), UpdateOps(g.size, g.block, NewStream(s, nodes))));
    if Judge(written.Secondary()) == Ok then written.Swapped() else written
  }

  ghost function After(s: State, step: Step, g: Geometry): (r: State)
    requires Inv(s, g) && Possible(g) && (!step.Restart? ==> UpdateOk(s, step.nodes, g))
  {
    if step.Restart? then Restarted(s)
    else if !Accepts(Holding(s), step.nodes, g.size) then if step.UpdateCut? then Restarted(s) else s
    else
      StreamFits(s, step.nodes, g);
      UpdateOpsDone(s.Secondary(), g.block, NewStream(s, step.nodes));
      var ops := UpdateOps(g.size, g.block, NewStream(s, step.nodes));
      if step.UpdateCut? then
        CrashSize(s.Secondary(), ops, step.op, step.bytes);
        Restarted(s.WithSecondary(CrashImage(s.Secondary(), ops, step.op, step.bytes)))
      else AfterUpdate(s, step.nodes, g)
  }

  /** What a step may do to the records: all or nothing. */
  ghost predicate Explains(before: seq<Record>, step: Step, after: seq<Record>, g: Geometry) {
    match step
    case Restart => after == before
    case Update(nodes) =>
      after == if Accepts(before, nodes, g.size) && AllSized(Added(nodes)) then Updated(before, nodes) else before
    case UpdateCut(nodes, op, bytes) =>
      after == before || (Accepts(before, nodes, g.size) && after == Updated(before, nodes))
  }

  /** The first start, on flash that holds nothing valid. */
  lemma FirstStart(s: State, g: Geometry)
    requires |s.first| == |s.second| == g.size && HEADER < g.size && Boot(s.first, s.second) == Neither
    ensures Inv(Restarted(s), g) && Holding(Restarted(s)) == []
  {
    hide Judge, Contents, Version, EmptyImage;
    EmptyIsValid(g.size);
    EmptySize(g.size);
  }

  lemma EmptySize(size: nat)
    requires HEADER < size
    ensures |EmptyImage(size)| == size
  {
    EmptyStream();
  }

  // ----- One step -----

  /** A restart finds the primary partition again, or one with the same records. */
  lemma RestartKeeps(s: State, g: Geometry)
    requires Inv(s, g)
    ensures Inv(Restarted(s), g) && Holding(Restarted(s)) == Holding(s)
    ensures Explains(Holding(s), Restart, Holding(Restarted(s)), g)
  {
    hide Judge, Contents, Version, AllStorable, AllSized;
  }

  /** The new image, complete, in the secondary partition. */
  lemma WrittenImage(s: State, nodes: seq<Node>, g: Geometry)
    requires Inv(s, g) && Accepts(Holding(s), nodes, g.size) && StorableNodes(nodes)
    requires |NewStream(s, nodes)| <= g.size
    ensures var rs, image := Updated(Holding(s), nodes), Padded(NewStream(s, nodes), g.size);
            && |image| == g.size && AllStorable(rs)
            && (IsValid(image) <==> AllSized(Added(nodes)))
            && Judge(image) != ReadsOutside
            && (IsValid(image) ==> Contents(image) == rs && AllSized(rs)
                                   && Version(image) == NextVersion(Version(s.Primary())))
  {
    hide Judge, Contents, Version, AllStorable, AllSized, SpaceRequired, Updated, Stream, Padded;
    var rs := Updated(Holding(s), nodes);
    var version := NextVersion(Version(s.Primary()));
    UpdatedFits(Holding(s), nodes);
    ImageRoundTrip(version, rs, g.size);
    PaddedParts(Stream(version, rs), g.size);
  }

  /** A valid new image supersedes the primary, so the partitions change roles and the invariant holds again. */
  lemma SwapKeeps(s: State, image: Image, g: Geometry)
    requires Inv(s, g) && |image| == g.size && IsValid(image) && Version(image) > Version(s.Primary())
    requires AllStorable(Contents(image)) && AllSized(Contents(image))
    ensures var t := s.WithSecondary(image).Swapped();
            Inv(t, g) && Holding(t) == Contents(image) && Inv(Restarted(t), g)
            && Restarted(s.WithSecondary(image)) == t
  {
    hide Judge, Contents, Version, AllStorable, AllSized;
  }

  /** After the last version comes 0: the new image is in charge until a restart, which finds the old one newer. */
  lemma SwapWraps(s: State, image: Image, g: Geometry)
    requires Inv(s, g) && |image| == g.size && IsValid(image) && Version(image) < Version(s.Primary())
    ensures var t := s.WithSecondary(image).Swapped();
            !Inv(t, g) && IsValid(t.Primary()) && Holding(t) == Contents(image)
            && IsValid(Restarted(t).Primary()) && Holding(Restarted(t)) == Holding(s)
  {
    hide Judge, Contents, Version, AllStorable, AllSized;
  }

  /** An invalid, unchanged or older secondary partition changes nothing. */
  lemma OtherKeeps(s: State, image: Image, g: Geometry)
    requires Inv(s, g) && |image| == g.size
    requires !IsValid(image) || image == s.Secondary() || Version(image) < Version(s.Primary())
    ensures var t := s.WithSecondary(image);
            Inv(t, g) && Holding(t) == Holding(s)
  {
    hide Judge, Contents, Version, AllStorable, AllSized;
  }

  /**
   * An update that is not disturbed: exactly the new records, the roles of the partitions swapped, unless some data has
   * a length that reads as blank flash; then the old records stay. This needs no assumption on the checksum. The new
   * image is the newest one exactly if there was a version left to count to.
   */
  lemma UpdateSafe(s: State, nodes: seq<Node>, g: Geometry)
    requires Inv(s, g) && Possible(g) && UpdateOk(s, nodes, g)
    ensures var t := After(s, Update(nodes), g);
            && IsValid(t.Primary())
            && Explains(Holding(s), Update(nodes), Holding(t), g)
            && t.primaryFirst == (s.primaryFirst != Swaps(s, nodes, g))
            && (Inv(t, g) <==> (Swaps(s, nodes, g) ==> Version(s.Primary()) != LAST_VERSION))
  {
    hide Inv, Judge, Contents, Version, AllStorable, AllSized, SpaceRequired, Updated, Padded, UpdateOps, DoAll;
    InvSizes(s, g);
    if Accepts(Holding(s), nodes, g.size) {
      StreamFits(s, nodes, g);
      WrittenImage(s, nodes, g);
      UpdateOpsDone(s.Secondary(), g.block, NewStream(s, nodes));
      var image := Padded(NewStream(s, nodes), g.size);
      if AllSized(Added(nodes)) {
        if Version(s.Primary()) == LAST_VERSION {
          SwapWraps(s, image, g);
        } else {
          SwapKeeps(s, image, g);
        }
      } else {
        OtherKeeps(s, image, g);
      }
    }
  }

  lemma InvSizes(s: State, g: Geometry)
    requires Inv(s, g)
    ensures |s.Secondary()| == |s.first| == |s.second| == g.size && HEADER < g.size && IsValid(s.Primary())
  {
  }

  /**
   * Power loss during an update, then a restart: the old records or the new ones; once every flash operation was done,
   * the new ones, or the old ones if the version wrapped.
   */
  lemma CutSafe(s: State, nodes: seq<Node>, op: nat, bytes: nat, g: Geometry)
    requires Inv(s, g) && Possible(g) && UpdateOk(s, nodes, g) && CutOk(s, nodes, g)
    ensures var t := After(s, UpdateCut(nodes, op, bytes), g);
            && Inv(t, g)
            && Explains(Holding(s), UpdateCut(nodes, op, bytes), Holding(t), g)
            && (Swaps(s, nodes, g) && op >= |UpdateOps(g.size, g.block, NewStream(s, nodes))| ==>
                  Holding(t) == if Version(s.Primary()) == LAST_VERSION then Holding(s) else Updated(Holding(s), nodes))
  {
    hide Inv, Judge, Contents, Version, AllStorable, AllSized, SpaceRequired, Updated, ChecksumTells, Padded, UpdateOps,
      DoAll, CrashImage, Restarted;
    InvSizes(s, g);
    if Accepts(Holding(s), nodes, g.size) {
      StreamFits(s, nodes, g);
      WrittenImage(s, nodes, g);
      var rs, stream := Updated(Holding(s), nodes), NewStream(s, nodes);
      CutUpdateAccepted(s.Secondary(), g.block, NextVersion(Version(s.Primary())), rs, op, bytes);
      var image := CrashImage(s.Secondary(), UpdateOps(g.size, g.block, stream), op, bytes);
      if image == Padded(stream, g.size) && IsValid(image) && Version(s.Primary()) != LAST_VERSION {
        SwapKeeps(s, image, g);
      } else {
        OtherKeeps(s, image, g);
        RestartKeeps(s.WithSecondary(image), g);
      }
    } else {
      RestartKeeps(s, g);
    }
  }

  lemma StepSafe(s: State, step: Step, g: Geometry)
    requires Inv(s, g) && Possible(g) && StepOk(s, step, g)
    ensures Inv(After(s, step, g), g)
    ensures Explains(Holding(s), step, Holding(After(s, step, g)), g)
  {
    hide Inv, Restarted, Explains, UpdateOk, CutOk;
    InvSizes(s, g);
    match step
    case Update(nodes) => UpdateSafe(s, nodes, g);
    case UpdateCut(nodes, op, bytes) => CutSafe(s, nodes, op, bytes, g);
    case Restart => RestartKeeps(s, g);
  }

  // ----- Whole runs -----

  /** Every step is possible where it happens. */
  ghost predicate RunOk(s: State, steps: seq<Step>, g: Geometry)
    requires Inv(s, g) && Possible(g)
    decreases |steps|
  {
    steps == [] || (StepOk(s, steps[0], g) && (StepSafe(s, steps[0], g); RunOk(After(s, steps[0], g), steps[1..], g)))
  }

  ghost function Run(s: State, steps: seq<Step>, g: Geometry): (r: State)
    requires Inv(s, g) && Possible(g) && RunOk(s, steps, g)
    decreases |steps|
  {
    if steps == [] then s
    else
      StepSafe(s, steps[0], g);
      Run(After(s, steps[0], g), steps[1..], g)
  }

  /** A history of the records, one entry before every step and one at the end, each step all or nothing. */
  ghost predicate History(steps: seq<Step>, history: seq<seq<Record>>, g: Geometry) {
    && |history| == |steps| + 1
    && forall i :: 0 <= i < |steps| ==> Explains(history[i], steps[i], history[i + 1], g)
  }

  /**
   * Any run, with power loss anywhere in any update: the store keeps its invariant, and its records have a history in
   * which every update took effect as a whole or not at all.
   */
  lemma {:induction false} RunSafe(s: State, steps: seq<Step>, g: Geometry) returns (history: seq<seq<Record>>)
    requires Inv(s, g) && Possible(g) && RunOk(s, steps, g)
    ensures Inv(Run(s, steps, g), g)
    ensures History(steps, history, g)
    ensures history[0] == Holding(s) && history[|steps|] == Holding(Run(s, steps, g))
    decreases |steps|
  {
    hide Inv, Possible, After, Explains, Holding, UpdateOk, CutOk, Swaps;
    InvSizes(s, g);
    if steps == [] {
      history := [Holding(s)];
    } else {
      StepSafe(s, steps[0], g);
      var rest := RunSafe(After(s, steps[0], g), steps[1..], g);
      history := [Holding(s)] + rest;
      HistoryCons(steps, Holding(s), rest, g);
    }
  }

  lemma HistoryCons(steps: seq<Step>, first: seq<Record>, rest: seq<seq<Record>>, g: Geometry)
    requires steps != [] && History(steps[1..], rest, g)
    requires Explains(first, steps[0], rest[0], g)
    ensures History(steps, [first] + rest, g)
  {
    hide Explains;
    var history := [first] + rest;
    forall i | 0 <= i < |steps| ensures Explains(history[i], steps[i], history[i + 1], g) {
      if i > 0 {
        assert history[i] == rest[i - 1] && history[i + 1] == rest[i] && steps[i] == steps[1..][i - 1];
      }
    }
  }

  // ----- What does not hold -----

  /**
   * The comment "don't worry about rollover" in mmconfig_init, made exact: of two valid partitions, where the one that
   * was written last carries the next version of the other, a restart finds the last one unless the version wrapped.
   */
  lemma RolloverLosesUpdate(s: State, image: Image)
    requires HEADER <= |s.first| == |s.second| == |image|
    requires IsValid(s.Primary()) && IsValid(image) && Version(image) == NextVersion(Version(s.Primary()))
    ensures var t := s.WithSecondary(image);
            Boot(t.first, t.second) == (if s.primaryFirst then Second else First) <==>
            Version(s.Primary()) != LAST_VERSION
  {
    hide Judge, Version;
  }

  /**
   * 65280 to 65535 bytes under a new key, in an empty store with room for them: the update reports success, and nothing
   * is stored.
   */
  lemma LongDataIsDropped(s: State, data: seq<Byte>, g: Geometry)
    requires Inv(s, g) && Possible(g) && Holding(s) == []
    requires MAX_DATA < |data| <= 0xffff && HEADER + 4 + |data| < g.size
    ensures var nodes := OneNode(data);
            && Accepts(Holding(s), nodes, g.size) && UpdateOk(s, nodes, g)
            && Holding(After(s, Update(nodes), g)) == []
            && Lookup(Updated([], nodes), [0x61]) == Found(data)
  {
    hide Inv, Judge, Contents, Version, Serial;
    var nodes := OneNode(data);
    InvSizes(s, g);
    OneNodeUpdate(data);
    NotSized(data);
    PlainMatches([0x61], [0x61]);
    UpdateSafe(s, nodes, g);
  }

  lemma NotSized(data: seq<Byte>)
    requires MAX_DATA < |data| <= 0xffff
    ensures StorableNodes(OneNode(data)) && !AllSized([Record([0x61], data)])
  {
    assert OneNode(data)[1..] == [];
  }

  /**
   * mmconfig_eraseall erases the primary partition first. Power loss before it gets to the secondary one brings back
   * the records of the generation before, if that partition was valid; otherwise the restart erases everything.
   */
  lemma EraseAllNotAtomic(s: State, g: Geometry, erased: nat)
    requires Inv(s, g) && 4 <= erased <= g.size
    ensures var image := Blank(erased) + s.Primary()[erased..];
            var t := if s.primaryFirst then s.(first := image) else s.(second := image);
            && |t.first| == g.size && |t.second| == g.size
            && IsValid(Restarted(t).Primary())
            && Holding(Restarted(t)) == if IsValid(s.Secondary()) then Contents(s.Secondary()) else []
  {
    hide Judge, Contents, Version, AllStorable, AllSized;
    var image := Blank(erased) + s.Primary()[erased..];
    ErasureBeheads(s.Primary(), erased);
    BeheadedInvalid(image);
    EmptyIsValid(g.size);
  }
}
