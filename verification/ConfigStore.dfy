/**
 * The mmconfig store itself: partition pointers, the 128-byte staging buffer, and the functions that move records
 * through them (mmconfig/mmconfig.c:468-889, 903-1092).
 */
module ConfigStore {
  import opened Basics
  import Bits
  import opened ConfigFormat
  import opened ConfigUpdate
  import opened ConfigCrash
  import opened ConfigRuns

  datatype Result = Success | DataErased | KeyError | StoreFull

  // ----- Lists, one element at a time -----

  function KeptOf(r: Record, nodes: seq<Node>): (result: seq<Record>) {
    if Covered(nodes, r.key) then [] else [r]
  }

  function DroppedOf(r: Record, nodes: seq<Node>): (result: seq<Record>) {
    if Covered(nodes, r.key) then [r] else []
  }

  lemma KeptUnfold(rs: seq<Record>, nodes: seq<Node>)
    ensures rs == [] ==> Kept(rs, nodes) == [] && Dropped(rs, nodes) == []
    ensures rs != [] ==> Kept(rs, nodes) == KeptOf(rs[0], nodes) + Kept(rs[1..], nodes)
    ensures rs != [] ==> Dropped(rs, nodes) == DroppedOf(rs[0], nodes) + Dropped(rs[1..], nodes)
  {
  }

  lemma {:induction false} KeptSnoc(rs: seq<Record>, r: Record, nodes: seq<Node>)
    ensures Kept(rs + [r], nodes) == Kept(rs, nodes) + KeptOf(r, nodes)
    ensures Dropped(rs + [r], nodes) == Dropped(rs, nodes) + DroppedOf(r, nodes)
    decreases |rs|
  {
    hide Kept, Dropped, KeptOf, DroppedOf;
    KeptUnfold(rs, nodes);
    KeptUnfold(rs + [r], nodes);
    if rs == [] {
      assert (rs + [r])[1..] == [];
      KeptUnfold([], nodes);
    } else {
      assert (rs + [r])[0] == rs[0] && (rs + [r])[1..] == rs[1..] + [r];
      KeptSnoc(rs[1..], r, nodes);
    }
  }

  lemma SerialSnoc(rs: seq<Record>, r: Record)
    ensures SerialAll(rs + [r]) == SerialAll(rs) + Serial(r)
  {
    hide Serial, SerialAll;
    SerialConcat(rs, [r]);
    SerialOne(r);
  }

  function AddedBy(node: Node): (r: seq<Record>) {
    if node.change.Store? then [Record(node.key, node.change.data)] else []
  }

  predicate KeyValid(node: Node) {
    IsPlain(node.key) || IsWildcard(node.key)
  }

  lemma NodesUnfold(nodes: seq<Node>)
    ensures nodes == [] ==> Added(nodes) == [] && AllKeysValid(nodes)
    ensures nodes != [] ==> Added(nodes) == AddedBy(nodes[0]) + Added(nodes[1..])
    ensures nodes != [] ==> (AllKeysValid(nodes) <==> KeyValid(nodes[0]) && AllKeysValid(nodes[1..]))
  {
    hide IsPlain, IsWildcard;
  }

  lemma {:induction false} AddedSnoc(nodes: seq<Node>, node: Node)
    ensures Added(nodes + [node]) == Added(nodes) + AddedBy(node)
    ensures AllKeysValid(nodes + [node]) <==> AllKeysValid(nodes) && KeyValid(node)
    decreases |nodes|
  {
    hide Added, AddedBy, AllKeysValid, KeyValid;
    NodesUnfold(nodes);
    NodesUnfold(nodes + [node]);
    if nodes == [] {
      assert (nodes + [node])[1..] == [];
      NodesUnfold([]);
    } else {
      assert (nodes + [node])[0] == nodes[0] && (nodes + [node])[1..] == nodes[1..] + [node];
      AddedSnoc(nodes[1..], node);
    }
  }

  lemma {:induction false} KeysValidPrefix(a: seq<Node>, b: seq<Node>)
    requires AllKeysValid(a + b)
    ensures AllKeysValid(a)
    decreases |a|
  {
    hide AllKeysValid, KeyValid;
    NodesUnfold(a);
    NodesUnfold(a + b);
    if a != [] {
      assert (a + b)[0] == a[0] && (a + b)[1..] == a[1..] + b;
      KeysValidPrefix(a[1..], b);
    }
  }

  /** The four pieces in which a new record is checksummed and pushed. */
  function KeyHeader(key: seq<Byte>): (r: seq<Byte>) { [|key| % 0x100] }

  function DataHeader(data: seq<Byte>): (r: seq<Byte>) { [|data| % 0x100, |data| / 0x100 % 0x100] }

  lemma PiecesOfSerial(r: Record)
    ensures Serial(r) == KeyHeader(r.key) + r.key + DataHeader(r.data) + r.data
  {
  }

  // ----- The store -----

  class Store {
    const g: Geometry
    var first: Image
    var second: Image
    var primaryFirst: bool

    /** mmconfig_staging_buffer, mmconfig_buffer_index, mmconfig_flashing_address (from the start of the partition) */
    const staging: array<Byte>
    var index: nat
    var address: nat

    // The flash operations on the secondary partition, and the bytes pushed since mmconfig_start_flashing.
    ghost var issued: seq<Op>
    ghost var stream: seq<Byte>

    ghost predicate Valid()
      reads this
    {
      && Possible(g) && |first| == g.size && |second| == g.size
      && staging.Length == CHUNK
    }

    function Partitions(): (r: State)
      reads this
    {
      State(first, second, primaryFirst)
    }

    function Primary(): (r: Image)
      reads this
    {
      if primaryFirst then first else second
    }

    function Secondary(): (r: Image)
      reads this
    {
      if primaryFirst then second else first
    }

    /** While an image is being written: full buffers are in flash, the rest waits in the staging buffer. */
    ghost predicate Flashing(base: seq<Op>)
      reads this, staging
    {
      && Valid()
      && index < CHUNK && address % CHUNK == 0 && address + index == |stream| <= g.size
      && staging[..index] == stream[address..]
      && issued == base + Chunks(stream, address)
      && Secondary() == Padded(stream[..address], g.size)
    }

    constructor (g: Geometry, first: Image, second: Image)
      requires Possible(g) && |first| == g.size && |second| == g.size
      ensures Valid() && fresh(staging) && this.g == g && Partitions() == State(first, second, true)
    {
      this.g, this.first, this.second, primaryFirst := g, first, second, true;
      staging := new Byte[CHUNK];
      index, address, issued, stream := 0, 0, [], [];
    }

    /**
     * mmhal_flash_erase and mmhal_flash_write on the secondary partition; flash is only ever written where it is erased
     */
    method Issue(op: Op)
      requires Valid() && Fits(op, g.size)
      requires op.Write? ==> Secondary()[op.off..op.off + |op.data|] == Blank(|op.data|)
      modifies this`first, this`second, this`issued
      ensures Valid() && Primary() == old(Primary())
      ensures Secondary() == Do(old(Secondary()), op) && issued == old(issued) + [op]
    {
      if primaryFirst {
        second := Do(second, op);
      } else {
        first := Do(first, op);
      }
      issued := issued + [op];
    }

    /** mmconfig_erase_partition of the secondary partition */
    method EraseSecondary()
      requires Valid()
      modifies this`first, this`second, this`issued
      ensures Valid() && Primary() == old(Primary())
      ensures Secondary() == Blank(g.size) && issued == old(issued) + Erases(g.size, g.block)
    {
      var at := 0;
      while at < g.size
        invariant 0 <= at <= g.size && at % g.block == 0
        invariant Valid() && Primary() == old(Primary())
        invariant Secondary() == Blank(at) + old(Secondary())[at..]
        invariant issued == old(issued) + Erases(at, g.block)
      {
        WholeBlocks(at);
        FitsErase(at, g.block, g.size);
        Issue(Erase(at, g.block));
        EraseNext(old(Secondary()), at, g.block);
        at := at + g.block;
      }
    }

    lemma WholeBlocks(at: nat)
      requires Possible(g) && at < g.size && at % g.block == 0
      ensures at + g.block <= g.size && (at + g.block) % g.block == 0
      ensures Erases(at + g.block, g.block) == Erases(at, g.block) + [Erase(at, g.block)]
    {
      CommitAligned(at, g.size, g.block);
    }

    /** memcpy into the staging buffer */
    method Stage(bytes: seq<Byte>)
      requires staging.Length == CHUNK && index + |bytes| <= CHUNK
      modifies staging
      ensures staging[..index + |bytes|] == old(staging[..index]) + bytes
    {
      forall i | 0 <= i < |bytes| {
        staging[index + i] := bytes[i];
      }
      assert staging[..index] == old(staging[..index]);
      assert staging[index..index + |bytes|] == bytes;
      assert staging[..index + |bytes|] == staging[..index] + staging[index..index + |bytes|];
    }

    /** The staging buffer is filled up and goes to flash. */
    method FlushFull(piece: seq<Byte>, ghost base: seq<Op>)
      requires Flashing(base) && |piece| == CHUNK - index && |stream| + |piece| <= g.size
      modifies this`first, this`second, this`issued, this`index, this`address, this`stream, staging
      ensures Flashing(base) && stream == old(stream) + piece && index == 0 && Primary() == old(Primary())
    {
      hide Do, Chunks, Padded, Blank, Fits, Possible;
      NextAligned(address);
      Stage(piece);
      ChunkFilled(stream, piece, address);
      ghost var longer := stream + piece;
      assert staging[..] == staging[..CHUNK];
      BlankAhead(stream[..address], g.size, CHUNK);
      FitsWrite(address, staging[..], g.size);
      Issue(Write(address, staging[..]));
      WriteNext(g.size, longer, address, address + CHUNK);
      address, index, stream := address + CHUNK, 0, longer;
    }

    /**
     * mmconfig_buffered_write. Whatever the sizes of the pieces that are pushed, flash sees the chunks of their
     * concatenation.
     */
    method BufferedWrite(data: seq<Byte>, ghost base: seq<Op>)
      requires Flashing(base) && |stream| + |data| <= g.size
      modifies this`first, this`second, this`issued, this`index, this`address, this`stream, staging
      ensures Valid() && Flashing(base) && stream == old(stream) + data && Primary() == old(Primary())
    {
      hide Chunks, Padded, Blank, Fits, Possible, Do;
      var done := 0;
      assert data[..0] == [];
      while |data| - done >= CHUNK - index
        invariant 0 <= done <= |data|
        invariant Flashing(base) && stream == old(stream) + data[..done] && Primary() == old(Primary())
        decreases |data| - done
      {
        var n := CHUNK - index;
        FlushFull(data[done..done + n], base);
        assert data[..done + n] == data[..done] + data[done..done + n];
        done := done + n;
      }
      assert data == data[..done] + data[done..];
      if |data| > done {
        StageRest(data[done..], base);
      }
    }

    /** The leftover bytes wait in the staging buffer. */
    method StageRest(rest: seq<Byte>, ghost base: seq<Op>)
      requires Flashing(base) && |rest| < CHUNK - index && |stream| + |rest| <= g.size
      modifies this`index, this`stream, staging
      ensures Flashing(base) && stream == old(stream) + rest
    {
      hide Chunks, Padded, Blank, Fits, Possible, Do;
      ChunkKept(stream, rest, address);
      Stage(rest);
      index := index + |rest|;
      stream := stream + rest;
    }

    /** mmconfig_start_flashing, on an erased partition */
    method StartFlashing(version: Word, checksum: bv32)
      requires Valid() && Secondary() == Blank(g.size)
      modifies this`first, this`second, this`issued, this`index, this`address, this`stream, staging
      ensures Valid() && Flashing(old(issued)) && Primary() == old(Primary())
      ensures stream == Le32(SIGNATURE) + Le32(version) + Le32(AsWord(checksum))
    {
      hide Le32, AsWord, Do, Fits;
      forall i | 0 <= i < CHUNK {
        staging[i] := ERASED;
      }
      index, address, stream := 0, 0, [];
      assert Padded([], g.size) == Blank(g.size);
      Le32Length(SIGNATURE);
      Le32Length(version);
      Le32Length(AsWord(checksum));
      var header := Le32(SIGNATURE) + Le32(version) + Le32(AsWord(checksum));
      BufferedWrite(header, old(issued));
      assert [] + header == header;
    }

    /** mmconfig_end_flashing: the rest of the stream, possibly nothing, goes to flash. */
    method EndFlashing(ghost base: seq<Op>)
      requires Flashing(base)
      modifies this`first, this`second, this`issued
      ensures Valid() && Primary() == old(Primary())
      ensures Secondary() == Padded(stream, g.size) && issued == base + Writes(stream)
    {
      hide Do, Fits, Chunks, Padded, Blank;
      BlankAhead(stream[..address], g.size, index);
      FitsWrite(address, staging[..index], g.size);
      Issue(Write(address, staging[..index]));
      WriteNext(g.size, stream, address, |stream|);
      assert stream[..|stream|] == stream && stream[address..|stream|] == stream[address..];
      FullIs(address, |stream|);
      assert base + Chunks(stream, address) + [Write(address, stream[address..])] == base + Writes(stream);
    }

    /** retain_entry_fn: either mmconfig_buffered_write_wrapper or mmconfig_update_checksum */
    method Retain(flashing: bool, checksum: bv32, data: seq<Byte>, ghost base: seq<Op>) returns (updated: bv32)
      requires Valid() && (flashing ==> Flashing(base) && |stream| + |data| <= g.size)
      modifies this`first, this`second, this`issued, this`index, this`address, this`stream, staging
      ensures Valid() && Primary() == old(Primary())
      ensures flashing ==> updated == checksum && Flashing(base) && stream == old(stream) + data
      ensures !flashing ==> updated == Fold(checksum, data)
      ensures !flashing ==> Partitions() == old(Partitions()) && issued == old(issued)
    {
      hide Flashing;
      if flashing {
        BufferedWrite(data, base);
        updated := checksum;
      } else {
        updated := UpdateChecksum(checksum, data);
      }
    }

    /** The inner loop of mmconfig_process_existing_storage. */
    method Covers(nodes: seq<Node>, key: seq<Byte>) returns (found: bool)
      ensures found <==> Covered(nodes, key)
    {
      hide Matches;
      var i := 0;
      while i < |nodes|
        invariant 0 <= i <= |nodes|
        invariant Covered(nodes, key) <==> Covered(nodes[i..], key)
      {
        var hit := KeyMatch(nodes[i].key, key);
        if hit {
          return true;
        }
        assert nodes[i..][1..] == nodes[i + 1..];
        i := i + 1;
      }
      found := false;
    }

    /**
     * mmconfig_process_existing_storage. The records that no node covers are checksummed or, when flashing, pushed as
     * they lie in flash; the size of the others is added up.
     */
    method ProcessExisting(nodes: seq<Node>, flashing: bool, ghost base: seq<Op>)
      returns (end: nat, checksum: bv32, skipped: nat)
      requires Valid() && IsValid(Primary())
      requires flashing ==> Flashing(base) && |stream| + |SerialAll(Kept(Contents(Primary()), nodes))| <= g.size
      modifies this`first, this`second, this`issued, this`index, this`address, this`stream, staging
      ensures Valid() && Primary() == old(Primary())
      ensures end == HEADER + |SerialAll(Contents(Primary()))|
      ensures skipped == |SerialAll(Dropped(Contents(Primary()), nodes))|
      ensures !flashing ==> checksum == Fold(SEED, SerialAll(Kept(Contents(Primary()), nodes)))
      ensures !flashing ==> Partitions() == old(Partitions()) && issued == old(issued)
      ensures flashing ==> Flashing(base) && stream == old(stream) + SerialAll(Kept(Contents(Primary()), nodes))
    {
      hide Judge, Contents, Flashing, Parse, Fold, Covered, Kept, Dropped, SerialAll, Serial, DataLen;
      var image := Primary();
      ghost var rs := Contents(image);
      var off := HEADER;
      checksum, skipped := SEED, 0;
      ghost var done: seq<Record> := [];
      BeginWalk(image, nodes);
      assert old(stream) + [] == old(stream);
      while off < |image| && !EndOfList(image[off])
        invariant HEADER <= off <= |image| && off == HEADER + |SerialAll(done)|
        invariant Parse(image, off).Records? && done + Parse(image, off).rs == rs
        invariant Valid() && Primary() == image && skipped == |SerialAll(Dropped(done, nodes))|
        invariant !flashing ==> checksum == Fold(SEED, SerialAll(Kept(done, nodes)))
        invariant !flashing ==> Partitions() == old(Partitions()) && issued == old(issued)
        invariant flashing ==> Flashing(base) && stream == old(stream) + SerialAll(Kept(done, nodes))
        decreases |image| - off
      {
        ghost var rest := Parse(image, off).rs;
        WalkContinues(image, off);
        ParsedIsSerial(image, off);
        ghost var r := rest[0];
        var keyEnd := off + 1 + image[off] as nat;
        var next := keyEnd + 2 + DataLen(image, keyEnd);
        WalkStep(done, rest, nodes);
        var covered := Covers(nodes, image[off + 1..keyEnd]);
        if covered {
          skipped := skipped + 1 + image[off] as nat + 2 + DataLen(image, keyEnd);
        } else {
          checksum := Retain(flashing, checksum, image[off..next], base);
          FoldConcat(SEED, SerialAll(Kept(done, nodes)), Serial(r));
          assert old(stream) + SerialAll(Kept(done, nodes)) + Serial(r) ==
                 old(stream) + (SerialAll(Kept(done, nodes)) + Serial(r));
        }
        done := done + [r];
        off := next;
      }
      end := off;
      WalkEnds(image, off);
      assert done + [] == done;
    }

    /** mmconfig_compute_new_checksum: the checksum of records that are not written yet, and whether there is room. */
    method ComputeNewChecksum(nodes: seq<Node>) returns (result: Result, checksum: bv32, used: int, remaining: int)
      requires Valid() && IsValid(Primary())
      modifies this`first, this`second, this`issued, this`index, this`address, this`stream, staging
      ensures Valid() && Partitions() == old(Partitions()) && issued == old(issued)
      ensures result == if !AllKeysValid(nodes) then KeyError
                        else if g.size < SpaceRequired(Contents(Primary()), nodes) then StoreFull else Success
      ensures result != KeyError ==>
                used == SpaceRequired(Contents(Primary()), nodes) && remaining == g.size - used
      ensures result != KeyError ==> checksum == Fold(SEED, SerialAll(Updated(Contents(Primary()), nodes)))
    {
      hide Judge, Contents, Fold, Kept, Dropped, Added, AllKeysValid, SerialAll, Serial, IsPlain, IsWildcard,
        RequiredSpace;
      ghost var rs := Contents(Primary());
      ghost var kept := Kept(rs, nodes);
      var end, skipped;
      end, checksum, skipped := ProcessExisting(nodes, false, []);
      used, remaining := 0, 0;
      var required := 0;
      var i := 0;
      NodesUnfold(nodes[..0]);
      RequiredUnfold(nodes[..0]);
      assert kept + [] == kept;
      SerialNone();
      while i < |nodes|
        invariant 0 <= i <= |nodes|
        invariant AllKeysValid(nodes[..i])
        invariant Valid() && Partitions() == old(Partitions()) && issued == old(issued)
        invariant required == RequiredSpace(nodes[..i])
        invariant checksum == Fold(SEED, SerialAll(kept + Added(nodes[..i])))
      {
        var node := nodes[i];
        assert nodes[..i + 1] == nodes[..i] + [node];
        assert nodes == nodes[..i + 1] + nodes[i + 1..];
        AddedSnoc(nodes[..i], node);
        RequiredSnoc(nodes[..i], node);
        var verdict := ValidateKey(node.key);
        if verdict == InvalidKey {
          if AllKeysValid(nodes) {
            KeysValidPrefix(nodes[..i + 1], nodes[i + 1..]);
            assert false;
          }
          return KeyError, checksum, used, remaining;
        }
        if node.change.Store? {
          required := required + 1 + |node.key| % 0x100 + 2 + |node.change.data| % 0x1_0000;
          checksum := ChecksumNode(checksum, Record(node.key, node.change.data));
          ChecksumGrows(kept, Added(nodes[..i]), Record(node.key, node.change.data));
        } else {
          assert Added(nodes[..i]) + [] == Added(nodes[..i]);
        }
        i := i + 1;
      }
      assert nodes[..i] == nodes;
      used := end + (required - skipped);
      remaining := g.size - used;
      result := if g.size < used then StoreFull else Success;
    }

    /** The new record goes into the checksum in four pieces. */
    method ChecksumNode(checksum: bv32, r: Record) returns (updated: bv32)
      ensures updated == Fold(checksum, Serial(r))
    {
      hide Fold, Serial, KeyHeader, DataHeader;
      updated := UpdateChecksum(checksum, KeyHeader(r.key));
      updated := UpdateChecksum(updated, r.key);
      updated := UpdateChecksum(updated, DataHeader(r.data));
      updated := UpdateChecksum(updated, r.data);
      PiecesOfSerial(r);
      FoldConcat(checksum, KeyHeader(r.key), r.key);
      FoldConcat(checksum, KeyHeader(r.key) + r.key, DataHeader(r.data));
      FoldConcat(checksum, KeyHeader(r.key) + r.key + DataHeader(r.data), r.data);
    }

    /** ... and into flash in the same four pieces. */
    method PushNode(r: Record, ghost base: seq<Op>)
      requires Flashing(base) && |stream| + Size(r) <= g.size
      modifies this`first, this`second, this`issued, this`index, this`address, this`stream, staging
      ensures Valid() && Flashing(base) && stream == old(stream) + Serial(r) && Primary() == old(Primary())
    {
      hide Flashing, Serial;
      PiecesOfSerial(r);
      BufferedWrite(KeyHeader(r.key), base);
      BufferedWrite(r.key, base);
      BufferedWrite(DataHeader(r.data), base);
      BufferedWrite(r.data, base);
      FourPieces(old(stream), KeyHeader(r.key), r.key, DataHeader(r.data), r.data);
    }

    /** mmconfig_update_secondary_image */
    method UpdateSecondaryImage(nodes: seq<Node>) returns (result: Result)
      requires Valid() && IsValid(Primary())
      requires Accepts(Contents(Primary()), nodes, g.size) ==> |NewStream(Partitions(), nodes)| <= g.size
      modifies this, staging
      ensures Valid()
      ensures result == if !AllKeysValid(nodes) then KeyError
                        else if !Accepts(old(Contents(Primary())), nodes, g.size) then StoreFull else Success
      ensures result != Success ==> Partitions() == old(Partitions()) && issued == old(issued)
      ensures result == Success ==>
                var ops := UpdateOps(g.size, g.block, NewStream(old(Partitions()), nodes));
                && FitAll(ops, g.size)
                && issued == old(issued) + ops
                && Partitions() == AfterUpdate(old(Partitions()), nodes, g)
    {
      hide Judge, Contents, Version, Fold, AsWord, Flashing, Kept, Added, Dropped, SerialAll, Serial, Stream, Padded,
        UpdateOps, DoAll, AllKeysValid, SpaceRequired;
      ghost var was := Partitions();
      var checksum, used, remaining;
      result, checksum, used, remaining := ComputeNewChecksum(nodes);
      if result != Success {
        return;
      }
      WholeUpdate(was, nodes, g);
      WriteSecondary(nodes, checksum);
      var verdict := ValidatePartition(Secondary());
      if verdict == Ok {
        primaryFirst := !primaryFirst;
      }
    }

    /** The erasing and writing part of mmconfig_update_secondary_image. */
    method WriteSecondary(nodes: seq<Node>, checksum: bv32)
      requires Valid() && IsValid(Primary())
      requires checksum == Fold(SEED, SerialAll(Updated(Contents(Primary()), nodes)))
      requires |NewStream(Partitions(), nodes)| <= g.size
      modifies this`first, this`second, this`issued, this`index, this`address, this`stream, staging
      ensures Valid() && Primary() == old(Primary())
      ensures Secondary() == Padded(NewStream(old(Partitions()), nodes), g.size)
      ensures issued == old(issued) + UpdateOps(g.size, g.block, NewStream(old(Partitions()), nodes))
    {
      hide Judge, Contents, Version, Fold, AsWord, Flashing, Kept, Added, Dropped, SerialAll, Serial, Stream, Padded,
        UpdateOps, DoAll, AllKeysValid, Erases, Writes, Le32, Updated;
      ghost var was := Partitions();
      ghost var target := NewStream(was, nodes);
      ExpectedStream(was, nodes, g);
      EraseSecondary();
      ghost var base := issued;
      StartFlashing(NextVersion(Version(Primary())), checksum);
      var end, rechecksum, skipped := ProcessExisting(nodes, true, base);
      PushNodes(nodes, base);
      BufferedWrite([ERASED], base);
      assert stream == target;
      EndFlashing(base);
      OpsOf(g, target);
      assert old(issued) + Erases(g.size, g.block) + Writes(target) ==
             old(issued) + (Erases(g.size, g.block) + Writes(target));
    }

    /** The loop of mmconfig_update_secondary_image that adds the new records. */
    method PushNodes(nodes: seq<Node>, ghost base: seq<Op>)
      requires Flashing(base) && |stream| + |SerialAll(Added(nodes))| <= g.size
      modifies this`first, this`second, this`issued, this`index, this`address, this`stream, staging
      ensures Valid() && Flashing(base) && Primary() == old(Primary())
      ensures stream == old(stream) + SerialAll(Added(nodes))
    {
      hide Flashing, Added, SerialAll, Serial, AllKeysValid;
      var i := 0;
      NodesUnfold(nodes[..0]);
      SerialNone();
      assert old(stream) + [] == old(stream);
      assert Valid() by { FlashingValid(base); }
      while i < |nodes|
        invariant 0 <= i <= |nodes|
        invariant Valid() && Flashing(base) && Primary() == old(Primary())
        invariant stream == old(stream) + SerialAll(Added(nodes[..i]))
      {
        var node := nodes[i];
        assert nodes[..i + 1] == nodes[..i] + [node];
        AddedSnoc(nodes[..i], node);
        if node.change.Store? {
          var r := Record(node.key, node.change.data);
          SerialSnoc(Added(nodes[..i]), r);
          assert nodes == nodes[..i + 1] + nodes[i + 1..];
          AddedGrows(nodes[..i + 1], nodes[i + 1..]);
          PushNode(r, base);
          assert old(stream) + SerialAll(Added(nodes[..i])) + Serial(r) ==
                 old(stream) + (SerialAll(Added(nodes[..i])) + Serial(r));
        } else {
          assert Added(nodes[..i]) + [] == Added(nodes[..i]);
        }
        i := i + 1;
      }
      assert nodes[..i] == nodes;
    }

    /** mmconfig_eraseall: both partitions erased, then both headers written. */
    method EraseAll()
      requires Valid()
      modifies this`first, this`second
      ensures Valid() && Partitions() == State(EmptyImage(g.size), EmptyImage(g.size), old(primaryFirst))
    {
      hide Padded, EmptyImage, Blank;
      var header := Le32(SIGNATURE) + Le32(0) + Le32(AsWord(SEED));
      EmptyHeader(g.size);
      BlankLength(g.size);
      if primaryFirst {
        first := Blank(g.size);
        second := Blank(g.size);
      } else {
        second := Blank(g.size);
        first := Blank(g.size);
      }
      first := Do(first, Write(0, header));
      second := Do(second, Write(0, header));
    }

    /** mmconfig_init on the first call */
    method Init() returns (result: Result)
      requires Valid()
      modifies this`first, this`second, this`primaryFirst
      ensures Valid() && Partitions() == Restarted(old(Partitions()))
      ensures result == DataErased <==> old(Boot(first, second)) == Neither
      ensures result != DataErased ==> result == Success && first == old(first) && second == old(second)
    {
      hide Judge, Version, EmptyImage;
      result := Success;
      primaryFirst := true;
      var verdict := ValidatePartition(first);
      if verdict == Ok {
        verdict := ValidatePartition(second);
        if verdict == Ok {
          if Version(second) > Version(first) {
            primaryFirst := false;
          }
        }
      } else {
        verdict := ValidatePartition(second);
        if verdict == Ok {
          primaryFirst := false;
        } else {
          EraseAll();
          result := DataErased;
        }
      }
    }

    /** mmconfig_read_data, without the literal fallback table */
    method ReadData(key: seq<Byte>) returns (valid: bool, found: Found)
      requires Valid() && IsValid(Primary())
      ensures valid <==> IsPlain(key)
      ensures found == if valid then Lookup(Contents(Primary()), key) else NotFound
    {
      hide Judge, Contents, Parse, Matches, Serial, DataLen, IsPlain, Lookup, Version;
      var verdict := ValidateKey(key);
      if verdict != PlainKey {
        return false, NotFound;
      }
      valid := true;
      var image, off := Primary(), HEADER;
      BeginWalk(image, []);
      while off < |image| && !EndOfList(image[off])
        invariant HEADER <= off <= |image| && Parse(image, off).Records?
        invariant Lookup(Parse(image, off).rs, key) == Lookup(Contents(image), key)
        decreases |image| - off
      {
        WalkContinues(image, off);
        ParsedIsSerial(image, off);
        FirstFound(Parse(image, off).rs, key);
        var keyEnd := off + 1 + image[off] as nat;
        var next := keyEnd + 2 + DataLen(image, keyEnd);
        var hit := KeyMatch(key, image[off + 1..keyEnd]);
        if hit {
          return true, Found(image[keyEnd + 2..next]);
        }
        off := next;
      }
      WalkEnds(image, off);
      NothingFound(key);
      found := NotFound;
    }

    lemma FlashingValid(base: seq<Op>)
      requires Flashing(base)
      ensures Valid()
    {
    }
  }

  lemma FirstFound(rs: seq<Record>, key: seq<Byte>)
    ensures rs != [] ==> Lookup(rs, key) == if Matches(key, rs[0].key) then Found(rs[0].data) else Lookup(rs[1..], key)
  {
    hide Matches;
  }

  lemma NothingFound(key: seq<Byte>)
    ensures Lookup([], key) == NotFound
  {
  }

  lemma FourPieces(stream: seq<Byte>, a: seq<Byte>, b: seq<Byte>, c: seq<Byte>, d: seq<Byte>)
    ensures stream + a + b + c + d == stream + (a + b + c + d)
  {
  }

  lemma RequiredUnfold(nodes: seq<Node>)
    ensures nodes == [] ==> RequiredSpace(nodes) == 0
    ensures nodes != [] ==> RequiredSpace(nodes) == Counted(nodes[0]) + RequiredSpace(nodes[1..])
  {
  }

  lemma {:induction false} RequiredSnoc(nodes: seq<Node>, node: Node)
    ensures RequiredSpace(nodes + [node]) == RequiredSpace(nodes) + Counted(node)
    decreases |nodes|
  {
    hide RequiredSpace, Counted;
    RequiredUnfold(nodes);
    RequiredUnfold(nodes + [node]);
    if nodes == [] {
      assert (nodes + [node])[1..] == [];
      RequiredUnfold([]);
    } else {
      assert (nodes + [node])[0] == nodes[0] && (nodes + [node])[1..] == nodes[1..] + [node];
      RequiredSnoc(nodes[1..], node);
    }
  }

  lemma ChecksumGrows(kept: seq<Record>, added: seq<Record>, r: Record)
    ensures Fold(SEED, SerialAll(kept + (added + [r]))) == Fold(Fold(SEED, SerialAll(kept + added)), Serial(r))
  {
    hide Fold, Serial, SerialAll;
    assert kept + (added + [r]) == kept + added + [r];
    SerialSnoc(kept + added, r);
    FoldConcat(SEED, SerialAll(kept + added), Serial(r));
  }

  lemma {:induction false} AddedGrows(a: seq<Node>, b: seq<Node>)
    ensures |SerialAll(Added(a))| <= |SerialAll(Added(a + b))|
    decreases |b|
  {
    hide Added, AddedBy, SerialAll, Serial;
    if b == [] {
      assert a + b == a;
    } else {
      AddedSnoc(a, b[0]);
      SerialConcat(Added(a), AddedBy(b[0]));
      assert a + b == a + [b[0]] + b[1..];
      AddedGrows(a + [b[0]], b[1..]);
    }
  }

  lemma OpsOf(g: Geometry, s: seq<Byte>)
    requires 0 < g.block
    ensures UpdateOps(g.size, g.block, s) == Erases(g.size, g.block) + Writes(s)
  {
  }

  /** What the pieces pushed one after the other add up to. */
  lemma ExpectedStream(s: State, nodes: seq<Node>, g: Geometry)
    requires IsValid(s.Primary())
    ensures var version, rs := NextVersion(Version(s.Primary())), Holding(s);
            var header := Le32(SIGNATURE) + Le32(version) + Le32(AsWord(Fold(SEED, SerialAll(Updated(rs, nodes)))));
            && NewStream(s, nodes) == header + SerialAll(Kept(rs, nodes)) + SerialAll(Added(nodes)) + [ERASED]
            && |header| == HEADER
            && |SerialAll(Updated(rs, nodes))| == |SerialAll(Kept(rs, nodes))| + |SerialAll(Added(nodes))|
  {
    hide Judge, Contents, Version, Le32, Fold, AsWord, Kept, Added, SerialAll;
    var rs := Holding(s);
    SerialConcat(Kept(rs, nodes), Added(nodes));
    Le32Length(SIGNATURE);
    Le32Length(NextVersion(Version(s.Primary())));
    Le32Length(Checksum(SerialAll(Updated(rs, nodes))));
  }

  lemma WholeUpdate(s: State, nodes: seq<Node>, g: Geometry)
    requires IsValid(s.Primary()) && |s.Secondary()| == g.size && Possible(g) && |NewStream(s, nodes)| <= g.size
    ensures FitAll(UpdateOps(g.size, g.block, NewStream(s, nodes)), g.size)
    ensures DoAll(s.Secondary(), UpdateOps(g.size, g.block, NewStream(s, nodes))) ==
            Padded(NewStream(s, nodes), g.size)
  {
    hide Judge, Contents, Version, Stream, Padded, UpdateOps, DoAll;
    UpdateOpsDone(s.Secondary(), g.block, NewStream(s, nodes));
  }

  /** The first offset of the walk. */
  lemma BeginWalk(image: Image, nodes: seq<Node>)
    requires IsValid(image)
    ensures Parse(image, HEADER).Records? && Parse(image, HEADER).rs == Contents(image)
    ensures [] + Contents(image) == Contents(image)
    ensures SerialAll([]) == [] && Kept([], nodes) == [] && Dropped([], nodes) == []
    ensures Fold(SEED, []) == SEED
  {
  }

  lemma WalkContinues(image: Image, off: nat)
    requires off < |image| && !EndOfList(image[off]) && Parse(image, off).Records?
    ensures Parse(image, off).rs != []
  {
    ParseStep(image, off);
  }

  lemma WalkEnds(image: Image, off: nat)
    requires off <= |image| && (off == |image| || EndOfList(image[off]))
    ensures Parse(image, off) == Records([], off)
  {
    ParseStep(image, off);
  }

  /** What one record adds to the bytes kept and dropped. */
  lemma WalkStep(done: seq<Record>, rest: seq<Record>, nodes: seq<Node>)
    requires rest != []
    ensures var r := rest[0];
            && done + rest == done + [r] + rest[1..]
            && |SerialAll(done + [r])| == |SerialAll(done)| + Size(r)
            && (if Covered(nodes, r.key) then
                  Kept(done + [r], nodes) == Kept(done, nodes)
                  && |SerialAll(Dropped(done + [r], nodes))| == |SerialAll(Dropped(done, nodes))| + Size(r)
                else
                  Dropped(done + [r], nodes) == Dropped(done, nodes)
                  && SerialAll(Kept(done + [r], nodes)) == SerialAll(Kept(done, nodes)) + Serial(r))
            && |SerialAll(Kept(done + [r], nodes))| <= |SerialAll(Kept(done + rest, nodes))|
  {
    hide SerialAll, Serial, Kept, Dropped, Covered;
    var r := rest[0];
    assert rest == [r] + rest[1..];
    SerialSnoc(done, r);
    KeptSnoc(done, r, nodes);
    SerialSnoc(Kept(done, nodes), r);
    SerialSnoc(Dropped(done, nodes), r);
    KeptGrows(done + [r], rest[1..], nodes);
  }

  lemma {:induction false} KeptGrows(a: seq<Record>, b: seq<Record>, nodes: seq<Node>)
    ensures |SerialAll(Kept(a, nodes))| <= |SerialAll(Kept(a + b, nodes))|
    decreases |b|
  {
    hide SerialAll, Serial, Kept, Covered;
    if b == [] {
      assert a + b == a;
    } else {
      KeptSnoc(a, b[0], nodes);
      SerialSnoc(Kept(a, nodes), b[0]);
      assert Kept(a, nodes) + [] == Kept(a, nodes);
      assert a + b == a + [b[0]] + b[1..];
      KeptGrows(a + [b[0]], b[1..], nodes);
    }
  }

  lemma EmptyHeader(size: nat)
    requires HEADER < size
    ensures var header := Le32(SIGNATURE) + Le32(0) + Le32(AsWord(SEED));
            Fits(Write(0, header), size) && Do(Blank(size), Write(0, header)) == EmptyImage(size)
  {
    hide Le32, AsWord;
    var header := Le32(SIGNATURE) + Le32(0) + Le32(AsWord(SEED));
    Le32Length(SIGNATURE);
    Le32Length(0);
    Le32Length(AsWord(SEED));
    SerialNone();
    FoldNothing(SEED);
    assert Stream(0, []) == header + [ERASED];
    EmptyStream();
    assert Blank(size)[..0] == [] && Blank(size)[HEADER..] == [ERASED] + Blank(size - HEADER - 1);
    assert [] + header + ([ERASED] + Blank(size - HEADER - 1)) == header + [ERASED] + Blank(size - HEADER - 1);
  }

  lemma FullIs(address: nat, n: nat)
    requires address % CHUNK == 0 && address <= n < address + CHUNK
    ensures Full(n) == address
  {
  }

  lemma CommitAligned(at: nat, size: nat, block: nat)
    requires 0 < block && at < size && at % block == 0 && size % block == 0
    ensures at + block <= size && (at + block) % block == 0
  {
    var i, j := at / block, size / block;
    assert at == i * block && size == j * block;
    if j <= i {
      Bits.MulMono(j, i, block);
    } else {
      Bits.MulMono(i + 1, j, block);
    }
    Bits.DivExact(at + block, i + 1, block);
  }

  lemma BlankAhead(written: seq<Byte>, size: nat, n: nat)
    requires |written| + n <= size
    ensures Padded(written, size)[|written|..|written| + n] == Blank(n)
  {
  }

  /** The staging buffer is full: one more chunk of a longer stream. */
  lemma ChunkFilled(stream: seq<Byte>, piece: seq<Byte>, address: nat)
    requires address % CHUNK == 0 && address <= |stream| && |stream| + |piece| == address + CHUNK
    ensures var longer := stream + piece;
            && longer[address..address + CHUNK] == stream[address..] + piece
            && longer[..address] == stream[..address] && longer[address + CHUNK..] == []
            && Chunks(longer, address + CHUNK) ==
               Chunks(stream, address) + [Write(address, longer[address..address + CHUNK])]
  {
    hide Chunks;
    NextAligned(address);
    ChunksAgree(stream, piece, address);
    ChunkStep(stream + piece, address + CHUNK);
  }

  lemma NextAligned(address: nat)
    requires address % CHUNK == 0
    ensures (address + CHUNK) % CHUNK == 0
  {
  }

  /** The staging buffer has room left. */
  lemma ChunkKept(stream: seq<Byte>, piece: seq<Byte>, address: nat)
    requires address % CHUNK == 0 && address <= |stream|
    ensures var longer := stream + piece;
            && longer[address..] == stream[address..] + piece
            && longer[..address] == stream[..address]
            && Chunks(longer, address) == Chunks(stream, address)
  {
    ChunksAgree(stream, piece, address);
  }

  lemma {:induction false} ChunksAgree(stream: seq<Byte>, more: seq<Byte>, upTo: nat)
    requires upTo <= |stream| && upTo % CHUNK == 0
    ensures Chunks(stream + more, upTo) == Chunks(stream, upTo)
    decreases upTo
  {
    hide Chunks;
    ChunkStep(stream, upTo);
    ChunkStep(stream + more, upTo);
    if upTo >= CHUNK {
      ChunksAgree(stream, more, upTo - CHUNK);
      assert (stream + more)[upTo - CHUNK..upTo] == stream[upTo - CHUNK..upTo];
    }
  }
}
