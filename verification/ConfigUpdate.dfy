/**
 * What an update of the mmconfig store means: which keys a node covers, which records an update leaves, what a reader
 * finds afterwards, and what the space check counts (mmconfig/mmconfig.c:303-403, 636-797, 1034-1092).
 */
module ConfigUpdate {
  import opened Basics
  import opened ConfigFormat

  // ----- Keys -----

  const STAR: Byte := 0x2a
  const UNDERSCORE: Byte := 0x5f
  const DOT: Byte := 0x2e

  predicate IsLower(c: Byte) { 0x61 <= c <= 0x7a }

  predicate IsAlpha(c: Byte) { 0x41 <= c <= 0x5a || IsLower(c) }

  predicate IsNameChar(c: Byte) {
    IsAlpha(c) || 0x30 <= c <= 0x39 || c == UNDERSCORE || c == DOT
  }

  function Upper(c: Byte): (r: Byte) {
    if IsLower(c) then c - 0x20 else c
  }

  predicate IsPlain(key: seq<Byte>) {
    0 < |key| <= MAX_KEY && IsAlpha(key[0]) && forall i :: 1 <= i < |key| ==> IsNameChar(key[i])
  }

  predicate IsWildcard(key: seq<Byte>) {
    && 1 < |key| <= MAX_KEY && IsAlpha(key[0]) && key[|key| - 1] == STAR
    && forall i :: 1 <= i < |key| - 1 ==> IsNameChar(key[i])
  }

  datatype KeyVerdict = PlainKey | WildcardKey | InvalidKey

  /** mmconfig_validate_key */
  method ValidateKey(key: seq<Byte>) returns (verdict: KeyVerdict)
    ensures verdict == PlainKey <==> IsPlain(key)
    ensures verdict == WildcardKey <==> IsWildcard(key)
    ensures verdict != InvalidKey ==> 0 < |key| <= MAX_KEY
  {
    if |key| > MAX_KEY || |key| == 0 {
      return InvalidKey;
    }
    if !IsAlpha(key[0]) {
      return InvalidKey;
    }
    var i := 1;
    while i < |key|
      invariant 1 <= i <= |key|
      invariant forall j :: 1 <= j < i ==> IsNameChar(key[j])
    {
      if !IsNameChar(key[i]) {
        return if key[i] == STAR && i == |key| - 1 then WildcardKey else InvalidKey;
      }
      i := i + 1;
    }
    verdict := PlainKey;
  }

  /** The part of a requested key that is compared. */
  function BeforeStar(key: seq<Byte>): (n: nat)
    ensures n <= |key|
    ensures forall i :: 0 <= i < n ==> key[i] != STAR
    ensures n < |key| ==> key[n] == STAR
  {
    if key == [] || key[0] == STAR then 0 else 1 + BeforeStar(key[1..])
  }

  /**
   * A requested key, possibly with an asterisk, covers a stored key: case does not matter, everything after the
   * asterisk is free.
   */
  predicate Matches(requested: seq<Byte>, found: seq<Byte>) {
    && requested != []
    && (if requested[|requested| - 1] == STAR then |requested| - 1 <= |found| else |requested| == |found|)
    && forall i :: 0 <= i < BeforeStar(requested) && i < |found| ==> Upper(requested[i]) == Upper(found[i])
  }

  /** mmconfig_key_match: the loop runs over the stored key, yet never reads past the end of the requested one. */
  method KeyMatch(requested: seq<Byte>, found: seq<Byte>) returns (match_: bool)
    ensures match_ <==> Matches(requested, found)
  {
    if |requested| < 1 {
      return false;
    }
    if requested[|requested| - 1] != STAR {
      if |requested| != |found| {
        return false;
      }
    } else if |requested| - 1 > |found| {
      return false;
    }
    var i := 0;
    while i < |found|
      invariant 0 <= i <= |found| && i <= BeforeStar(requested)
      invariant forall j :: 0 <= j < i ==> Upper(requested[j]) == Upper(found[j])
    {
      if requested[i] == STAR {
        return true;
      }
      if Upper(requested[i]) != Upper(found[i]) {
        return false;
      }
      i := i + 1;
    }
    match_ := true;
  }

  /** Equal but for the case of letters. */
  predicate SameName(a: seq<Byte>, b: seq<Byte>) {
    |a| == |b| && forall i :: 0 <= i < |a| ==> Upper(a[i]) == Upper(b[i])
  }

  lemma PlainMatches(key: seq<Byte>, found: seq<Byte>)
    requires IsPlain(key)
    ensures BeforeStar(key) == |key|
    ensures Matches(key, found) <==> SameName(key, found)
  {
  }

  lemma WildcardMatches(key: seq<Byte>, found: seq<Byte>)
    requires IsWildcard(key)
    ensures Matches(key, found) <==> |key| - 1 <= |found| && SameName(key[..|key| - 1], found[..|key| - 1])
  {
    assert BeforeStar(key) == |key| - 1;
    var stem := key[..|key| - 1];
    assert forall i :: 0 <= i < |stem| ==> stem[i] == key[i];
  }

  // ----- The meaning of an update -----

  datatype Change = Store(data: seq<Byte>) | Delete

  datatype Node = Node(key: seq<Byte>, change: Change)

  /** Some node of the update covers the key. */
  predicate Covered(nodes: seq<Node>, key: seq<Byte>) {
    nodes != [] && (Matches(nodes[0].key, key) || Covered(nodes[1..], key))
  }

  function Kept(rs: seq<Record>, nodes: seq<Node>): (r: seq<Record>) {
    if rs == [] then [] else (if Covered(nodes, rs[0].key) then [] else [rs[0]]) + Kept(rs[1..], nodes)
  }

  function Added(nodes: seq<Node>): (r: seq<Record>) {
    if nodes == [] then []
    else (if nodes[0].change.Store? then [Record(nodes[0].key, nodes[0].change.data)] else []) + Added(nodes[1..])
  }

  function Updated(rs: seq<Record>, nodes: seq<Node>): (r: seq<Record>) {
    Kept(rs, nodes) + Added(nodes)
  }

  datatype Found = Found(data: seq<Byte>) | NotFound

  /** What mmconfig_read_data finds, the first match. */
  function Lookup(rs: seq<Record>, key: seq<Byte>): (r: Found) {
    if rs == [] then NotFound
    else if Matches(key, rs[0].key) then Found(rs[0].data)
    else Lookup(rs[1..], key)
  }

  lemma {:induction false} LookupConcat(a: seq<Record>, b: seq<Record>, key: seq<Byte>)
    ensures Lookup(a + b, key) == if Lookup(a, key).Found? then Lookup(a, key) else Lookup(b, key)
    decreases |a|
  {
    hide Matches;
    if a == [] {
      assert a + b == b;
    } else {
      assert (a + b)[0] == a[0] && (a + b)[1..] == a[1..] + b;
      LookupConcat(a[1..], b, key);
    }
  }

  /** A node cannot tell two spellings of the same name apart. */
  lemma SpellingIrrelevant(requested: seq<Byte>, a: seq<Byte>, b: seq<Byte>)
    requires SameName(a, b)
    ensures Matches(requested, a) <==> Matches(requested, b)
  {
  }

  lemma {:induction false} CoveredSpelling(nodes: seq<Node>, a: seq<Byte>, b: seq<Byte>)
    requires SameName(a, b)
    ensures Covered(nodes, a) <==> Covered(nodes, b)
    decreases |nodes|
  {
    hide Matches, SameName;
    if nodes != [] {
      SpellingIrrelevant(nodes[0].key, a, b);
      CoveredSpelling(nodes[1..], a, b);
    }
  }

  lemma {:induction false} LookupKept(rs: seq<Record>, nodes: seq<Node>, key: seq<Byte>)
    requires IsPlain(key)
    ensures Lookup(Kept(rs, nodes), key) == if Covered(nodes, key) then NotFound else Lookup(rs, key)
    decreases |rs|
  {
    hide Matches, SameName, IsPlain, Covered;
    if rs != [] {
      var r, rest := rs[0], rs[1..];
      PlainMatches(key, r.key);
      if Matches(key, r.key) {
        CoveredSpelling(nodes, key, r.key);
      }
      LookupKept(rest, nodes, key);
      LookupConcat(if Covered(nodes, r.key) then [] else [r], Kept(rest, nodes), key);
      assert [r][1..] == [];
    }
  }

  lemma {:induction false} LookupAddedCovered(nodes: seq<Node>, key: seq<Byte>)
    requires IsPlain(key) && AllKeysValid(nodes)
    requires Lookup(Added(nodes), key).Found?
    ensures Covered(nodes, key)
    decreases |nodes|
  {
    if nodes != [] {
      var node, rest := nodes[0], nodes[1..];
      var own := if node.change.Store? then [Record(node.key, node.change.data)] else [];
      LookupConcat(own, Added(rest), key);
      if Lookup(own, key).Found? {
        assert Matches(key, node.key);
        SameNameMatches(key, node.key);
      } else {
        LookupAddedCovered(rest, key);
      }
    }
  }

  lemma SameNameMatches(key: seq<Byte>, other: seq<Byte>)
    requires IsPlain(key) && Matches(key, other)
    requires IsPlain(other) || IsWildcard(other)
    ensures Matches(other, key)
  {
    PlainMatches(key, other);
    var last := |other| - 1;
    assert Upper(key[last]) == Upper(other[last]);
    if IsPlain(other) {
      PlainMatches(other, key);
    } else {
      WildcardMatches(other, key);
    }
  }

  predicate AllKeysValid(nodes: seq<Node>) {
    nodes == [] || ((IsPlain(nodes[0].key) || IsWildcard(nodes[0].key)) && AllKeysValid(nodes[1..]))
  }

  /**
   * Reading back: a key that some node covers has what the update stored under it, if anything; every other key has
   * what it had before.
   */
  lemma ReadAfterUpdate(rs: seq<Record>, nodes: seq<Node>, key: seq<Byte>)
    requires IsPlain(key) && AllKeysValid(nodes)
    ensures Lookup(Updated(rs, nodes), key) ==
            if Covered(nodes, key) then Lookup(Added(nodes), key) else Lookup(rs, key)
  {
    LookupConcat(Kept(rs, nodes), Added(nodes), key);
    LookupKept(rs, nodes, key);
    if !Covered(nodes, key) && Lookup(Added(nodes), key).Found? {
      LookupAddedCovered(nodes, key);
    }
  }

  // ----- Space -----

  function Dropped(rs: seq<Record>, nodes: seq<Node>): (r: seq<Record>) {
    if rs == [] then [] else (if Covered(nodes, rs[0].key) then [rs[0]] else []) + Dropped(rs[1..], nodes)
  }

  /** What the space check counts for a node: it reads both lengths back from fields of one and two bytes. */
  function Counted(node: Node): (r: nat) {
    if node.change.Store? then 1 + |node.key| % 0x100 + 2 + |node.change.data| % 0x1_0000 else 0
  }

  function RequiredSpace(nodes: seq<Node>): (r: nat) {
    if nodes == [] then 0 else Counted(nodes[0]) + RequiredSpace(nodes[1..])
  }

  /** The bytes of data that are written although the length field, and so the space check, does not count them. */
  function Uncounted(nodes: seq<Node>): (r: nat) {
    if nodes == [] then 0
    else (if nodes[0].change.Store? then |nodes[0].change.data| / 0x1_0000 * 0x1_0000 else 0) + Uncounted(nodes[1..])
  }

  /**
   * What the space check adds up, written as the code does: the end of the records, plus what is new, minus what goes.
   */
  function SpaceRequired(rs: seq<Record>, nodes: seq<Node>): (r: int) {
    HEADER + |SerialAll(rs)| + (RequiredSpace(nodes) - |SerialAll(Dropped(rs, nodes))|)
  }

  /** What the new records take in flash, against what the check counts for them. */
  lemma {:induction false} CountedSpace(nodes: seq<Node>)
    requires AllKeysValid(nodes)
    ensures |SerialAll(Added(nodes))| == RequiredSpace(nodes) + Uncounted(nodes)
    decreases |nodes|
  {
    hide Serial, IsPlain, IsWildcard;
    if nodes != [] {
      var node, rest := nodes[0], nodes[1..];
      CountedSpace(rest);
      ValidLength(node.key);
      if node.change.Store? {
        var r := Record(node.key, node.change.data);
        SerialConcat([r], Added(rest));
        SerialOne(r);
      } else {
        assert [] + Added(rest) == Added(rest);
      }
    }
  }

  lemma ValidLength(key: seq<Byte>)
    ensures IsPlain(key) || IsWildcard(key) ==> 0 < |key| <= MAX_KEY
  {
  }

  lemma {:induction false} NothingUncounted(nodes: seq<Node>)
    ensures Uncounted(nodes) == 0 <==> StorableNodes(nodes)
    decreases |nodes|
  {
    if nodes != [] {
      NothingUncounted(nodes[1..]);
    }
  }

  lemma {:induction false} KeptAndDropped(rs: seq<Record>, nodes: seq<Node>)
    ensures |SerialAll(rs)| == |SerialAll(Kept(rs, nodes))| + |SerialAll(Dropped(rs, nodes))|
    decreases |rs|
  {
    hide Covered, Serial;
    if rs != [] {
      var r, rest := rs[0], rs[1..];
      KeptAndDropped(rest, nodes);
      var own := if Covered(nodes, r.key) then [] else [r];
      var gone := if Covered(nodes, r.key) then [r] else [];
      SerialConcat(own, Kept(rest, nodes));
      SerialConcat(gone, Dropped(rest, nodes));
      SerialOne(r);
    }
  }

  lemma SerialOne(r: Record)
    ensures SerialAll([r]) == Serial(r) && SerialAll([]) == []
  {
    assert [r][1..] == [];
    assert Serial(r) + [] == Serial(r);
  }

  /**
   * The check counts neither the terminator nor what the length fields cut off. So what is written fits the partition
   * exactly when there is room for both besides; for data of less than 65536 bytes that leaves out the updates that
   * fill the partition to the last byte.
   */
  lemma RoomForStream(version: Word, rs: seq<Record>, nodes: seq<Node>, size: nat)
    requires AllKeysValid(nodes)
    ensures |Stream(version, Updated(rs, nodes))| == SpaceRequired(rs, nodes) + Uncounted(nodes) + 1
    ensures |Stream(version, Updated(rs, nodes))| <= size <==> SpaceRequired(rs, nodes) + Uncounted(nodes) < size
    ensures StorableNodes(nodes) <==> Uncounted(nodes) == 0
  {
    hide Kept, Added, Dropped, Stream, RequiredSpace, Uncounted, StorableNodes, AllKeysValid;
    CountedSpace(nodes);
    NothingUncounted(nodes);
    KeptAndDropped(rs, nodes);
    SerialConcat(Kept(rs, nodes), Added(nodes));
    StreamParts(version, Updated(rs, nodes));
  }

  /** One node that stores data under a one-letter key in an empty store. */
  function OneNode(data: seq<Byte>): (r: seq<Node>) { [Node([0x61], Store(data))] }

  lemma OneNodeUpdate(data: seq<Byte>)
    ensures IsPlain([0x61]) && AllKeysValid(OneNode(data))
    ensures Updated([], OneNode(data)) == Added(OneNode(data)) == [Record([0x61], data)]
    ensures SpaceRequired([], OneNode(data)) == HEADER + 4 + |data| % 0x1_0000
    ensures Uncounted(OneNode(data)) == |data| / 0x1_0000 * 0x1_0000
  {
    var r := Record([0x61], data);
    assert OneNode(data)[1..] == [];
    assert [r] + [] == [r];
    assert SerialAll([]) == [] && Dropped([], OneNode(data)) == [];
    assert RequiredSpace(OneNode(data)) == Counted(OneNode(data)[0]) + RequiredSpace([]);
  }

  /**
   * In an empty store of any size from 16 bytes to 65551: so much data that the partition is filled to the last byte
   * passes the space check, and the terminator is written behind the partition.
   */
  lemma ExactFillOverruns(version: Word, data: seq<Byte>)
    requires |data| <= 0xffff
    ensures var nodes, size := OneNode(data), HEADER + 4 + |data|;
            && AllKeysValid(nodes) && SpaceRequired([], nodes) == size
            && |Stream(version, Updated([], nodes))| == size + 1
  {
    OneNodeUpdate(data);
    RoomForStream(version, [], OneNode(data), HEADER + 4 + |data|);
  }

  /**
   * 65536 bytes, or any multiple of that, count as none: the space check of every partition of at least 16 bytes lets
   * them pass, and every byte is written.
   */
  lemma LongDataOverruns(version: Word, data: seq<Byte>)
    requires |data| % 0x1_0000 == 0
    ensures var nodes := OneNode(data);
            && AllKeysValid(nodes) && SpaceRequired([], nodes) == 16
            && |Stream(version, Updated([], nodes))| == 17 + |data|
  {
    OneNodeUpdate(data);
    RoomForStream(version, [], OneNode(data), 16);
  }

  /**
   * The header of mmconfig lets a size of zero mean deletion. Only a missing data pointer does: empty data is stored
   * and found, where deletion leaves nothing to be found.
   */
  lemma EmptyDataIsStored()
    ensures Lookup(Updated([], OneNode([])), [0x61]) == Found([])
    ensures Lookup(Updated([Record([0x61], [7])], [Node([0x61], Delete)]), [0x61]) == NotFound
  {
    OneNodeUpdate([]);
    PlainMatches([0x61], [0x61]);
    assert Covered([Node([0x61], Delete)], [0x61]);
    ReadAfterUpdate([Record([0x61], [7])], [Node([0x61], Delete)], [0x61]);
    assert [Node([0x61], Delete)][1..] == [];
  }

  /** No data is longer than its length field can tell. */
  predicate StorableNodes(nodes: seq<Node>) {
    nodes == [] || ((nodes[0].change.Store? ==> |nodes[0].change.data| <= 0xffff) && StorableNodes(nodes[1..]))
  }

  lemma {:induction false} StorableConcat(a: seq<Record>, b: seq<Record>)
    ensures AllStorable(a + b) <==> AllStorable(a) && AllStorable(b)
    ensures AllSized(a + b) <==> AllSized(a) && AllSized(b)
    decreases |a|
  {
    hide Storable, Sized;
    if a == [] {
      assert a + b == b;
    } else {
      assert (a + b)[0] == a[0] && (a + b)[1..] == a[1..] + b;
      StorableConcat(a[1..], b);
    }
  }

  lemma {:induction false} KeptFits(rs: seq<Record>, nodes: seq<Node>)
    ensures AllStorable(rs) ==> AllStorable(Kept(rs, nodes))
    ensures AllSized(rs) ==> AllSized(Kept(rs, nodes))
    decreases |rs|
  {
    hide Storable, Sized, Covered;
    if rs != [] {
      KeptFits(rs[1..], nodes);
      var own := if Covered(nodes, rs[0].key) then [] else [rs[0]];
      StorableConcat(own, Kept(rs[1..], nodes));
      assert [rs[0]][1..] == [];
    }
  }

  lemma {:induction false} AddedFits(nodes: seq<Node>)
    requires AllKeysValid(nodes) && StorableNodes(nodes)
    ensures AllStorable(Added(nodes))
    decreases |nodes|
  {
    if nodes != [] {
      var node := nodes[0];
      AddedFits(nodes[1..]);
      var own := if node.change.Store? then [Record(node.key, node.change.data)] else [];
      StorableConcat(own, Added(nodes[1..]));
      if node.change.Store? {
        assert Storable(own[0]) && own[1..] == [];
      }
    }
  }

  lemma UpdatedFits(rs: seq<Record>, nodes: seq<Node>)
    requires AllStorable(rs) && AllSized(rs) && AllKeysValid(nodes) && StorableNodes(nodes)
    ensures AllStorable(Updated(rs, nodes))
    ensures AllSized(Updated(rs, nodes)) <==> AllSized(Added(nodes))
  {
    KeptFits(rs, nodes);
    AddedFits(nodes);
    StorableConcat(Kept(rs, nodes), Added(nodes));
  }

  /** Data that its length field cuts short: what lies behind the cut is read as the records it happens to spell. */
  lemma LongDataSpillsOver(version: Word, rs: seq<Record>, r: Record, rest: seq<Record>, size: nat)
    requires r.data[|r.data| % 0x1_0000..] == SerialAll(rest)
    requires var short := r.(data := r.data[..|r.data| % 0x1_0000]);
             AllStorable(rs + ([short] + rest)) && AllSized(rs + ([short] + rest))
    requires |Stream(version, rs + [r])| <= size
    ensures var image := Padded(Stream(version, rs + [r]), size);
            IsValid(image) && Contents(image) == rs + ([r.(data := r.data[..|r.data| % 0x1_0000])] + rest)
  {
    hide AllStorable, AllSized, Serial, SerialAll, Judge, Contents, Checksum, Le32, Padded;
    var short := r.(data := r.data[..|r.data| % 0x1_0000]);
    SerialSplits(r);
    SerialConcat(rs, [r]);
    SerialConcat([short], rest);
    SerialConcat(rs, [short] + rest);
    SerialOne(r);
    SerialOne(short);
    ImageRoundTrip(version, rs + ([short] + rest), size);
  }

  lemma SerialSplits(r: Record)
    ensures var n := |r.data| % 0x1_0000;
            Serial(r) == Serial(r.(data := r.data[..n])) + r.data[n..]
  {
    var n := |r.data| % 0x1_0000;
    assert r.data == r.data[..n] + r.data[n..];
    LengthsAgree(|r.data|);
  }

  lemma LengthsAgree(n: nat)
    ensures n % 0x1_0000 % 0x100 == n % 0x100 && n % 0x1_0000 / 0x100 % 0x100 == n / 0x100 % 0x100
  {
  }
}
