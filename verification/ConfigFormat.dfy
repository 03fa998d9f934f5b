/**
 * The flash image of an mmconfig partition: header, records, checksum, and what mmconfig_validate_partition accepts
 * (mmconfig/mmconfig.c:36-53, 290-301, 405-466).
 */
module ConfigFormat {
  import opened Basics
  import opened Bits

  type Image = seq<Byte>
  type Word = x: int | 0 <= x < 0x1_0000_0000

  const ERASED: Byte := 0xff
  const SIGNATURE: Word := 0x53434d4d
  const SEED: bv32 := 0xdfb7_f3e1
  const HEADER: nat := 12
  const MAX_KEY: nat := 32

  /** A data length of which the high byte is 0xff is taken for flash that was never written. */
  const MAX_DATA: nat := 0xfeff

  // ----- Checksum -----

  function Bit(on: bool, value: bv32): (r: bv32) {
    if on then value else 0
  }

  function Word8(b0: bool, b1: bool, b2: bool, b3: bool, b4: bool, b5: bool, b6: bool, b7: bool): (r: bv32) {
    Bit(b0, 1) | Bit(b1, 2) | Bit(b2, 4) | Bit(b3, 8) | Bit(b4, 16) | Bit(b5, 32) | Bit(b6, 64) | Bit(b7, 128)
  }

  /** The lowest k bits of a number, lowest first. */
  function BitsOf(n: nat, k: nat): (bits: seq<bool>)
    ensures |bits| == k
  {
    if k == 0 then [] else [n % 2 == 1] + BitsOf(n / 2, k - 1)
  }

  /** A byte as a 32-bit word. */
  function Widen(b: Byte): (r: bv32) {
    var s := BitsOf(b, 8);
    Word8(s[0], s[1], s[2], s[3], s[4], s[5], s[6], s[7])
  }

  function Plus(c: bv32, x: bv32): (r: bv32) { c + x }

  function AsWord(c: bv32): (r: Word) {
    c as int
  }

  function Left13(x: bv32): (r: bv32) { x ^ (x << 13) }

  function Down17(x: bv32): (r: bv32) { x >> 17 }

  function Xor(x: bv32, y: bv32): (r: bv32) { x ^ y }

  function Right17(x: bv32): (r: bv32) { Xor(x, Down17(x)) }

  function Left5(x: bv32): (r: bv32) { x ^ (x << 5) }

  /** One byte into mmconfig_update_checksum. */
  function Mix(c: bv32, b: Byte): (r: bv32) {
    Left5(Right17(Left13(Plus(c, Widen(b)))))
  }

  function Fold(c: bv32, data: seq<Byte>): (r: bv32) {
    if data == [] then c else Mix(Fold(c, data[..|data| - 1]), data[|data| - 1])
  }

  function Checksum(data: seq<Byte>): (r: Word) {
    AsWord(Fold(SEED, data))
  }

  lemma {:induction false} FoldConcat(c: bv32, a: seq<Byte>, b: seq<Byte>)
    ensures Fold(c, a + b) == Fold(Fold(c, a), b)
  {
    hide Mix;
    if b == [] {
      assert a + b == a;
    } else {
      FoldConcat(c, a, b[..|b| - 1]);
      assert (a + b)[..|a + b| - 1] == a + b[..|b| - 1];
    }
  }

  lemma Left13Injective(x: bv32, y: bv32)
    ensures Left13(x) == Left13(y) ==> x == y
  {
  }

  lemma XorLaws(x: bv32, y: bv32)
    ensures Xor(x, 0) == x && Xor(Xor(x, y), y) == x
  {
  }

  lemma Down17Laws(x: bv32, y: bv32)
    ensures Down17(Down17(x)) == 0
    ensures Down17(Xor(x, y)) == Xor(Down17(x), Down17(y))
  {
  }

  /** Two shifts by 17 leave no bit of a 32-bit word. */
  lemma Right17Inverse(x: bv32)
    ensures Right17(Right17(x)) == x
  {
    hide Down17, Xor;
    Down17Laws(x, Down17(x));
    XorLaws(x, Down17(x));
    XorLaws(Down17(x), x);
  }

  lemma Right17Injective(x: bv32, y: bv32)
    ensures Right17(x) == Right17(y) ==> x == y
  {
    hide Right17;
    Right17Inverse(x);
    Right17Inverse(y);
  }

  lemma Left5Injective(x: bv32, y: bv32)
    ensures Left5(x) == Left5(y) ==> x == y
  {
  }

  function Minus(c: bv32, x: bv32): (r: bv32) { c - x }

  lemma PlusMinus(c: bv32, x: bv32)
    ensures Minus(Plus(c, x), c) == x && Minus(Plus(x, c), c) == x
  {
  }

  lemma SumInjective(c: bv32, x: bv32, y: bv32)
    ensures Plus(c, x) == Plus(c, y) ==> x == y
    ensures Plus(x, c) == Plus(y, c) ==> x == y
  {
    hide Plus, Minus;
    PlusMinus(c, x);
    PlusMinus(c, y);
  }

  lemma WidenInjective(a: Byte, b: Byte)
    ensures Widen(a) == Widen(b) ==> a == b
  {
    hide Word8, BitsOf;
    var s, t := BitsOf(a, 8), BitsOf(b, 8);
    if Widen(a) == Widen(b) {
      Word8Injective(s[0], s[1], s[2], s[3], s[4], s[5], s[6], s[7], t[0], t[1], t[2], t[3], t[4], t[5], t[6], t[7]);
      assert s == t;
      assert Pow2(8) == 256;
      BitsTell(a, b, 8);
    }
  }

  lemma Word8Injective(a0: bool, a1: bool, a2: bool, a3: bool, a4: bool, a5: bool, a6: bool, a7: bool,
                       b0: bool, b1: bool, b2: bool, b3: bool, b4: bool, b5: bool, b6: bool, b7: bool)
    requires Word8(a0, a1, a2, a3, a4, a5, a6, a7) == Word8(b0, b1, b2, b3, b4, b5, b6, b7)
    ensures a0 == b0 && a1 == b1 && a2 == b2 && a3 == b3 && a4 == b4 && a5 == b5 && a6 == b6 && a7 == b7
  {
  }

  lemma {:induction false} BitsTell(a: nat, b: nat, k: nat)
    requires a < Pow2(k) && b < Pow2(k)
    requires BitsOf(a, k) == BitsOf(b, k)
    ensures a == b
  {
    if k > 0 {
      assert BitsOf(a, k)[0] == BitsOf(b, k)[0];
      assert BitsOf(a, k)[1..] == BitsOf(b, k)[1..];
      BitsTell(a / 2, b / 2, k - 1);
    }
  }

  lemma AsWordInjective(a: bv32, b: bv32)
    ensures AsWord(a) == AsWord(b) ==> a == b
  {
    assert (AsWord(a) as bv32) == a && (AsWord(b) as bv32) == b;
  }

  lemma MixInjective(c: bv32, d: bv32, a: Byte, b: Byte)
    ensures Mix(c, b) == Mix(d, b) ==> c == d
    ensures Mix(c, a) == Mix(c, b) ==> a == b
  {
    hide Left13, Right17, Left5, Widen, Plus;
    var p, q, r := Plus(c, Widen(b)), Plus(d, Widen(b)), Plus(c, Widen(a));
    Left13Injective(p, q);
    Left13Injective(p, r);
    Right17Injective(Left13(p), Left13(q));
    Right17Injective(Left13(p), Left13(r));
    Left5Injective(Right17(Left13(p)), Right17(Left13(q)));
    Left5Injective(Right17(Left13(p)), Right17(Left13(r)));
    SumInjective(Widen(b), c, d);
    SumInjective(c, Widen(a), Widen(b));
    WidenInjective(a, b);
  }

  /** Different states stay different, so one wrong byte cannot hide behind any number of right ones. */
  lemma {:induction false} FoldInjective(c: bv32, d: bv32, data: seq<Byte>)
    requires Fold(c, data) == Fold(d, data)
    ensures c == d
  {
    if data != [] {
      hide Mix;
      var front := data[..|data| - 1];
      MixInjective(Fold(c, front), Fold(d, front), 0, data[|data| - 1]);
      FoldInjective(c, d, front);
    }
  }

  /** A change of one byte always changes the checksum. */
  lemma ByteChangeDetected(before: seq<Byte>, a: Byte, b: Byte, after: seq<Byte>)
    requires a != b
    ensures Checksum(before + [a] + after) != Checksum(before + [b] + after)
  {
    hide Mix, AsWord;
    var c := Fold(SEED, before);
    FoldOne(c, a);
    FoldOne(c, b);
    FoldConcat(SEED, before, [a]);
    FoldConcat(SEED, before, [b]);
    FoldConcat(SEED, before + [a], after);
    FoldConcat(SEED, before + [b], after);
    MixInjective(c, c, a, b);
    if Checksum(before + [a] + after) == Checksum(before + [b] + after) {
      AsWordInjective(Fold(Mix(c, a), after), Fold(Mix(c, b), after));
      FoldInjective(Mix(c, a), Mix(c, b), after);
    }
  }

  lemma FoldNothing(c: bv32)
    ensures Fold(c, []) == c
  {
  }

  lemma FoldSnoc(c: bv32, data: seq<Byte>, b: Byte)
    ensures Fold(c, data + [b]) == Mix(Fold(c, data), b)
  {
    hide Mix;
    assert (data + [b])[..|data|] == data;
  }

  lemma FoldOne(c: bv32, b: Byte)
    ensures Fold(c, [b]) == Mix(c, b)
  {
    hide Mix;
    assert [b][..0] == [];
  }

  /** mmconfig_update_checksum */
  method UpdateChecksum(checksum: bv32, data: seq<Byte>) returns (updated: bv32)
    ensures updated == Fold(checksum, data)
  {
    hide Fold, Left13, Right17, Left5, Widen, Plus;
    FoldNothing(checksum);
    assert data[..0] == [];
    updated := checksum;
    var i := 0;
    while i < |data|
      invariant 0 <= i <= |data|
      invariant updated == Fold(checksum, data[..i])
    {
      assert data[..i + 1] == data[..i] + [data[i]];
      FoldSnoc(checksum, data[..i], data[i]);
      updated := Plus(updated, Widen(data[i]));
      updated := Left13(updated);
      updated := Right17(updated);
      updated := Left5(updated);
      i := i + 1;
    }
    assert data[..i] == data;
  }

  // ----- Numbers in flash, little endian -----

  function Le32(w: Word): (r: seq<Byte>) {
    [w % 0x100, w / 0x100 % 0x100, w / 0x1_0000 % 0x100, w / 0x100_0000]
  }

  function WordAt(image: Image, off: nat): (r: Word)
    requires off + 4 <= |image|
  {
    var a: int, b: int, c: int, d: int := image[off], image[off + 1], image[off + 2], image[off + 3];
    a + 0x100 * b + 0x1_0000 * c + 0x100_0000 * d
  }

  lemma WordRoundTrip(image: Image, off: nat, w: Word)
    requires off + 4 <= |image|
    requires image[off..off + 4] == Le32(w)
    ensures WordAt(image, off) == w
  {
    var bytes := image[off..off + 4];
    assert image[off] == bytes[0] && image[off + 1] == bytes[1];
    assert image[off + 2] == bytes[2] && image[off + 3] == bytes[3];
    assert w / 0x1_0000 == w / 0x100 / 0x100 && w / 0x100_0000 == w / 0x1_0000 / 0x100;
  }

  // ----- Records -----

  datatype Record = Record(key: seq<Byte>, data: seq<Byte>)

  /** What the format can hold: the key length is neither a terminator nor too long, the data length fits its field. */
  predicate Storable(r: Record) {
    0 < |r.key| <= MAX_KEY && |r.data| <= 0xffff
  }

  predicate AllStorable(rs: seq<Record>) {
    rs == [] || (Storable(rs[0]) && AllStorable(rs[1..]))
  }

  function Size(r: Record): (result: nat) {
    1 + |r.key| + 2 + |r.data|
  }

  /** A record as it is written; both lengths are cut to the width of their fields. */
  function Serial(r: Record): (s: seq<Byte>)
    ensures |s| == Size(r)
  {
    [|r.key| % 0x100] + r.key + [|r.data| % 0x100, |r.data| / 0x100 % 0x100] + r.data
  }

  function SerialAll(rs: seq<Record>): (r: seq<Byte>) {
    if rs == [] then [] else Serial(rs[0]) + SerialAll(rs[1..])
  }

  /**
   * What walking the records finds: them and where they end; a length that was never written; or a record that
   * claims to reach past the partition.
   */
  datatype Walk = Records(rs: seq<Record>, end: nat) | Unwritten | Outside

  function DataLen(image: Image, off: nat): (r: nat)
    requires off + 2 <= |image|
  {
    var low: int, high: int := image[off], image[off + 1];
    low + 0x100 * high
  }

  function EndOfList(b: Byte): (r: bool) {
    b == ERASED || b == 0
  }

  function Prepend(r: Record, walk: Walk): (result: Walk) {
    if walk.Records? then Records([r] + walk.rs, walk.end) else walk
  }

  function Parse(image: Image, off: nat): (r: Walk)
    requires off <= |image|
    decreases |image| - off
  {
    if off == |image| || EndOfList(image[off]) then Records([], off)
    else
      var dataLen := off + 1 + image[off] as nat;
      if |image| < dataLen + 2 then Outside
      else if image[dataLen + 1] == ERASED then Unwritten
      else
        var next := dataLen + 2 + DataLen(image, dataLen);
        if |image| < next then Outside
        else
          Prepend(Record(image[off + 1..dataLen], image[dataLen + 2..next]), Parse(image, next))
  }

  datatype Verdict = Ok | InvalidPartition | ReadsOutside

  /** mmconfig_validate_partition */
  function Judge(image: Image): (r: Verdict)
    requires HEADER <= |image|
  {
    if WordAt(image, 0) != SIGNATURE then InvalidPartition
    else
      match Parse(image, HEADER)
      case Unwritten => InvalidPartition
      case Outside => ReadsOutside
      case Records(rs, end) =>
        if HEADER <= end <= |image| && Checksum(image[HEADER..end]) == WordAt(image, 8) then Ok else InvalidPartition
  }

  predicate IsValid(image: Image) {
    HEADER <= |image| && Judge(image) == Ok
  }

  function Contents(image: Image): (r: seq<Record>)
    requires IsValid(image)
  {
    Parse(image, HEADER).rs
  }

  function Version(image: Image): (r: Word)
    requires HEADER <= |image|
  {
    WordAt(image, 4)
  }

  lemma {:induction false} ParseBounds(image: Image, off: nat)
    requires off <= |image|
    ensures Parse(image, off).Records? ==> off <= Parse(image, off).end <= |image|
    decreases |image| - off
  {
    if off < |image| && !EndOfList(image[off]) {
      var dataLen := off + 1 + image[off] as nat;
      if dataLen + 2 <= |image| && image[dataLen + 1] != ERASED {
        var next := dataLen + 2 + DataLen(image, dataLen);
        if next <= |image| {
          ParseBounds(image, next);
        }
      }
    }
  }

  // ----- Validation as the loop does it -----

  ghost predicate SameOutcome(a: Walk, b: Walk) {
    && (a.Records? <==> b.Records?)
    && (a.Records? ==> a.end == b.end)
    && (a.Unwritten? <==> b.Unwritten?)
  }

  /** One step of the walk. */
  lemma ParseStep(image: Image, off: nat)
    requires off <= |image|
    ensures off == |image| || EndOfList(image[off]) ==> Parse(image, off) == Records([], off)
    ensures off < |image| && !EndOfList(image[off]) ==>
              var dataLen := off + 1 + image[off] as nat;
              && (|image| < dataLen + 2 ==> Parse(image, off) == Outside)
              && (dataLen + 2 <= |image| ==>
                    if image[dataLen + 1] == ERASED then Parse(image, off) == Unwritten
                    else
                      var next := dataLen + 2 + DataLen(image, dataLen);
                      if |image| < next then Parse(image, off) == Outside
                      else
                        var r := Record(image[off + 1..dataLen], image[dataLen + 2..next]);
                        Parse(image, off) == Prepend(r, Parse(image, next)))
  {
  }

  /** mmconfig_validate_partition: one pass over the records, the checksum growing with each of them. */
  method ValidatePartition(image: Image) returns (verdict: Verdict)
    requires HEADER <= |image|
    ensures verdict == Judge(image)
  {
    hide Fold, AsWord, WordAt, Parse, EndOfList, DataLen;
    if WordAt(image, 0) != SIGNATURE {
      return InvalidPartition;
    }
    var checksum := SEED;
    var off := HEADER;
    FoldNothing(SEED);
    assert image[HEADER..off] == [];
    while off < |image| && !EndOfList(image[off])
      invariant HEADER <= off <= |image|
      invariant checksum == Fold(SEED, image[HEADER..off])
      invariant SameOutcome(Parse(image, HEADER), Parse(image, off))
    {
      ParseStep(image, off);
      var dataLen := off + 1 + image[off] as nat;
      if |image| < dataLen + 2 {
        return ReadsOutside;
      }
      if image[dataLen + 1] == ERASED {
        return InvalidPartition;
      }
      var next := dataLen + 2 + DataLen(image, dataLen);
      if |image| < next {
        return ReadsOutside;
      }
      checksum := UpdateChecksum(checksum, image[off..next]);
      FoldConcat(SEED, image[HEADER..off], image[off..next]);
      assert image[HEADER..off] + image[off..next] == image[HEADER..next];
      off := next;
    }
    ParseStep(image, off);
    verdict := if AsWord(checksum) == WordAt(image, 8) then Ok else InvalidPartition;
  }

  // ----- What is written is what is read -----

  predicate Sized(r: Record) {
    |r.data| <= MAX_DATA
  }

  predicate AllSized(rs: seq<Record>) {
    rs == [] || (Sized(rs[0]) && AllSized(rs[1..]))
  }

  lemma SliceOfSlice(image: Image, off: nat, n: nat, a: nat, b: nat)
    requires a <= b <= n && off + n <= |image|
    ensures image[off..off + n][a..b] == image[off + a..off + b]
  {
    var inner, outer := image[off..off + n][a..b], image[off + a..off + b];
    forall i | 0 <= i < b - a ensures inner[i] == outer[i] {
      assert inner[i] == image[off..off + n][a + i];
    }
  }

  predicate Holds(image: Image, off: nat, s: seq<Byte>) {
    off + |s| <= |image| && image[off..off + |s|] == s
  }

  lemma HoldsParts(image: Image, off: nat, a: seq<Byte>, b: seq<Byte>)
    requires Holds(image, off, a + b)
    ensures Holds(image, off, a) && Holds(image, off + |a|, b)
  {
    SliceOfSlice(image, off, |a + b|, 0, |a|);
    SliceOfSlice(image, off, |a + b|, |a|, |a + b|);
    assert (a + b)[0..|a|] == a && (a + b)[|a|..|a + b|] == b;
  }

  lemma Pieces(a: seq<Byte>, b: seq<Byte>, c: seq<Byte>, d: seq<Byte>)
    ensures var s := a + b + c + d;
            s[|a|..|a| + |b|] == b && s[|a| + |b| + |c|..] == d
  {
  }

  lemma SerialParts(r: Record)
    requires Storable(r)
    ensures var s, k := Serial(r), |r.key|;
            && s[0] == k && s[1..1 + k] == r.key && s[3 + k..] == r.data
            && s[1 + k] == |r.data| % 0x100 && s[2 + k] == |r.data| / 0x100
  {
    var head: seq<Byte>, length: seq<Byte> := [|r.key| % 0x100], [|r.data| % 0x100, |r.data| / 0x100 % 0x100];
    var s, k := Serial(r), |r.key|;
    assert s == head + r.key + length + r.data;
    Pieces(head, r.key, length, r.data);
  }

  lemma ParseRecord(image: Image, off: nat, r: Record)
    requires Storable(r) && Holds(image, off, Serial(r))
    ensures Parse(image, off) ==
            if Sized(r) then Prepend(r, Parse(image, off + Size(r))) else Unwritten
  {
    hide Serial, Parse, Prepend;
    var s := image[off..off + Size(r)];
    var k, n := |r.key|, |r.data|;
    SerialParts(r);
    SliceOfSlice(image, off, Size(r), 1, 1 + k);
    SliceOfSlice(image, off, Size(r), 3 + k, Size(r));
    assert image[off] == s[0] && image[off + 1 + k] == s[1 + k] && image[off + 2 + k] == s[2 + k];
    assert DataLen(image, off + 1 + k) == n;
    hide DataLen;
    assert Record(image[off + 1..off + 1 + k], image[off + 3 + k..off + Size(r)]) == r;
    ParseStep(image, off);
  }

  /** The other way round: a record that was parsed lies in flash as it would be written. */
  lemma ParsedIsSerial(image: Image, off: nat)
    requires off <= |image| && Parse(image, off).Records? && Parse(image, off).rs != []
    ensures var walk, r := Parse(image, off), Parse(image, off).rs[0];
            var next := off + Size(r);
            && off < |image| && !EndOfList(image[off])
            && next <= |image| && image[off..next] == Serial(r)
            && |r.key| == image[off] && image[off + 1..off + 1 + |r.key|] == r.key
            && DataLen(image, off + 1 + |r.key|) == |r.data| && image[off + 3 + |r.key|..next] == r.data
            && Parse(image, next) == Records(walk.rs[1..], walk.end)
  {
    hide Parse, Serial, DataLen;
    ParseStep(image, off);
    var k := image[off] as nat;
    var dataLen := off + 1 + k;
    var n := DataLen(image, dataLen);
    var next := dataLen + 2 + n;
    var r := Record(image[off + 1..dataLen], image[dataLen + 2..next]);
    assert Parse(image, off) == Prepend(r, Parse(image, next));
    assert ([r] + Parse(image, next).rs)[1..] == Parse(image, next).rs;
    RawRecord(image, off, k, n);
  }

  lemma RawRecord(image: Image, off: nat, k: nat, n: nat)
    requires off + 3 + k + n <= |image| && image[off] == k && DataLen(image, off + 1 + k) == n
    ensures image[off..off + 3 + k + n]
         == Serial(Record(image[off + 1..off + 1 + k], image[off + 3 + k..off + 3 + k + n]))
  {
    var r := Record(image[off + 1..off + 1 + k], image[off + 3 + k..off + 3 + k + n]);
    assert n % 0x100 == image[off + 1 + k] && n / 0x100 % 0x100 == image[off + 2 + k];
    assert image[off..off + 3 + k + n] ==
           [image[off]] + image[off + 1..off + 1 + k] + [image[off + 1 + k], image[off + 2 + k]]
           + image[off + 3 + k..off + 3 + k + n];
  }

  /** A list of records parses back to itself; one with a data length in the range taken for blank flash never does. */
  lemma {:induction false} ParseSerial(image: Image, off: nat, rs: seq<Record>)
    requires AllStorable(rs) && Holds(image, off, SerialAll(rs))
    requires off + |SerialAll(rs)| <= |image|
    requires off + |SerialAll(rs)| == |image| || EndOfList(image[off + |SerialAll(rs)|])
    ensures Parse(image, off) == Expected(rs, off + |SerialAll(rs)|)
    decreases |rs|
  {
    hide AllStorable, Holds, Parse, Serial, SerialAll, EndOfList, Size, Prepend, Sized, Expected;
    if rs == [] {
      SerialNone();
      ParseNone(image, off);
    } else {
      ParseFirst(image, off, rs);
      ParseSerial(image, off + Size(rs[0]), rs[1..]);
      ExpectedCons(rs, off + |SerialAll(rs)|);
    }
  }

  lemma SerialNone()
    ensures SerialAll([]) == []
  {
  }

  lemma ParseNone(image: Image, off: nat)
    requires off == |image| || (off < |image| && EndOfList(image[off]))
    ensures Parse(image, off) == Expected([], off)
  {
    hide Parse;
    ParseStep(image, off);
  }

  lemma ParseFirst(image: Image, off: nat, rs: seq<Record>)
    requires rs != [] && AllStorable(rs) && Holds(image, off, SerialAll(rs))
    ensures var mid := off + Size(rs[0]);
            && AllStorable(rs[1..]) && Holds(image, mid, SerialAll(rs[1..]))
            && mid + |SerialAll(rs[1..])| == off + |SerialAll(rs)| <= |image|
            && Parse(image, off) == if Sized(rs[0]) then Prepend(rs[0], Parse(image, mid)) else Unwritten
  {
    FirstOf(rs);
    assert off + |SerialAll(rs)| <= |image|;
    hide AllStorable, Holds, Parse, SerialAll, Serial, Prepend, Sized, Storable;
    HoldsParts(image, off, Serial(rs[0]), SerialAll(rs[1..]));
    ParseRecord(image, off, rs[0]);
  }

  lemma FirstOf(rs: seq<Record>)
    requires rs != []
    ensures SerialAll(rs) == Serial(rs[0]) + SerialAll(rs[1..])
    ensures AllStorable(rs) ==> Storable(rs[0]) && AllStorable(rs[1..])
  {
  }

  function Expected(rs: seq<Record>, end: nat): (r: Walk) {
    if AllSized(rs) then Records(rs, end) else Unwritten
  }

  lemma ExpectedCons(rs: seq<Record>, end: nat)
    requires rs != []
    ensures Expected(rs, end) == if Sized(rs[0]) then Prepend(rs[0], Expected(rs[1..], end)) else Unwritten
  {
    assert rs == [rs[0]] + rs[1..];
  }

  lemma {:induction false} SerialConcat(a: seq<Record>, b: seq<Record>)
    ensures SerialAll(a + b) == SerialAll(a) + SerialAll(b)
    decreases |a|
  {
    if a == [] {
      assert a + b == b;
    } else {
      hide Serial;
      var r, rest := a[0], a[1..];
      SerialConcat(rest, b);
      assert (a + b)[0] == r && (a + b)[1..] == rest + b;
      assert SerialAll(a + b) == Serial(r) + (SerialAll(rest) + SerialAll(b));
      assert Serial(r) + (SerialAll(rest) + SerialAll(b)) == (Serial(r) + SerialAll(rest)) + SerialAll(b);
    }
  }

  function Blank(n: nat): (r: Image) {
    seq(n, i => ERASED)
  }

  /** What flash of the given size holds when only the first bytes were written after an erase. */
  function Padded(written: seq<Byte>, size: nat): (r: Image)
    requires |written| <= size
  {
    written + Blank(size - |written|)
  }

  /** Everything that an update writes: header, records, terminator. */
  function Stream(version: Word, rs: seq<Record>): (r: seq<Byte>) {
    Le32(SIGNATURE) + Le32(version) + Le32(Checksum(SerialAll(rs))) + SerialAll(rs) + [ERASED]
  }

  lemma StreamParts(version: Word, rs: seq<Record>)
    ensures var s, body := Stream(version, rs), SerialAll(rs);
            && |s| == HEADER + |body| + 1
            && s[0..4] == Le32(SIGNATURE) && s[4..8] == Le32(version) && s[8..12] == Le32(Checksum(body))
            && s[HEADER..HEADER + |body|] == body && s[HEADER + |body|] == ERASED
  {
    hide Le32, Checksum, SerialAll;
    Le32Length(SIGNATURE);
    Le32Length(version);
    Le32Length(Checksum(SerialAll(rs)));
  }

  lemma Le32Length(w: Word)
    ensures |Le32(w)| == 4
  {
  }

  /**
   * The complete image: accepted exactly if no data length looks like blank flash, and then it holds the records under
   * the version; a walk over it never leaves the partition.
   */
  lemma ImageRoundTrip(version: Word, rs: seq<Record>, size: nat)
    requires AllStorable(rs) && |Stream(version, rs)| <= size
    ensures HEADER < size && Judge(Padded(Stream(version, rs), size)) != ReadsOutside
    ensures var image := Padded(Stream(version, rs), size);
            && (IsValid(image) <==> AllSized(rs))
            && (IsValid(image) ==> Contents(image) == rs && Version(image) == version)
  {
    hide Le32, Fold, AsWord, Serial, Parse, Stream, WordAt;
    StreamParts(version, rs);
    var s, image, body := Stream(version, rs), Padded(Stream(version, rs), size), SerialAll(rs);
    assert image[..|s|] == s;
    assert image[0..4] == s[0..4] && image[4..8] == s[4..8] && image[8..12] == s[8..12];
    WordRoundTrip(image, 0, SIGNATURE);
    WordRoundTrip(image, 4, version);
    WordRoundTrip(image, 8, Checksum(body));
    var end := HEADER + |body|;
    assert image[HEADER..end] == s[HEADER..end] == body;
    assert image[end] == s[end] == ERASED;
    ParseSerial(image, HEADER, rs);
  }

  // ----- Torn images -----

  predicate BlankFrom(image: Image, off: nat) {
    forall i :: off <= i < |image| ==> image[i] == ERASED
  }

  /** Where the written bytes end inside the records, the walk still stays inside the partition. */
  lemma {:induction false} TornStaysInside(image: Image, off: nat, rs: seq<Record>, n: nat)
    requires AllStorable(rs)
    requires n <= |SerialAll(rs)| && off + |SerialAll(rs)| <= |image|
    requires Holds(image, off, SerialAll(rs)[..n]) && BlankFrom(image, off + n)
    ensures Parse(image, off) != Outside
    decreases |rs|
  {
    hide BlankFrom, AllStorable, Holds, Parse, Serial, SerialAll, Size, Storable;
    SerialNone();
    if n == 0 {
      ParseBlank(image, off);
    } else {
      var r, rest := rs[0], rs[1..];
      FirstOf(rs);
      if Size(r) <= n {
        var written := SerialAll(rest)[..n - Size(r)];
        assert SerialAll(rs)[..n] == Serial(r) + written;
        HoldsParts(image, off, Serial(r), written);
        ParseRecord(image, off, r);
        TornStaysInside(image, off + Size(r), rest, n - Size(r));
      } else {
        assert SerialAll(rs)[..n] == Serial(r)[..n];
        TornRecord(image, off, r, n);
      }
    }
  }

  lemma ParseBlank(image: Image, off: nat)
    requires off <= |image| && BlankFrom(image, off)
    ensures Parse(image, off) == Records([], off)
  {
    assert off < |image| ==> image[off] == ERASED;
  }

  /** A record cut short: its length reads as never written, or it ends where the whole one would have. */
  lemma TornRecord(image: Image, off: nat, r: Record, n: nat)
    requires Storable(r)
    requires 0 < n < Size(r) && off + Size(r) <= |image|
    requires Holds(image, off, Serial(r)[..n]) && BlankFrom(image, off + n)
    ensures Parse(image, off) != Outside
  {
    var s, k := Serial(r)[..n], |r.key|;
    SerialParts(r);
    hide Serial;
    assert image[off] == image[off..off + n][0] == s[0] == k;
    if n <= 2 + k {
      assert image[off + 2 + k] == ERASED;
    } else {
      assert image[off + 1 + k] == image[off..off + n][1 + k] == s[1 + k];
      assert image[off + 2 + k] == image[off..off + n][2 + k] == s[2 + k];
      assert DataLen(image, off + 1 + k) == |r.data|;
      assert off + Size(r) < |image| ==> image[off + Size(r)] == ERASED;
    }
  }

  /**
   * THE ASSUMPTION of every power-loss statement about mmconfig: the checksum tells the records of this update from
   * what a walk finds when only some of the bytes were written. (ByteChangeDetected is what holds without it.)
   */
  ghost predicate ChecksumTells(version: Word, rs: seq<Record>, size: nat)
    requires |Stream(version, rs)| <= size
  {
    forall cut :: HEADER <= cut < |Stream(version, rs)| ==> ToldApart(version, rs, size, cut)
  }

  ghost predicate ToldApart(version: Word, rs: seq<Record>, size: nat, cut: nat)
    requires HEADER <= cut < |Stream(version, rs)| <= size
  {
    var image := Padded(Stream(version, rs)[..cut], size);
    var walk := Parse(image, HEADER);
    walk.Records? && HEADER <= walk.end <= size ==>
      Checksum(image[HEADER..walk.end]) == Checksum(SerialAll(rs)) ==> image[HEADER..walk.end] == SerialAll(rs)
  }

  /**
   * Nothing of a header that was not completely written passes for one: neither a partial signature, nor a blank or
   * half written checksum, since the checksum of no records does not end in an erased byte.
   */
  lemma TornHeader(version: Word, rs: seq<Record>, size: nat, cut: nat)
    requires cut < HEADER && |Stream(version, rs)| <= size
    ensures Judge(Padded(Stream(version, rs)[..cut], size)) == InvalidPartition
  {
    hide Le32, Fold, Serial, SerialAll, Stream;
    StreamParts(version, rs);
    var s, image := Stream(version, rs), Padded(Stream(version, rs)[..cut], size);
    assert forall i :: cut <= i < size ==> image[i] == ERASED;
    assert image[HEADER] == ERASED;
    assert image[HEADER..HEADER] == [];
    FoldNothing(SEED);
    if cut < 4 {
      assert image[3] == ERASED;
    } else {
      assert image[11] == ERASED;
      assert AsWord(SEED) == 0xdfb7_f3e1;
    }
  }

  /** Power loss while writing: what is left is rejected, or is all of it. */
  lemma TornRejected(version: Word, rs: seq<Record>, size: nat, cut: nat)
    requires AllStorable(rs) && cut < |Stream(version, rs)| <= size
    requires ChecksumTells(version, rs, size)
    ensures var image := Padded(Stream(version, rs)[..cut], size);
            && Judge(image) != ReadsOutside
            && (IsValid(image) ==> image == Padded(Stream(version, rs), size))
  {
    hide Checksum, SerialAll, Parse, Stream, WordAt;
    if cut < HEADER {
      TornHeader(version, rs, size, cut);
    } else {
      TornRecords(version, rs, size, cut);
    }
  }

  lemma TornRecords(version: Word, rs: seq<Record>, size: nat, cut: nat)
    requires AllStorable(rs) && HEADER <= cut < |Stream(version, rs)| <= size
    requires ToldApart(version, rs, size, cut)
    ensures var image := Padded(Stream(version, rs)[..cut], size);
            && Parse(image, HEADER) != Outside
            && (IsValid(image) ==> image == Padded(Stream(version, rs), size))
  {
    StreamParts(version, rs);
    hide Le32, Fold, AsWord, Serial, SerialAll, AllStorable, Parse, Stream, WordAt, Padded, BlankFrom;
    var s, body := Stream(version, rs), SerialAll(rs);
    var image, n := Padded(s[..cut], size), cut - HEADER;
    PaddedParts(s[..cut], size);
    TornBody(s, body, cut);
    assert Holds(image, HEADER, body[..n]) by {
      assert image[HEADER..cut] == s[..cut][HEADER..];
    }
    TornStaysInside(image, HEADER, rs, n);
    if IsValid(image) {
      assert image[8..12] == s[..cut][8..12] == s[8..12];
      WordRoundTrip(image, 8, Checksum(body));
      SameImage(s, body, size, cut);
    }
  }

  lemma PaddedParts(written: seq<Byte>, size: nat)
    requires |written| <= size
    ensures var image := Padded(written, size);
            && |image| == size && image[..|written|] == written && BlankFrom(image, |written|)
            && forall i, j :: 0 <= i <= j <= |written| ==> image[i..j] == written[i..j]
  {
  }

  lemma TornBody(s: seq<Byte>, body: seq<Byte>, cut: nat)
    requires HEADER <= cut < |s| == HEADER + |body| + 1
    requires s[HEADER..HEADER + |body|] == body
    ensures s[..cut][HEADER..] == body[..cut - HEADER]
  {
  }

  lemma SameImage(s: seq<Byte>, body: seq<Byte>, size: nat, cut: nat)
    requires |s| == HEADER + |body| + 1 <= size && HEADER <= cut < |s|
    requires s[HEADER..HEADER + |body|] == body && s[HEADER + |body|] == ERASED
    requires Padded(s[..cut], size)[HEADER..HEADER + |body|] == body
    ensures Padded(s[..cut], size) == Padded(s, size)
  {
    var a, b := Padded(s[..cut], size), Padded(s, size);
    forall i | 0 <= i < size ensures a[i] == b[i] {
      if HEADER <= i < HEADER + |body| {
        assert a[i] == body[i - HEADER] == s[HEADER..HEADER + |body|][i - HEADER] == s[i];
      }
    }
  }
}
