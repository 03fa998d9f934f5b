/**
 * The 32-bit tags of the metadata log: their fields (littlefs/lfs.c:352-392), the chaining of neighbours
 * (lfs.c:667-676, 1098-1113, 1537-1562) and the bit that marks the end of the log (lfs.c:1597-1640).
 */
module Tags {

  type Word = bv32

  function MkTag(ty: Word, id: Word, size: Word): (r: Word) {
    (ty << 20) | (id << 10) | size
  }

  function Type3(t: Word): (r: Word) { (t & 0x7ff00000) >> 20 }

  function Id(t: Word): (r: Word) { (t & 0x000ffc00) >> 10 }

  function Size(t: Word): (r: Word) { t & 0x3ff }

  predicate IsValid(t: Word) { t & 0x80000000 == 0 }

  /** Fields survive packing. */
  lemma FieldsOfMkTag(ty: Word, id: Word, size: Word)
    requires ty <= 0x7ff && id <= 0x3ff && size <= 0x3ff
    ensures Type3(MkTag(ty, id, size)) == ty && Id(MkTag(ty, id, size)) == id && Size(MkTag(ty, id, size)) == size
    ensures IsValid(MkTag(ty, id, size))
  {
  }

  /** Adding to the id field as a number moves the id and nothing else, as long as it does not overflow. */
  lemma AddToId(t: Word, d: Word)
    requires d <= 0x3ff && Id(t) + d <= 0x3ff
    ensures Id(t + (d << 10)) == Id(t) + d
    ensures Type3(t + (d << 10)) == Type3(t) && Size(t + (d << 10)) == Size(t)
  {
  }

  function Raised(t: Word, d: Word): (r: Word) { t + (d << 10) }

  function Lowered(t: Word, d: Word): (r: Word) { t - (d << 10) }

  /** The same downwards, for the running difference of a lookup past a delete, as long as the id stays at least 0. */
  lemma SubtractFromId(t: Word, d: Word)
    requires d <= Id(t)
    ensures Id(Lowered(t, d)) == Less(Id(t), d)
    ensures Type3(Lowered(t, d)) == Type3(t) && Size(Lowered(t, d)) == Size(t)
  {
    hide Id, Type3, Size, Top, Raised, Lowered, Less, WithId;
    IdRange(t);
    LessRange(Id(t), d);
    var u := WithId(t, Less(Id(t), d));
    WithIdFields(t, Less(Id(t), d));
    RaisedFields(u, d, Id(t));
    FieldsDetermine(t, Raised(u, d));
    Undo(u, d);
  }

  function Less(i: Word, d: Word): (r: Word) { i - d }

  function Top(t: Word): (r: Word) { t & 0x80000000 }

  function WithId(t: Word, id: Word): (r: Word) { (t & 0xfff003ff) | (id << 10) }

  lemma IdRange(t: Word)
    ensures Id(t) <= 0x3ff
  {
  }

  lemma LessRange(i: Word, d: Word)
    requires d <= i <= 0x3ff
    ensures Less(i, d) <= 0x3ff
  {
  }

  lemma WithIdFields(t: Word, id: Word)
    requires id <= 0x3ff
    ensures var u := WithId(t, id);
            Id(u) == id && Type3(u) == Type3(t) && Size(u) == Size(t) && Top(u) == Top(t)
  {
  }

  lemma RaisedFields(t: Word, d: Word, i: Word)
    requires d <= i <= 0x3ff && Id(t) == Less(i, d)
    ensures var u := Raised(t, d);
            Id(u) == i && Type3(u) == Type3(t) && Size(u) == Size(t) && Top(u) == Top(t)
  {
  }

  lemma FieldsDetermine(t: Word, u: Word)
    requires Type3(t) == Type3(u) && Id(t) == Id(u) && Size(t) == Size(u) && Top(t) == Top(u)
    ensures t == u
  {
  }

  lemma Undo(u: Word, d: Word)
    ensures Lowered(Raised(u, d), d) == u
  {
    hide Lowered;
    UndoSum(u, d);
    assert Raised(u, d) == u + (d << 10);
  }

  lemma UndoSum(u: Word, d: Word)
    ensures Lowered(u + (d << 10), d) == u
  {
  }

  /** The masked comparison of lookups compares exactly the masked type bits and the ids. */
  lemma MaskedCompare(mask: Word, t: Word, u: Word)
    requires mask <= 0x7ff
    ensures MkTag(mask, 0x3ff, 0) & t == MkTag(mask, 0x3ff, 0) & u
       <==> (mask & Type3(t) == mask & Type3(u) && Id(t) == Id(u))
  {
    MaskedParts(mask, t);
    MaskedParts(mask, u);
    FieldRange(mask, t);
    FieldRange(mask, u);
    FieldsOfMkTag(mask & Type3(t), Id(t), 0);
    FieldsOfMkTag(mask & Type3(u), Id(u), 0);
    hide MkTag, Type3, Id;
  }

  lemma FieldRange(mask: Word, t: Word)
    requires mask <= 0x7ff
    ensures mask & Type3(t) <= 0x7ff && Id(t) <= 0x3ff
  {
  }

  lemma MaskedParts(mask: Word, t: Word)
    requires mask <= 0x7ff
    ensures MkTag(mask, 0x3ff, 0) & t == MkTag(mask & Type3(t), Id(t), 0)
  {
  }

  // ----- Chaining -----

  function Xor(a: Word, b: Word): (r: Word) { a ^ b }

  /** A tag as it is remembered for its successor: without the valid bit. */
  function Plain(t: Word): (r: Word) { t & 0x7fffffff }

  /** The words that lfs_dir_commitattr writes for a run of tags behind ptag. */
  function Chain(ptag: Word, tags: seq<Word>): (ws: seq<Word>)
    ensures |ws| == |tags|
    decreases |tags|
  {
    if tags == [] then [] else [Xor(Plain(tags[0]), ptag)] + Chain(Plain(tags[0]), tags[1..])
  }

  /** Reading forwards, as lfs_dir_fetchmatch and lfs_dir_traverse do. */
  function Forward(ptag: Word, words: seq<Word>): (r: seq<Word>)
    decreases |words|
  {
    if words == [] then [] else [Xor(words[0], ptag)] + Forward(Xor(words[0], ptag), words[1..])
  }

  /** Reading backwards from the last tag, as lfs_dir_getslice does: the tags, and the one before them. */
  function Backward(etag: Word, words: seq<Word>): (r: (Word, seq<Word>))
    decreases |words|
  {
    if words == [] then (etag, [])
    else
      var n := |words| - 1;
      var (first, rest) := Backward(Plain(Xor(words[n], etag)), words[..n]);
      (first, rest + [etag])
  }

  function AllPlain(tags: seq<Word>): (ps: seq<Word>)
    ensures |ps| == |tags| && forall i :: 0 <= i < |tags| ==> ps[i] == Plain(tags[i])
  {
    seq(|tags|, i requires 0 <= i < |tags| => Plain(tags[i]))
  }

  lemma Cancel(a: Word, b: Word)
    ensures Xor(Xor(a, b), b) == a && Xor(Xor(a, b), a) == b
    ensures Plain(Plain(a)) == Plain(a)
  {
    Associative(a, b, b);
    Commutes(a, b);
    Associative(b, a, a);
    Identity(a, b);
    PlainTwice(a);
    hide Xor, Plain;
  }

  lemma Associative(a: Word, b: Word, c: Word)
    ensures Xor(Xor(a, b), c) == Xor(a, Xor(b, c))
  {
  }

  lemma Commutes(a: Word, b: Word)
    ensures Xor(a, b) == Xor(b, a)
  {
  }

  lemma Identity(a: Word, b: Word)
    ensures Xor(a, a) == 0 && Xor(b, b) == 0 && Xor(a, 0) == a && Xor(b, 0) == b
  {
  }

  lemma PlainTwice(a: Word)
    ensures Plain(Plain(a)) == Plain(a)
  {
  }

  /** Reading forwards recovers the tags. */
  lemma {:induction false} ForwardReads(ptag: Word, tags: seq<Word>)
    ensures Forward(ptag, Chain(ptag, tags)) == AllPlain(tags)
    decreases |tags|
  {
    if tags != [] {
      hide Xor, Plain;
      Cancel(Plain(tags[0]), ptag);
      ForwardReads(Plain(tags[0]), tags[1..]);
      assert Chain(ptag, tags)[1..] == Chain(Plain(tags[0]), tags[1..]);
      assert AllPlain(tags) == [Plain(tags[0])] + AllPlain(tags[1..]);
    }
  }

  function LastTag(ptag: Word, tags: seq<Word>): (r: Word) {
    if tags == [] then ptag else Plain(tags[|tags| - 1])
  }

  lemma {:induction false} ChainSnoc(ptag: Word, tags: seq<Word>, t: Word)
    ensures Chain(ptag, tags + [t]) == Chain(ptag, tags) + [Xor(Plain(t), LastTag(ptag, tags))]
    decreases |tags|
  {
    hide Xor, Plain, Chain;
    ChainFirst(ptag, tags);
    ChainFirst(ptag, tags + [t]);
    if tags == [] {
      assert (tags + [t])[1..] == [];
      ChainFirst(Plain(t), []);
    } else {
      assert (tags + [t])[0] == tags[0] && (tags + [t])[1..] == tags[1..] + [t];
      ChainSnoc(Plain(tags[0]), tags[1..], t);
    }
  }

  lemma ChainFirst(ptag: Word, tags: seq<Word>)
    ensures tags == [] ==> Chain(ptag, tags) == []
    ensures tags != [] ==> Chain(ptag, tags) == [Xor(Plain(tags[0]), ptag)] + Chain(Plain(tags[0]), tags[1..])
  {
    hide Xor, Plain;
  }

  /** Reading backwards from the last tag recovers the same tags, and the one before the first. */
  lemma {:induction false} BackwardReads(ptag: Word, tags: seq<Word>)
    requires Plain(ptag) == ptag
    ensures Backward(LastTag(ptag, tags), Chain(ptag, tags)) == (ptag, AllPlain(tags))
    decreases |tags|
  {
    hide Xor, Plain;
    if tags != [] {
      var n := |tags| - 1;
      if n > 0 {
        PlainTwice(tags[n - 1]);
      }
      var init := tags[..n];
      assert tags == init + [tags[n]];
      ChainSnoc(ptag, init, tags[n]);
      Cancel(Plain(tags[n]), LastTag(ptag, init));
      BackwardReads(ptag, init);
      assert Chain(ptag, tags)[..n] == Chain(ptag, init);
      assert AllPlain(tags) == AllPlain(init) + [Plain(tags[n])];
    }
  }

  // ----- The end of the log -----

  /** The tag of a checksum: its lowest type bit says whether the valid bit of the next word is inverted. */
  function CcrcTag(erased: bv8, size: Word): (r: Word) {
    MkTag(0x500 + (((!erased) >> 7) as Word), 0x3ff, size)
  }

  /** What the writer remembers for the next tag. */
  function WriterPtag(erased: bv8, size: Word): (r: Word) {
    Xor(CcrcTag(erased, size), (((0x80 & !erased) as Word) << 24))
  }

  /** What a scan remembers after reading that checksum tag. */
  function ReaderPtag(tag: Word): (r: Word) {
    Xor(tag, (((tag & 0x0ff00000) >> 20) & 1) << 31)
  }

  /** Writer and reader agree. */
  lemma PtagsAgree(erased: bv8, size: Word)
    requires size <= 0x3ff
    ensures ReaderPtag(CcrcTag(erased, size)) == WriterPtag(erased, size)
  {
  }

  /** Whatever an erased unit looks like, a scan reads its first word as invalid: the log ends there. */
  lemma ErasedEndsLog(erased: bv8, size: Word, w: Word)
    requires size <= 0x3ff && w >> 24 == erased as Word
    ensures !IsValid(Xor(w, WriterPtag(erased, size)))
  {
  }

  /** A tag written there reads back valid, and its first byte differs from the erased one. */
  lemma TagContinuesLog(erased: bv8, size: Word, tag: Word)
    requires size <= 0x3ff
    ensures var w := Xor(Plain(tag), WriterPtag(erased, size));
            IsValid(Xor(w, WriterPtag(erased, size))) && Xor(w, WriterPtag(erased, size)) == Plain(tag)
            && w >> 24 != erased as Word
  {
  }
}
