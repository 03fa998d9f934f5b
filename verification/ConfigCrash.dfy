/**
 * Power loss and the mmconfig store: the flash operations of an update, one by one, and what mmconfig_init makes of
 * whatever they left behind (mmconfig/mmconfig.c:468-595, 810-974).
 */
module ConfigCrash {
  import opened Basics
  import Bits
  import opened ConfigFormat
  import opened ConfigUpdate

  // ----- Flash operations -----

  datatype Op = Erase(off: nat, n: nat) | Write(off: nat, data: seq<Byte>)

  predicate Fits(op: Op, size: nat) {
    match op
    case Erase(off, n) => off + n <= size
    case Write(off, data) => off + |data| <= size
  }

  predicate FitAll(ops: seq<Op>, size: nat) {
    forall i :: 0 <= i < |ops| ==> Fits(ops[i], size)
  }

  function Overlay(image: Image, off: nat, bytes: seq<Byte>): (r: Image)
    requires off + |bytes| <= |image|
    ensures |r| == |image|
  {
    image[..off] + bytes + image[off + |bytes|..]
  }

  function Do(image: Image, op: Op): (r: Image)
    requires Fits(op, |image|)
    ensures |r| == |image|
  {
    match op
    case Erase(off, n) => Overlay(image, off, Blank(n))
    case Write(off, data) => Overlay(image, off, data)
  }

  function DoAll(image: Image, ops: seq<Op>): (r: Image)
    requires FitAll(ops, |image|)
    ensures |r| == |image|
  {
    if ops == [] then image else Do(DoAll(image, ops[..|ops| - 1]), ops[|ops| - 1])
  }

  lemma {:induction false} DoAllConcat(image: Image, a: seq<Op>, b: seq<Op>)
    requires FitAll(a, |image|) && FitAll(b, |image|)
    ensures FitAll(a + b, |image|) && DoAll(image, a + b) == DoAll(DoAll(image, a), b)
    decreases |b|
  {
    hide Do, Fits;
    if b == [] {
      assert a + b == a;
    } else {
      var front, last := b[..|b| - 1], b[|b| - 1];
      DoAllConcat(image, a, front);
      assert (a + b)[..|a + b| - 1] == a + front && (a + b)[|a + b| - 1] == last;
    }
  }

  lemma DoAllSnoc(image: Image, ops: seq<Op>, op: Op)
    requires FitAll(ops, |image|) && Fits(op, |image|)
    ensures FitAll(ops + [op], |image|) && DoAll(image, ops + [op]) == Do(DoAll(image, ops), op)
  {
    hide Do, Fits;
    assert (ops + [op])[..|ops|] == ops;
  }

  /** mmconfig_erase_partition, up to an offset */
  function Erases(upTo: nat, block: nat): (r: seq<Op>)
    requires 0 < block
    decreases upTo
  {
    if upTo < block then [] else Erases(upTo - block, block) + [Erase(upTo - block, block)]
  }

  const CHUNK: nat := 128

  /** The full staging buffers that leave for flash while a stream is written. */
  function Chunks(s: seq<Byte>, upTo: nat): (r: seq<Op>)
    requires upTo <= |s|
    decreases upTo
  {
    if upTo < CHUNK then [] else Chunks(s, upTo - CHUNK) + [Write(upTo - CHUNK, s[upTo - CHUNK..upTo])]
  }

  function Full(n: nat): (f: nat)
    ensures f <= n < f + CHUNK && f % CHUNK == 0
  {
    n - n % CHUNK
  }

  /** All writes of a stream: full buffers, then the rest, which may be empty. */
  function Writes(s: seq<Byte>): (r: seq<Op>) {
    Chunks(s, Full(|s|)) + [Write(Full(|s|), s[Full(|s|)..])]
  }

  function UpdateOps(size: nat, block: nat, s: seq<Byte>): (r: seq<Op>)
    requires 0 < block
  {
    Erases(size, block) + Writes(s)
  }

  lemma {:induction false} ErasesDone(image: Image, upTo: nat, block: nat)
    requires 0 < block && upTo <= |image| && upTo % block == 0
    ensures FitAll(Erases(upTo, block), |image|)
    ensures DoAll(image, Erases(upTo, block)) == Blank(upTo) + image[upTo..]
    decreases upTo
  {
    if upTo < block {
      SmallMultiple(upTo, block);
      assert Blank(0) + image[0..] == image;
    } else {
      SmallerMultiple(upTo, block);
      ErasesDone(image, upTo - block, block);
      hide Fits, Do, DoAll;
      FitsErase(upTo - block, block, |image|);
      DoAllSnoc(image, Erases(upTo - block, block), Erase(upTo - block, block));
      EraseNext(image, upTo - block, block);
    }
  }

  lemma FitsErase(off: nat, n: nat, size: nat)
    requires off + n <= size
    ensures Fits(Erase(off, n), size)
  {
  }

  lemma SmallMultiple(upTo: nat, block: nat)
    requires upTo < block && upTo % block == 0
    ensures upTo == 0
  {
  }

  lemma SmallerMultiple(upTo: nat, block: nat)
    requires 0 < block <= upTo && upTo % block == 0
    ensures (upTo - block) % block == 0
  {
    assert upTo == (upTo / block) * block;
    Bits.DivExact(upTo - block, upTo / block - 1, block);
  }

  lemma EraseNext(image: Image, off: nat, n: nat)
    requires off + n <= |image|
    ensures Do(Blank(off) + image[off..], Erase(off, n)) == Blank(off + n) + image[off + n..]
  {
    var before := Blank(off) + image[off..];
    assert before[..off] == Blank(off);
    assert before[off + n..] == image[off + n..];
    assert Blank(off) + Blank(n) == Blank(off + n);
  }

  lemma ChunkStep(s: seq<Byte>, upTo: nat)
    requires upTo <= |s| && upTo % CHUNK == 0
    ensures upTo < CHUNK ==> upTo == 0 && Chunks(s, upTo) == []
    ensures upTo >= CHUNK ==>
              var off := upTo - CHUNK;
              off % CHUNK == 0 && Chunks(s, upTo) == Chunks(s, off) + [Write(off, s[off..upTo])]
  {
  }

  lemma NothingWritten(size: nat, s: seq<Byte>)
    ensures FitAll([], size) && DoAll(Blank(size), []) == Padded(s[..0], size)
  {
    assert Padded([], size) == Blank(size);
  }

  lemma FitsWrite(off: nat, data: seq<Byte>, size: nat)
    requires off + |data| <= size
    ensures Fits(Write(off, data), size)
  {
  }

  lemma {:induction false} ChunksDone(size: nat, s: seq<Byte>, upTo: nat)
    requires upTo <= |s| <= size && upTo % CHUNK == 0
    ensures FitAll(Chunks(s, upTo), size)
    ensures DoAll(Blank(size), Chunks(s, upTo)) == Padded(s[..upTo], size)
    decreases upTo
  {
    hide Fits, FitAll, Do, DoAll, Padded, Blank, Chunks;
    ChunkStep(s, upTo);
    if upTo < CHUNK {
      NothingWritten(size, s);
    } else {
      var off := upTo - CHUNK;
      ChunksDone(size, s, off);
      FitsWrite(off, s[off..upTo], size);
      BlankLength(size);
      DoAllSnoc(Blank(size), Chunks(s, off), Write(off, s[off..upTo]));
      WriteNext(size, s, off, upTo);
    }
  }

  lemma BlankLength(size: nat)
    ensures |Blank(size)| == size
  {
  }

  lemma WriteNext(size: nat, s: seq<Byte>, off: nat, upTo: nat)
    requires off <= upTo <= |s| <= size
    ensures Do(Padded(s[..off], size), Write(off, s[off..upTo])) == Padded(s[..upTo], size)
  {
    var before := Padded(s[..off], size);
    assert before[..off] == s[..off];
    assert before[upTo..] == Blank(size - upTo);
    assert s[..off] + s[off..upTo] == s[..upTo];
  }

  /** A prefix of the erases is all erases up to some block. */
  lemma {:induction false} PrefixErases(upTo: nat, block: nat, k: nat) returns (off: nat)
    requires 0 < block && upTo % block == 0 && k <= |Erases(upTo, block)|
    ensures off <= upTo && off % block == 0
    ensures Erases(upTo, block)[..k] == Erases(off, block)
    ensures k == 0 ==> off == 0
    ensures k > 0 ==> off >= block
    ensures k == |Erases(upTo, block)| ==> off == upTo
    ensures k < |Erases(upTo, block)| ==> Erases(upTo, block)[k] == Erase(off, block)
    decreases upTo
  {
    if k == |Erases(upTo, block)| {
      off := upTo;
      if k == 0 {
        SmallMultiple(upTo, block);
      }
    } else {
      SmallerMultiple(upTo, block);
      if k == |Erases(upTo, block)| - 1 {
        off := upTo - block;
        if k == 0 {
          SmallMultiple(off, block);
        }
      } else {
        off := PrefixErases(upTo - block, block, k);
      }
    }
  }

  lemma SnocPrefix(ops: seq<Op>, op: Op, k: nat)
    requires k <= |ops|
    ensures (ops + [op])[..k] == ops[..k]
    ensures (ops + [op])[k] == if k < |ops| then ops[k] else op
  {
  }

  lemma {:induction false} PrefixChunks(s: seq<Byte>, upTo: nat, k: nat) returns (off: nat)
    requires upTo <= |s| && upTo % CHUNK == 0 && k <= |Chunks(s, upTo)|
    ensures off <= upTo && off % CHUNK == 0
    ensures Chunks(s, upTo)[..k] == Chunks(s, off)
    ensures k == |Chunks(s, upTo)| ==> off == upTo
    ensures k < |Chunks(s, upTo)| ==> off + CHUNK <= upTo && Chunks(s, upTo)[k] == Write(off, s[off..off + CHUNK])
    decreases upTo
  {
    hide Chunks;
    ChunkStep(s, upTo);
    if k == |Chunks(s, upTo)| {
      off := upTo;
      assert Chunks(s, upTo)[..k] == Chunks(s, upTo);
    } else {
      var front, op := Chunks(s, upTo - CHUNK), Write(upTo - CHUNK, s[upTo - CHUNK..upTo]);
      SnocPrefix(front, op, k);
      off := PrefixChunks(s, upTo - CHUNK, k);
    }
  }

  // ----- Power loss -----

  /** The bytes of a write that got out; an erase of a block happens or does not. */
  function Torn(op: Op, n: nat): (r: Op) {
    match op
    case Erase(off, ignored) => Erase(off, 0)
    case Write(off, data) => Write(off, if n < |data| then data[..n] else data)
  }

  lemma TornFits(op: Op, n: nat, size: nat)
    requires Fits(op, size)
    ensures Fits(Torn(op, n), size)
  {
  }

  /** Power is lost in operation k, of which n bytes were written. */
  function CrashImage(image: Image, ops: seq<Op>, k: nat, n: nat): (r: Image)
    requires FitAll(ops, |image|)
  {
    if k < |ops| then
      TornFits(ops[k], n, |image|);
      Do(DoAll(image, ops[..k]), Torn(ops[k], n))
    else DoAll(image, ops)
  }

  /** Flash in which at least the block of the header was erased. */
  predicate Beheaded(image: Image) {
    |image| >= HEADER && image[3] == ERASED
  }

  lemma BeheadedInvalid(image: Image)
    requires Beheaded(image)
    ensures Judge(image) == InvalidPartition
  {
  }

  lemma ErasureBeheads(image: Image, off: nat)
    requires HEADER <= |image| && 4 <= off <= |image|
    ensures Beheaded(Blank(off) + image[off..])
  {
  }

  lemma UpdateOpsDone(old_: Image, block: nat, s: seq<Byte>)
    requires 0 < block && |old_| % block == 0 && |s| <= |old_|
    ensures FitAll(UpdateOps(|old_|, block, s), |old_|)
    ensures DoAll(old_, UpdateOps(|old_|, block, s)) == Padded(s, |old_|)
  {
    var size, full := |old_|, Full(|s|);
    ErasesDone(old_, size, block);
    assert Blank(size) + old_[size..] == Blank(size);
    WritesDone(size, s);
    DoAllConcat(old_, Erases(size, block), Writes(s));
  }

  /** The operations of an update stay inside the partition exactly if the stream fits it. */
  lemma OpsFit(size: nat, block: nat, s: seq<Byte>)
    requires 0 < block && size % block == 0
    ensures FitAll(UpdateOps(size, block, s), size) <==> |s| <= size
  {
    if |s| <= size {
      BlankLength(size);
      UpdateOpsDone(Blank(size), block, s);
    } else {
      var ops := UpdateOps(size, block, s);
      assert ops[|ops| - 1] == Write(Full(|s|), s[Full(|s|)..]);
      assert !Fits(ops[|ops| - 1], size);
    }
  }

  lemma WritesDone(size: nat, s: seq<Byte>)
    requires |s| <= size
    ensures FitAll(Writes(s), size) && DoAll(Blank(size), Writes(s)) == Padded(s, size)
  {
    var full := Full(|s|);
    ChunksDone(size, s, full);
    assert Fits(Write(full, s[full..]), size);
    hide Fits, Do, DoAll, Chunks, Padded;
    DoAllSnoc(Blank(size), Chunks(s, full), Write(full, s[full..]));
    WriteNext(size, s, full, |s|);
    assert s[..|s|] == s;
  }

  /** Wherever the writes of a stream are cut, flash holds a prefix of it. */
  lemma CutWrites(size: nat, s: seq<Byte>, k: nat, n: nat) returns (cut: nat)
    requires |s| <= size
    ensures FitAll(Writes(s), size)
    ensures cut <= |s| && CrashImage(Blank(size), Writes(s), k, n) == Padded(s[..cut], size)
    ensures k >= |Writes(s)| ==> cut == |s|
  {
    hide Fits, FitAll, Do, DoAll, Chunks, Padded, Blank, Writes;
    WritesDone(size, s);
    BlankLength(size);
    if k >= |Writes(s)| {
      cut := |s|;
      assert s[..|s|] == s;
    } else {
      var off, upTo := PrefixWrites(s, k);
      cut := off + if n < upTo - off then n else upTo - off;
      ChunksDone(size, s, off);
      assert s[off..upTo][..cut - off] == s[off..cut];
      WriteNext(size, s, off, cut);
    }
  }

  /** What was written in front of some operation, and what it writes. */
  lemma PrefixWrites(s: seq<Byte>, k: nat) returns (off: nat, upTo: nat)
    requires k < |Writes(s)|
    ensures off <= upTo <= |s| && off % CHUNK == 0
    ensures Writes(s)[..k] == Chunks(s, off) && Writes(s)[k] == Write(off, s[off..upTo])
  {
    hide Chunks;
    var full := Full(|s|);
    off := PrefixChunks(s, full, k);
    SnocPrefix(Chunks(s, full), Write(full, s[full..]), k);
    upTo := if k < |Chunks(s, full)| then off + CHUNK else |s|;
    assert s[full..] == s[full..|s|];
  }

  /**
   * Power loss anywhere in an update: the secondary partition is as it was, has lost its header, or holds a prefix of
   * the new image.
   */
  lemma CutUpdate(old_: Image, block: nat, s: seq<Byte>, k: nat, n: nat) returns (cut: nat)
    requires 4 <= block && HEADER <= |old_| && |old_| % block == 0 && |s| <= |old_|
    ensures FitAll(UpdateOps(|old_|, block, s), |old_|) && cut <= |s|
    ensures var image := CrashImage(old_, UpdateOps(|old_|, block, s), k, n);
            image == old_ || Beheaded(image) || image == Padded(s[..cut], |old_|)
    ensures k >= |UpdateOps(|old_|, block, s)| ==>
              CrashImage(old_, UpdateOps(|old_|, block, s), k, n) == Padded(s, |old_|)
  {
    hide Fits, FitAll, Do, DoAll, Erases, Writes, UpdateOps, CrashImage, Padded, Beheaded;
    UpdateOpsDone(old_, block, s);
    if k < |Erases(|old_|, block)| {
      cut := 0;
      CutErases(old_, block, s, k, n);
      ErasesOnly(old_, block, s, k);
    } else {
      cut := CutAfterErases(old_, block, s, k, n);
    }
  }

  lemma ErasesOnly(old_: Image, block: nat, s: seq<Byte>, k: nat)
    requires 0 < block && k < |Erases(|old_|, block)|
    ensures k < |UpdateOps(|old_|, block, s)|
  {
  }

  lemma CutErases(old_: Image, block: nat, s: seq<Byte>, k: nat, n: nat)
    requires 4 <= block && HEADER <= |old_| && |old_| % block == 0
    requires k < |Erases(|old_|, block)| && FitAll(UpdateOps(|old_|, block, s), |old_|)
    ensures var image := CrashImage(old_, UpdateOps(|old_|, block, s), k, n);
            image == old_ || Beheaded(image)
  {
    hide Fits, FitAll, Do, DoAll, Erases, Writes, Beheaded, Blank;
    var size, ops := |old_|, UpdateOps(|old_|, block, s);
    var off := PrefixErases(size, block, k);
    ErasesDone(old_, off, block);
    assert ops[..k] == Erases(size, block)[..k] && ops[k] == Erases(size, block)[k];
    BlankLength(off);
    EraseNothing(Blank(off) + old_[off..], off);
    if k == 0 {
      BlankLength(0);
      assert Blank(0) + old_[0..] == old_;
    } else {
      ErasureBeheads(old_, off);
    }
  }

  lemma CutAfterErases(old_: Image, block: nat, s: seq<Byte>, k: nat, n: nat) returns (cut: nat)
    requires 0 < block && |old_| % block == 0 && |s| <= |old_|
    requires |Erases(|old_|, block)| <= k && FitAll(UpdateOps(|old_|, block, s), |old_|)
    ensures cut <= |s|
    ensures CrashImage(old_, UpdateOps(|old_|, block, s), k, n) == Padded(s[..cut], |old_|)
    ensures k >= |UpdateOps(|old_|, block, s)| ==> cut == |s|
    ensures cut == |s| ==> s[..cut] == s
  {
    hide Fits, FitAll, Do, DoAll, Erases, Writes, Padded, Blank;
    var size, erases, writes, j := |old_|, Erases(|old_|, block), Writes(s), k - |Erases(|old_|, block)|;
    BlankLength(size);
    cut := CutWrites(size, s, j, n);
    ErasesDone(old_, size, block);
    assert Blank(size) + old_[size..] == Blank(size);
    DoAllConcat(old_, erases, writes);
    if j < |writes| {
      assert (erases + writes)[..k] == erases + writes[..j] && (erases + writes)[k] == writes[j];
      FitsPrefix(writes, j, size);
      DoAllConcat(old_, erases, writes[..j]);
    }
    if cut == |s| {
      assert s[..cut] == s;
    }
  }

  lemma FitsPrefix(ops: seq<Op>, k: nat, size: nat)
    requires FitAll(ops, size) && k <= |ops|
    ensures FitAll(ops[..k], size)
  {
  }

  lemma EraseNothing(image: Image, off: nat)
    requires off <= |image|
    ensures Do(image, Erase(off, 0)) == image
  {
    assert Blank(0) == [];
  }

  /** Power loss anywhere in an update, as the validation sees it: old, rejected, or new and complete. */
  lemma CutUpdateAccepted(old_: Image, block: nat, version: Word, rs: seq<Record>, k: nat, n: nat)
    requires 4 <= block && HEADER <= |old_| && |old_| % block == 0
    requires AllStorable(rs) && |Stream(version, rs)| <= |old_| && ChecksumTells(version, rs, |old_|)
    ensures var size, s := |old_|, Stream(version, rs);
            && FitAll(UpdateOps(size, block, s), size)
            && var image := CrashImage(old_, UpdateOps(size, block, s), k, n);
               && |image| == size
               && (image == old_ || Judge(image) == InvalidPartition || image == Padded(s, size))
               && (k >= |UpdateOps(size, block, s)| ==> image == Padded(s, size))
  {
    hide Stream, UpdateOps, CrashImage, Judge, Padded, ChecksumTells, AllStorable;
    var size, s := |old_|, Stream(version, rs);
    var cut := CutUpdate(old_, block, s, k, n);
    var image := CrashImage(old_, UpdateOps(size, block, s), k, n);
    CrashSize(old_, UpdateOps(size, block, s), k, n);
    if Beheaded(image) {
      BeheadedInvalid(image);
    } else if image == Padded(s[..cut], size) {
      if cut < |s| {
        TornRejected(version, rs, size, cut);
      } else {
        assert s[..|s|] == s;
      }
    }
  }

  lemma CrashSize(image: Image, ops: seq<Op>, k: nat, n: nat)
    requires FitAll(ops, |image|)
    ensures |CrashImage(image, ops, k, n)| == |image|
  {
  }
}
