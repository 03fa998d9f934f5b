/**
 * The padding arithmetic that closes a commit: how lfs_dir_commitcrc cuts the bytes up to the next program unit
 * into CRC tags, and where the forward CRC goes.
 */
module CommitCrc {
  import opened Basics
  import Bits

  /** A tag is four bytes; the size field of a CRC tag stops below 0x3ff, which means "deleted". */
  const TAG_BYTES: nat := 4
  const LARGEST_PAD: nat := 0x3fe

  /** A forward-CRC attribute: its tag, the size it covers and the CRC. */
  const FCRC_BYTES: nat := 12

  /** FCRC attribute, CRC tag, CRC word: what closing a commit in mid block needs. */
  const CLOSING_BYTES: nat := 20

  /**
   * A closed commit: where closing starts, the size field of its CRC tag, and whether a forward CRC precedes the tag.
   */
  datatype Closing = Closing(at: nat, size: nat, fcrc: bool) {
    function Next(): (r: nat) { at + (if fcrc then FCRC_BYTES else 0) + TAG_BYTES + size }
  }

  datatype Outcome = Closed | NoSpace

  /** lfs_alignup */
  function AlignUp(a: nat, alignment: nat): (r: nat)
    requires 0 < alignment
  {
    (a + alignment - 1) / alignment * alignment
  }

  lemma AlignUpBounds(a: nat, alignment: nat)
    requires 0 < alignment
    ensures a <= AlignUp(a, alignment) < a + alignment
    ensures AlignUp(a, alignment) % alignment == 0
  {
    var q := (a + alignment - 1) / alignment;
    assert a + alignment - 1 == q * alignment + (a + alignment - 1) % alignment;
    Bits.DivExact(q * alignment, q, alignment);
  }

  /** No aligned number lies strictly between two neighbouring ones. */
  lemma Neighbours(a: nat, b: nat, d: nat)
    requires 0 < d && a % d == 0 && b % d == 0 && a < b
    ensures a + d <= b
  {
    var i, j := a / d, b / d;
    assert a == i * d && b == j * d;
    if j <= i {
      Bits.MulMono(j, i, d);
    } else {
      Bits.MulMono(i + 1, j, d);
    }
  }

  /** The least aligned number that is not below a. */
  lemma AlignUpLeast(a: nat, alignment: nat, b: nat)
    requires 0 < alignment && b % alignment == 0 && a <= b
    ensures AlignUp(a, alignment) <= b
  {
    AlignUpBounds(a, alignment);
    if b < AlignUp(a, alignment) {
      Neighbours(b, AlignUp(a, alignment), alignment);
    }
  }

  /** A device geometry the source accepts, with room for 32-bit sums. */
  ghost predicate Geometry(blockSize: nat, progSize: nat) {
    && 0 < progSize <= blockSize < 0x8000_0000
    && blockSize % progSize == 0
  }

  /**
   * Where the closed commit ends: the first program boundary with room for the closing tags, or the end of the block.
   */
  function End(off: nat, blockSize: nat, progSize: nat): (r: nat)
    requires 0 < progSize
  {
    AlignUp(Min(off + CLOSING_BYTES, blockSize), progSize)
  }

  lemma EndBounds(off: nat, blockSize: nat, progSize: nat)
    requires Geometry(blockSize, progSize)
    requires off + 8 <= blockSize
    ensures off + 8 <= End(off, blockSize, progSize) <= blockSize
    ensures End(off, blockSize, progSize) % progSize == 0
    ensures End(off, blockSize, progSize) < blockSize ==> off + CLOSING_BYTES <= End(off, blockSize, progSize)
    ensures End(off, blockSize, progSize) < blockSize <==> End(off, blockSize, progSize) <= blockSize - progSize
  {
    AlignUpBounds(Min(off + CLOSING_BYTES, blockSize), progSize);
    AlignUpLeast(Min(off + CLOSING_BYTES, blockSize), progSize, blockSize);
    if End(off, blockSize, progSize) < blockSize {
      Neighbours(End(off, blockSize, progSize), blockSize, progSize);
    }
  }

  /**
   * One closing in front of others: it pads only where one tag cannot reach the end, as far as it can, but leaves
   * room to close again.
   */
  ghost predicate Padding(c: Closing, end: nat) {
    && 4 <= c.size <= LARGEST_PAD
    && !c.fcrc
    && c.at + TAG_BYTES + LARGEST_PAD < end
    && c.Next() + CLOSING_BYTES <= end
    && (c.size == LARGEST_PAD || c.Next() + CLOSING_BYTES == end)
  }

  ghost predicate Final(c: Closing, end: nat) {
    && 4 <= c.size <= LARGEST_PAD
    && end <= c.at + TAG_BYTES + LARGEST_PAD
    && c.Next() == end
  }

  /**
   * The closings follow one another from off to end, as a fetch steps over them by tag sizes; every size field is
   * legal and only the last may carry a forward CRC.
   */
  ghost predicate Fills(off: nat, closings: seq<Closing>, end: nat)
    decreases |closings|
  {
    if closings == [] then off == end
    else
      && closings[0].at == off
      && (if |closings| == 1 then Final(closings[0], end) else Padding(closings[0], end))
      && Fills(closings[0].Next(), closings[1..], end)
  }

  /** Every closing but the last, and where the next one starts. */
  ghost predicate Pads(off: nat, closings: seq<Closing>, next: nat, end: nat)
    decreases |closings|
  {
    if closings == [] then off == next
    else
      && closings[0].at == off
      && Padding(closings[0], end)
      && Pads(closings[0].Next(), closings[1..], next, end)
  }

  lemma {:induction false} PadsThen(off: nat, closings: seq<Closing>, c: Closing, end: nat)
    requires Pads(off, closings, c.at, end) && Padding(c, end)
    ensures Pads(off, closings + [c], c.Next(), end)
    decreases |closings|
  {
    if closings == [] {
      assert ([c])[1..] == [];
    } else {
      assert (closings + [c])[1..] == closings[1..] + [c];
      PadsThen(closings[0].Next(), closings[1..], c, end);
    }
  }

  lemma {:induction false} PadsThenCloses(off: nat, closings: seq<Closing>, c: Closing, end: nat)
    requires Pads(off, closings, c.at, end) && Final(c, end)
    ensures Fills(off, closings + [c], end)
    decreases |closings|
  {
    if closings == [] {
      assert ([c])[1..] == [];
    } else {
      assert (closings + [c])[1..] == closings[1..] + [c];
      PadsThenCloses(closings[0].Next(), closings[1..], c, end);
    }
  }

  /** Two cuttings of the same bytes that agree on the forward CRC are the same cutting. */
  lemma {:induction false} FillsUniquely(off: nat, a: seq<Closing>, b: seq<Closing>, end: nat)
    requires Fills(off, a, end) && Fills(off, b, end)
    requires off < end && (a[|a| - 1].fcrc <==> b[|b| - 1].fcrc)
    ensures a == b
    decreases |a|
  {
    if |a| > 1 && |b| > 1 {
      FillsUniquely(a[0].Next(), a[1..], b[1..], end);
      assert a == [a[0]] + a[1..] && b == [b[0]] + b[1..];
    } else {
      assert a == [a[0]] && b == [b[0]];
    }
  }

  /** Where the last of the closings starts: the ones before it are as long as they can be. */
  function LastStart(off: nat, end: nat): (r: nat)
    requires off + CLOSING_BYTES <= end
    ensures off <= r && r + CLOSING_BYTES <= end
    decreases end - off
  {
    if end <= off + TAG_BYTES + LARGEST_PAD then off
    else LastStart(Min(off + TAG_BYTES + LARGEST_PAD, end - CLOSING_BYTES), end)
  }

  lemma {:induction false} LastOfPads(off: nat, closings: seq<Closing>, next: nat, end: nat)
    requires Pads(off, closings, next, end)
    requires off + CLOSING_BYTES <= end && next + CLOSING_BYTES <= end <= next + TAG_BYTES + LARGEST_PAD
    ensures next == LastStart(off, end)
    decreases |closings|
  {
    if closings != [] {
      LastOfPads(closings[0].Next(), closings[1..], next, end);
    }
  }

  lemma {:induction false} LastOfFills(off: nat, closings: seq<Closing>, end: nat)
    requires Fills(off, closings, end) && closings != [] && off + CLOSING_BYTES <= end
    ensures closings[|closings| - 1].at == LastStart(off, end)
    decreases |closings|
  {
    if |closings| > 1 {
      LastOfFills(closings[0].Next(), closings[1..], end);
    }
  }

  /**
   * lfs_dir_commitcrc, from offset off0, where attributes may be written below `limit`. On success the commit ends at a
   * program boundary and its closings fill the bytes up to there; the last one covers the program unit that follows,
   * if the block has one. It runs out of space only when that forward CRC would reach past the limit.
   */
  method Close(off0: nat, limit: nat, blockSize: nat, progSize: nat)
    returns (outcome: Outcome, off: nat, closings: seq<Closing>)
    requires Geometry(blockSize, progSize)
    requires off0 + 8 <= blockSize
    ensures outcome == Closed ==>
              && off == End(off0, blockSize, progSize)
              && closings != []
              && Fills(off0, closings, off)
              && (closings[|closings| - 1].fcrc <==> off < blockSize)
    ensures outcome == NoSpace ==>
              && End(off0, blockSize, progSize) < blockSize
              && Pads(off0, closings, off, End(off0, blockSize, progSize))
              && off + CLOSING_BYTES <= End(off0, blockSize, progSize) <= off + TAG_BYTES + LARGEST_PAD
              && limit < off + FCRC_BYTES
    ensures outcome == Closed && off < blockSize ==> closings[|closings| - 1].at + FCRC_BYTES <= limit
  {
    EndBounds(off0, blockSize, progSize);
    var end := End(off0, blockSize, progSize);
    off, closings := off0, [];
    while off < end
      invariant off0 <= off <= end
      invariant off == end || Pads(off0, closings, off, end)
      invariant off < end ==> off + 8 <= end && (closings != [] || end < blockSize ==> off + CLOSING_BYTES <= end)
      invariant off == end ==>
                  && closings != []
                  && Fills(off0, closings, end)
                  && (closings[|closings| - 1].fcrc <==> end < blockSize)
                  && (end < blockSize ==> closings[|closings| - 1].at + FCRC_BYTES <= limit)
      decreases end - off
    {
      // The subtractions below are unsigned in the source; none of them wraps.
      var noff: nat := Min(end - (off + TAG_BYTES), LARGEST_PAD) + (off + TAG_BYTES);
      if noff < end {
        noff := Min(noff, end - CLOSING_BYTES);
      }
      var at, fcrc := off, false;
      if noff >= end && noff <= blockSize - progSize {
        if limit < off + FCRC_BYTES {
          outcome := NoSpace;
          return;
        }
        fcrc := true;
        off := off + FCRC_BYTES;
      }
      var size: nat := noff - (off + TAG_BYTES);
      var closing := Closing(at, size, fcrc);
      if noff == end {
        PadsThenCloses(off0, closings, closing, end);
      } else {
        PadsThen(off0, closings, closing, end);
      }
      closings := closings + [closing];
      off := noff;
    }
    outcome := Closed;
  }

  /**
   * When closing succeeds, told from the arguments, for any metadata limit: attributes stop 8 bytes before it, and the
   * commit reaches the end of the block, or the closing tags fit below the limit, counted from the start of the last
   * closing. With a limit at a program boundary, as the end of the block is, the first closing decides.
   */
  method CloseWithin(off0: nat, used: nat, blockSize: nat, progSize: nat)
    returns (outcome: Outcome, off: nat, closings: seq<Closing>)
    requires Geometry(blockSize, progSize)
    requires off0 + 8 <= used <= blockSize
    ensures End(off0, blockSize, progSize) == blockSize <==> off0 + CLOSING_BYTES + progSize > blockSize
    ensures var end := End(off0, blockSize, progSize);
            && (end < blockSize ==> off0 + CLOSING_BYTES <= end)
            && (outcome == Closed <==> end == blockSize || LastStart(off0, end) + CLOSING_BYTES <= used)
    ensures used % progSize == 0 ==>
              (outcome == Closed <==> off0 + CLOSING_BYTES <= used || off0 + CLOSING_BYTES + progSize > blockSize)
    ensures outcome == Closed ==> Fills(off0, closings, off) && off == End(off0, blockSize, progSize)
    ensures outcome == Closed && off0 + CLOSING_BYTES <= used && used % progSize == 0 ==> off <= used
  {
    hide AlignUp, End, Pads, Fills, LastStart;
    outcome, off, closings := Close(off0, used - 8, blockSize, progSize);
    EndBounds(off0, blockSize, progSize);
    WithinLimit(off0, used, blockSize, progSize);
    var end := End(off0, blockSize, progSize);
    if outcome == Closed && off < blockSize {
      LastOfFills(off0, closings, off);
    } else if outcome == NoSpace {
      LastOfPads(off0, closings, off, end);
    }
  }

  lemma WithinLimit(off0: nat, used: nat, blockSize: nat, progSize: nat)
    requires Geometry(blockSize, progSize)
    requires off0 + 8 <= used <= blockSize
    ensures used % progSize == 0 && off0 + CLOSING_BYTES <= used ==> End(off0, blockSize, progSize) <= used
    ensures End(off0, blockSize, progSize) == blockSize <==> off0 + CLOSING_BYTES + progSize > blockSize
  {
    var wanted := Min(off0 + CLOSING_BYTES, blockSize);
    AlignUpBounds(wanted, progSize);
    if used % progSize == 0 && off0 + CLOSING_BYTES <= used {
      AlignUpLeast(wanted, progSize, used);
    }
    if off0 + CLOSING_BYTES + progSize > blockSize {
      EndBounds(off0, blockSize, progSize);
    }
  }
}
