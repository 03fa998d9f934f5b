/** The block allocator: littlefs/lfs.c:574-647. */
module Allocator {
  import opened Basics
  import opened Bits

  /** The block at distance k from position base around a device of n blocks. */
  function Around(base: nat, k: nat, n: nat): (b: nat)
    requires n > 0
    ensures b < n
  {
    (base + k) % n
  }

  /** Less than a full turn apart, different distances are different blocks. */
  lemma AroundInjective(base: nat, j: nat, k: nat, n: nat)
    requires n > 0 && j < k < j + n
    ensures Around(base, j, n) != Around(base, k, n)
  {
    var p, q := (base + j) / n, (base + k) / n;
    assert base + j == p * n + (base + j) % n && base + k == q * n + (base + k) % n;
    assert (q - p) * n == q * n - p * n;
    if q > p {
      MulAtLeast(q - p, n);
    } else {
      MulMono(q, p, n);
    }
  }

  /** Distances add up. */
  lemma AroundShift(base: nat, j: nat, k: nat, n: nat)
    requires n > 0
    ensures Around(Around(base, j, n), k, n) == Around(base, j + k, n)
  {
    var q, r := (base + j) / n, (base + j) % n;
    var q', r' := (r + k) / n, (r + k) % n;
    assert base + j == q * n + r && r + k == q' * n + r';
    assert (q + q') * n == q * n + q' * n;
    DivUnique(base + j + k, q + q', n, r');
  }

  /** Every block is less than one turn away from any position. */
  lemma DistanceOf(base: nat, b: nat, n: nat) returns (k: nat)
    requires n > 0 && b < n
    ensures k < n && Around(base, k, n) == b
  {
    AroundShift(base, 0, if b >= base % n then b - base % n else b + n - base % n, n);
    if b >= base % n {
      k := b - base % n;
      DivUnique(b, 0, n, b);
    } else {
      k := b + n - base % n;
      DivUnique(b + n, 1, n, b);
    }
  }

  /** The first e blocks from base on. */
  ghost function Stretch(base: nat, e: nat, n: nat): (r: set<nat>)
    requires n > 0
  {
    if e == 0 then {} else Stretch(base, e - 1, n) + {Around(base, e - 1, n)}
  }

  lemma {:induction false} InStretch(base: nat, e: nat, n: nat, b: nat)
    requires n > 0
    ensures b in Stretch(base, e, n) <==> exists k: nat :: k < e && Around(base, k, n) == b
  {
    if e > 0 {
      InStretch(base, e - 1, n, b);
      if exists k: nat :: k < e && Around(base, k, n) == b {
        var k: nat :| k < e && Around(base, k, n) == b;
        assert k < e - 1 || k == e - 1;
      }
    }
  }

  /** A window that starts where the examined stretch ends, less than a turn in all, holds none of its blocks. */
  lemma WindowIsNew(base: nat, examined: nat, j: nat, n: nat)
    requires n > 0 && examined + j < n
    ensures Around(Around(base, examined, n), j, n) !in Stretch(base, examined, n)
  {
    var b := Around(Around(base, examined, n), j, n);
    AroundShift(base, examined, j, n);
    InStretch(base, examined, n, b);
    if b in Stretch(base, examined, n) {
      var k: nat :| k < examined && Around(base, k, n) == b;
      AroundInjective(base, k, examined + j, n);
    }
  }

  /** A full turn examines every block. */
  lemma FullTurn(base: nat, n: nat, b: nat)
    requires n > 0 && b < n
    ensures b in Stretch(base, n, n)
  {
    var k := DistanceOf(base, b, n);
    InStretch(base, n, n, b);
  }

  /** The position of a block in a window, as lfs_alloc_lookahead computes it. */
  lemma LookaheadPosition(off: nat, b: nat, n: nat)
    requires off < n && b < n
    ensures var d := (b - off + n) % n;
            0 <= d < n && Around(off, d, n) == b && forall j: nat :: j < n && Around(off, j, n) == b ==> j == d
  {
    var d := (b - off + n) % n;
    if b >= off {
      DivUnique(b - off + n, 1, n, b - off);
      DivUnique(b, 0, n, b);
    } else {
      DivUnique(b - off + n, 0, n, b - off + n);
      DivUnique(b + n, 1, n, b);
    }
    forall j: nat | j < n && Around(off, j, n) == b ensures j == d {
      if j < d {
        AroundInjective(off, j, d, n);
      } else if d < j {
        AroundInjective(off, d, j, n);
      }
    }
  }

  lemma NothingExamined(base: nat, n: nat)
    requires n > 0
    ensures Stretch(base, 0, n) == {}
  {
  }

  /** The other way round: a block that was not examined lies less than the rest of a turn further on. */
  lemma Unexamined(base: nat, examined: nat, n: nat, b: nat) returns (k: nat)
    requires n > 0 && examined <= n && b < n && b !in Stretch(base, examined, n)
    ensures k < n - examined && b == Around(Around(base, examined, n), k, n)
  {
    var d := DistanceOf(base, b, n);
    InStretch(base, examined, n, b);
    k := d - examined;
    AroundShift(base, examined, k, n);
  }

  /** From position from on the marked blocks have been skipped, up to the first unmarked one or the end. */
  ghost predicate Skipped(marks: seq<bool>, from: nat, to: nat, size: nat) {
    from <= to <= size <= |marks| && (forall j :: from <= j < to ==> marks[j]) && (to == size || !marks[to])
  }

  /** The k blocks from position start on are all reported. */
  ghost predicate AllTaken(trav: seq<nat>, start: nat, k: nat, n: nat)
    requires n > 0
  {
    forall j: nat :: j < k ==> Around(start, j, n) in trav
  }

  lemma TakenAt(trav: seq<nat>, start: nat, k: nat, n: nat, j: nat)
    requires n > 0 && AllTaken(trav, start, k, n) && j < k
    ensures Around(start, j, n) in trav
  {
    hide Around;
  }

  lemma AllTakenHere(trav: seq<nat>, start: nat, k: nat, n: nat)
    requires n > 0 && forall j: nat :: j < k ==> Around(start, j, n) in trav
    ensures AllTaken(trav, start, k, n)
  {
    hide Around;
  }

  lemma NothingTaken(trav: seq<nat>, start: nat, n: nat)
    requires n > 0
    ensures AllTaken(trav, start, 0, n)
  {
  }

  /** The first block from position start on that is not reported. */
  ghost predicate FirstFree(trav: seq<nat>, start: nat, k: nat, n: nat)
    requires n > 0
  {
    AllTaken(trav, start, k, n) && Around(start, k, n) !in trav
  }

  /** Block b is the first one that is not reported, fewer than k behind position start. */
  ghost predicate NextFree(trav: seq<nat>, start: nat, k: nat, n: nat, b: nat)
    requires n > 0
  {
    exists j: nat :: j < k && FirstFree(trav, start, j, n) && b == Around(start, j, n)
  }

  lemma FreeAt(trav: seq<nat>, start: nat, j: nat, k: nat, n: nat)
    requires n > 0 && j < k && AllTaken(trav, start, j, n) && Around(start, j, n) !in trav
    ensures NextFree(trav, start, k, n, Around(start, j, n)) && !AllTaken(trav, start, k, n)
  {
    assert FirstFree(trav, start, j, n);
  }

  /** The marks of a window are what a traversal reported. */
  ghost predicate Marks(marks: seq<bool>, off: nat, size: nat, n: nat, trav: seq<nat>)
    requires n > 0
  {
    size <= |marks| && forall j: nat :: j < size ==> (marks[j] <==> Around(off, j, n) in trav)
  }

  datatype Result = Block(b: nat) | NoSpace | TraverseError

  /**
   * struct lfs_free. The ghost fields say what the blocks are for: reach is what a traversal of the tree would
   * report, inflight what was handed out since the last acknowledgement, base the position at that time.
   */
  class Free {
    const n: nat          // block_count
    const bits: nat       // 8 * lookahead_size, which is a multiple of 8
    var off: nat
    var size: nat
    var i: nat
    var ack: nat
    const buffer: array<bool>

    ghost var reach: set<nat>
    ghost var inflight: set<nat>
    ghost var base: nat

    /** lfs_rawmount: start anywhere with an empty window. */
    constructor (n: nat, bits: nat, seed: nat, ghost reach: set<nat>)
      requires 0 < n <= 0x8000_0000 && bits > 0 && bits % 64 == 0
      ensures Valid() && this.n == n && this.bits == bits && this.reach == reach && inflight == {}
      ensures off == base == seed % n && i == size == 0 && ack == n && fresh(buffer)
    {
      this.n, this.bits := n, bits;
      off, size, i, ack := seed % n, 0, 0, n;
      buffer := new bool[bits];
      this.reach, inflight := reach, {};
      base := seed % n;
      new;
      AroundShift(0, seed, 0, n);
    }

    /** Holds at every point inside lfs_alloc. */
    ghost predicate Sound()
      reads this, buffer
    {
      && 0 < n <= 0x8000_0000 && 0 < bits == buffer.Length
      && i <= size <= bits && size <= n && off < n
      && size - i <= ack <= n
      && Around(off, i, n) == Around(base, n - ack, n)
      && (forall j: nat :: i <= j < size && !buffer[j] ==>
            Around(off, j, n) !in reach && Around(off, j, n) !in inflight)
      && inflight <= Stretch(base, n - ack, n)
    }

    /** Holds between calls: marked blocks at the front of the window have been passed already. */
    ghost predicate Valid()
      reads this, buffer
    {
      Sound() && (i == size || !buffer[i])
    }

    /** The blocks looked at since the last acknowledgement. */
    ghost function Examined(): (r: set<nat>)
      reads this
      requires 0 < n && ack <= n
    {
      Stretch(base, n - ack, n)
    }

    ghost predicate WindowIs(off: nat, size: nat)
      reads this
    {
      this.off == off && this.size == size
    }

    /** Marked blocks of a window that a traversal has filled are taken; an unmarked one is not. */
    lemma MarkedTaken(trav: seq<nat>, start: nat, k: nat, from: nat, to: nat)
      requires 0 < n && from <= to <= size <= buffer.Length && AllTaken(trav, start, k, n)
      requires Around(off, from, n) == Around(start, k, n) && forall j :: from <= j < to ==> buffer[j]
      ensures Marks(buffer[..], off, size, n, trav) ==>
                && AllTaken(trav, start, k + (to - from), n) && Around(off, to, n) == Around(start, k + (to - from), n)
                && (to < size ==> (buffer[to] <==> Around(off, to, n) in trav))
                && (from == 0 < to ==> Around(off, 0, n) in trav)
    {
      hide Around, AllTaken;
      AroundShift(off, from, to - from, n);
      AroundShift(start, k, to - from, n);
      if Marks(buffer[..], off, size, n, trav) {
        forall j: nat | j < k + (to - from) ensures Around(start, j, n) in trav {
          if j < k {
            TakenAt(trav, start, k, n, j);
          } else {
            AroundShift(off, from, j - k, n);
            AroundShift(start, k, j - k, n);
            assert buffer[..][from + (j - k)];
          }
        }
        AllTakenHere(trav, start, k + (to - from), n);
        assert to < size ==> buffer[..][to] == buffer[to];
        assert from == 0 < to ==> buffer[..][0];
      }
    }

    lemma Origin()
      requires Sound()
      ensures Around(off + i, 0, n) == Around(base, n - ack, n)
    {
    }

    /** Where the allocator is after it has looked at some more blocks. */
    lemma Position(start: nat, ack0: nat)
      requires Sound() && ack <= ack0 <= n && Around(start, 0, n) == Around(base, n - ack0, n)
      ensures Around(off, i, n) == Around(start, ack0 - ack, n)
    {
      AroundShift(base, n - ack0, ack0 - ack, n);
      AroundShift(start, 0, ack0 - ack, n);
    }

    /** Every block that was not yet looked at since the acknowledgement is reported. */
    ghost predicate Exhausted(trav: seq<nat>)
      reads this
    {
      0 < n && AllTaken(trav, off + i, ack, n)
    }

    /**
     * What it takes for lfs_alloc to report no space: that every block that was not yet looked at since the
     * acknowledgement is reported. Directly after the acknowledgement these are all blocks. Later the report is true
     * exactly if every block that was looked at is still in use or in flight.
     */
    lemma NoSpaceMeans(trav: seq<nat>)
      requires Sound() && Exhausted(trav)
      ensures forall b :: 0 <= b < n ==> b in Examined() || b in trav
      ensures (forall b :: 0 <= b < n ==> b in trav || b in inflight) <==>
              (forall b :: 0 <= b < n && b in Examined() ==> b in trav || b in inflight)
      ensures ack == n ==> forall b :: 0 <= b < n ==> b in trav
    {
      hide Stretch, Around;
      Origin();
      NothingExamined(base, n);
      forall b: nat | b < n ensures b in Examined() || b in trav {
        if b !in Examined() {
          var k := Unexamined(base, n - ack, n, b);
          AroundShift(base, n - ack, k, n);
          AroundShift(off + i, 0, k, n);
        }
      }
    }

    /** The tree changes: it can only gain blocks that were handed out and not yet acknowledged. */
    ghost method TreeChanges(reach': set<nat>)
      requires Valid() && reach' <= reach + inflight
      modifies `reach
      ensures Valid() && reach == reach'
    {
      reach := reach';
    }

    /** lfs_alloc_ack */
    method Ack()
      requires Valid()
      modifies `ack, `inflight, `base
      ensures Valid() && 0 < ack == n && inflight == {} && Examined() == {}
    {
      AroundShift(off, i, 0, n);
      ack := n;
      inflight, base := {}, Around(off, i, n);
    }

    /** lfs_alloc_drop: empties the window, and acknowledges. */
    method Drop()
      requires Sound()
      modifies `size, `i, `ack, `inflight, `base
      ensures Valid() && size == 0 == i && ack == n && inflight == {}
    {
      size, i := 0, 0;
      ack := n;
      inflight, base := {}, off;
    }

    /** Passes the block at the front of the window. */
    method Pass(ghost taken: bool)
      requires Sound() && i < size && taken == !buffer[i]
      modifies this`i, this`ack, this`inflight
      ensures Sound() && i == old(i) + 1 && ack == old(ack) - 1
      ensures inflight == if taken then old(inflight) + {Around(off, old(i), n)} else old(inflight)
      ensures taken ==> Around(off, old(i), n) !in reach && Around(off, old(i), n) !in old(inflight)
    {
      ghost var b := Around(off, i, n);
      AroundShift(off, i, 1, n);
      AroundShift(base, n - ack, 1, n);
      forall j: nat | i < j < size ensures Around(off, j, n) != b {
        AroundInjective(off, i, j, n);
      }
      assert Stretch(base, n - ack + 1, n) == Stretch(base, n - ack, n) + {b};
      hide Around, Stretch;
      if taken {
        inflight := inflight + {b};
      }
      i, ack := i + 1, ack - 1;
    }

    /** lfs_alloc_lookahead for one block that the traversal reports. */
    method Lookahead(b: nat)
      requires 0 < n <= 0x8000_0000 && off < n && b < n && size <= buffer.Length && size <= n
      modifies buffer
      ensures forall j: nat :: j < buffer.Length ==>
                buffer[j] == (old(buffer[j]) || (j < size && Around(off, j, n) == b))
    {
      LookaheadPosition(off, b, n);
      var d := (b - off + n) % n;
      if d < size {
        buffer[d] := true;
      }
    }

    /** The part of lfs_alloc that moves the window on and fills it from a traversal of the tree. */
    method Refill(trav: seq<nat>)
      requires Sound() && i == size && ack > 0
      requires forall b :: b in trav ==> b < n
      requires forall b :: b in reach ==> b in trav
      modifies this`off, this`size, this`i, buffer
      ensures Sound() && i == 0 < size == Min(bits, ack)
      ensures off == Around(old(off), old(size), n)
      ensures Marks(buffer[..], off, size, n, trav)
    {
      assert Around(off, size, n) == Around(base, n - ack, n);
      off := (off + size) % n;
      size := if bits < ack then bits else ack;
      i := 0;
      Clear();
      MarkAll(trav);
      assert Around(off, 0, n) == off by { DivUnique(off, 0, n, off); }
      forall j: nat | j < size ensures Around(off, j, n) !in Stretch(base, n - ack, n) {
        WindowIsNew(base, n - ack, j, n);
      }
      hide Around, Stretch;
    }

    method Clear()
      modifies buffer
      ensures forall j :: 0 <= j < buffer.Length ==> !buffer[j]
    {
      for j := 0 to buffer.Length
        invariant forall k :: 0 <= k < j ==> !buffer[k]
      {
        buffer[j] := false;
      }
    }

    /** The traversal with lfs_alloc_lookahead as its callback. */
    method MarkAll(trav: seq<nat>)
      requires 0 < n <= 0x8000_0000 && off < n && size <= buffer.Length && size <= n
      requires forall b :: b in trav ==> b < n
      requires forall j :: 0 <= j < buffer.Length ==> !buffer[j]
      modifies buffer
      ensures forall j: nat :: j < size ==> (buffer[j] <==> Around(off, j, n) in trav)
    {
      var t := 0;
      while t < |trav|
        invariant 0 <= t <= |trav|
        invariant forall j: nat :: j < size ==> (buffer[j] <==> Around(off, j, n) in trav[..t])
      {
        assert trav[t] in trav;
        Lookahead(trav[t]);
        assert trav[..t + 1] == trav[..t] + [trav[t]];
        t := t + 1;
      }
      assert trav[..t] == trav;
    }

    /**
     * lfs_alloc. The traversal, if one is needed, reports the blocks trav, or fails. The block that is handed out
     * is in use by nobody: the front of the window, or else the first block behind it that the traversal does not
     * report. No space is reported exactly if the window is used up and every block that was not yet looked at
     * since the acknowledgement is reported; NoSpaceMeans says what that amounts to.
     */
    method Alloc(trav: seq<nat>, fails: bool) returns (r: Result)
      requires Valid()
      requires forall b :: b in trav ==> b < n
      requires forall b :: b in reach ==> b in trav
      modifies this`off, this`size, this`i, this`ack, this`inflight, this`base, buffer
      ensures Valid()
      ensures r.Block? ==> r.b < n && r.b !in reach && r.b !in old(inflight) && inflight == old(inflight) + {r.b}
      ensures old(i) < old(size) ==> r == Block(Around(old(off), old(i), n)) && WindowIs(old(off), old(size))
                                     && buffer[..] == old(buffer[..]) && ack == old(ack) - (i - old(i))
                                     && Skipped(buffer[..], old(i) + 1, i, size)
      ensures r.Block? && old(i) == old(size) ==> NextFree(trav, old(off) + old(i), old(ack), n, r.b)
      ensures old(i) == old(size) && 0 < old(ack) && !fails && Around(old(off), old(i), n) !in trav ==>
                && r == Block(Around(old(off), old(i), n)) && WindowIs(r.b, Min(bits, old(ack))) && ack == old(ack) - i
                && Marks(buffer[..], off, size, n, trav) && Skipped(buffer[..], 1, i, size)
      ensures r.NoSpace? <==> old(i) == old(size) && (old(ack) == 0 || !fails) && old(Exhausted(trav))
      ensures r.NoSpace? ==> inflight == old(inflight) && ack == 0 && base == old(base)
      ensures r.TraverseError? <==> fails && old(i) == old(size) && old(ack) > 0
      ensures r.TraverseError? ==> inflight == {} && ack == n && WindowIs(Around(old(off), old(size), n), 0) && i == 0
    {
      hide Stretch, Around, AllTaken, NextFree, Marks, Skipped;
      ghost var start, a0, round := off + i, ack, 0;
      Origin();
      NothingTaken(trav, start, n);
      AroundShift(off, size, 0, n);
      while true
        invariant Sound() && inflight == old(inflight) && base == old(base) && ack <= a0
        invariant AllTaken(trav, start, a0 - ack, n)
        invariant round == 0 ==> && WindowIs(old(off), old(size)) && i == old(i) && ack == a0
                                 && buffer[..] == old(buffer[..])
        invariant round > 0 ==> !fails && old(i) == old(size) && i == 0 < size && Marks(buffer[..], off, size, n, trav)
        invariant round == 1 ==> WindowIs(Around(old(off), old(size), n), Min(bits, a0)) && ack == a0
        invariant round > 1 ==> Around(old(off), old(size), n) in trav
        decreases ack, if i == size then 1 else 0
      {
        ghost var i0, k := i, a0 - ack;
        Position(start, a0);
        var o := FromWindow();
        MarkedTaken(trav, start, k, i0, if o.Some? then o.value else size);
        if o.Some? {
          if round > 0 {
            FreeAt(trav, start, k + (o.value - i0), a0, n);
          }
          return Block(BlockAt(o.value));
        }
        if ack == 0 {
          return NoSpace;
        }
        if fails {
          MoveOn();
          Drop();
          return TraverseError;
        }
        Refill(trav);
        round := round + 1;
      }
    }

    /** The inner loop of lfs_alloc: takes the first free block of the window and passes the taken ones around it. */
    method FromWindow() returns (o: Option<nat>)
      requires Sound()
      modifies this`i, this`ack, this`inflight
      ensures Sound() && ack == old(ack) - (i - old(i))
      ensures o.Some? ==> && old(i) <= o.value < size && !buffer[o.value]
                          && (forall j :: old(i) <= j < o.value ==> buffer[j])
                          && Around(off, o.value, n) !in reach + old(inflight)
                          && inflight == old(inflight) + {Around(off, o.value, n)}
                          && Valid() && Skipped(buffer[..], o.value + 1, i, size)
      ensures o.None? ==> && inflight == old(inflight) && i == size && forall j :: old(i) <= j < size ==> buffer[j]
    {
      hide Stretch, Around;
      while i != size
        invariant Sound() && inflight == old(inflight) && old(i) <= i && ack == old(ack) - (i - old(i))
        invariant forall j :: old(i) <= j < i ==> buffer[j]
        decreases size - i
      {
        var front := i;
        var free := !buffer[front];
        Pass(free);
        if free {
          SkipTaken();
          return Some(front);
        }
      }
      return None;
    }

    function BlockAt(o: nat): (b: nat)
      requires n > 0
      reads this
      ensures b == Around(off, o, n)
    {
      (off + o) % n
    }

    /** The failing branch after the window has moved on: lfs.c:627-638. */
    method MoveOn()
      requires Sound() && i == size && ack > 0
      modifies this`off, this`size, this`i
      ensures Sound() && off == Around(old(off), old(size), n) && size == 0
    {
      AroundShift(off, size, 0, n);
      off := (off + size) % n;
      size, i := 0, 0;
    }

    /** Eagerly passes blocks in use, so that an acknowledgement discredits them. */
    method SkipTaken()
      requires Sound()
      modifies this`i, this`ack, this`inflight
      ensures Valid() && inflight == old(inflight) && ack == old(ack) - (i - old(i))
      ensures Skipped(buffer[..], old(i), i, size)
    {
      hide Around, Stretch;
      while i != size && buffer[i]
        invariant Sound() && inflight == old(inflight) && old(i) <= i && ack == old(ack) - (i - old(i))
        invariant forall j :: old(i) <= j < i ==> buffer[j]
        decreases size - i
      {
        Pass(false);
      }
    }
  }

  // ----- What does not hold -----

  /** Around without a remainder, for less than two turns. */
  lemma AroundIs(base: nat, k: nat, n: nat, b: nat)
    requires b < n && (base + k == b || base + k == n + b)
    ensures Around(base, k, n) == b
  {
    DivUnique(base + k, if base + k == b then 0 else 1, n, b);
  }

  /** One mark of a window, told by its block. */
  lemma MarkIs(marks: seq<bool>, off: nat, size: nat, n: nat, trav: seq<nat>, j: nat, b: nat)
    requires n > 0 && Marks(marks, off, size, n, trav) && j < size
    requires b < n && (off + j == b || off + j == n + b)
    ensures marks[j] <==> b in trav
  {
    hide Around;
    AroundIs(off, j, n, b);
  }

  /** The marks that a traversal leaves in a window that begins at block 2 of five. */
  lemma LastThreeMarked(marks: seq<bool>, i: nat)
    requires Marks(marks, 2, 5, 5, [0, 1, 4]) && Skipped(marks, 1, i, 5)
    ensures i == 1
    ensures forall j: nat :: Skipped(marks, 2, j, 5) ==> j == 5
  {
    hide Around, Marks;
    MarkIs(marks, 2, 5, 5, [0, 1, 4], 1, 3);
    MarkIs(marks, 2, 5, 5, [0, 1, 4], 2, 4);
    MarkIs(marks, 2, 5, 5, [0, 1, 4], 3, 0);
    MarkIs(marks, 2, 5, 5, [0, 1, 4], 4, 1);
  }

  lemma OneTaken()
    ensures AllTaken([0, 1, 2], 7, 1, 5)
  {
    hide Around;
    AroundIs(7, 0, 5, 2);
  }

  /**
   * Five blocks, of which the first two hold the root directory. Block 4 was in use when the window was filled, and was
   * freed after block 2 was committed; its mark is stale.
   */
  method StaleWindow() returns (f: Free)
    ensures f.Valid() && fresh(f) && fresh(f.buffer) && f.n == 5 && f.bits == 64
    ensures f.WindowIs(2, 5) && f.i == 1 && f.ack == 5 && f.reach == {0, 1, 2} && f.inflight == {}
    ensures forall j: nat :: Skipped(f.buffer[..], 2, j, 5) ==> j == 5
  {
    hide Around, Marks, Skipped, Stretch, NextFree, AllTaken, Free.Sound, Free.Examined;
    AroundIs(2, 0, 5, 2);
    f := new Free(5, 64, 2, {0, 1, 4});
    var first := f.Alloc([0, 1, 4], false);
    LastThreeMarked(f.buffer[..], f.i);
    f.TreeChanges({0, 1, 2, 4});
    f.Ack();
    f.TreeChanges({0, 1, 2});
  }

  /**
   * Two allocations after one acknowledgement, as lfs_rawmkdir makes them (lfs.c:2530-2532). The first one takes block
   * 3 from the old window and passes the stale mark of block 4; so the second one reports no space, although block 4
   * is free.
   */
  method SecondAllocationFails() returns (f: Free, first: Result, second: Result)
    ensures f.Valid() && f.n == 5 && f.bits == 64 && first == Block(3) && second == NoSpace
    ensures 4 !in f.reach && 4 !in f.inflight
  {
    hide Around, Marks, Skipped, Stretch, NextFree, AllTaken, Free.Sound, Free.Examined;
    AroundIs(2, 1, 5, 3);
    f := StaleWindow();
    first := f.Alloc([0, 1, 2], false);
    OneTaken();
    second := f.Alloc([0, 1, 2], false);
  }

  /** The first k blocks, all in use. */
  function Used(k: nat): (r: seq<nat>)
    ensures forall b :: b in r <==> 0 <= b < k
  {
    if k == 0 then [] else Used(k - 1) + [k - 1]
  }

  /** The marks of a window of 64 that begins at block 63 of 65. */
  lemma AllButTwoMarked(marks: seq<bool>, i: nat)
    requires Marks(marks, 63, 64, 65, Used(63)) && Skipped(marks, 1, i, 64)
    ensures i == 1
    ensures forall j: nat :: Skipped(marks, 2, j, 64) ==> j == 64
  {
    hide Around, Marks, Used;
    MarkIs(marks, 63, 64, 65, Used(63), 1, 64);
    forall j: nat | 2 <= j < 64 ensures marks[j] {
      MarkIs(marks, 63, 64, 65, Used(63), j, j - 2);
    }
  }

  /** Block 62 is in use, and 63 behind it is not reported. */
  lemma NextAgain(b: nat)
    requires NextFree(Used(63), 62, 65, 65, b)
    ensures b == 63
  {
    hide Around, Used, AllTaken;
    AroundIs(62, 0, 65, 62);
    AroundIs(62, 1, 65, 63);
    var j: nat :| j < 65 && FirstFree(Used(63), 62, j, 65) && b == Around(62, j, 65);
    NotPast(j);
  }

  lemma NotPast(j: nat)
    requires AllTaken(Used(63), 62, j, 65) && Around(62, 1, 65) == 63
    ensures j <= 1
  {
    hide Around, Used;
  }

  /**
   * 65 blocks, all but the last two in use. These two are handed out, then a traversal fails. That counts as an
   * acknowledgement, so the next allocation hands out block 63 again, although its first owner has not committed it.
   */
  method HandedOutAgain() returns (f: Free, first: Result, second: Result, failed: Result, third: Result)
    ensures f.Valid() && f.n == 65 && f.bits == 64
    ensures first == Block(63) && second == Block(64) && failed == TraverseError && third == Block(63)
    ensures f.reach == set b | b in Used(63)
  {
    hide Around, Marks, Skipped, Stretch, NextFree, AllTaken, Free.Sound, Free.Examined, Used;
    AroundIs(63, 0, 65, 63);
    AroundIs(63, 1, 65, 64);
    AroundIs(63, 64, 65, 62);
    var used := Used(63);
    f := new Free(65, 64, 63, set b | b in used);
    first := f.Alloc(used, false);
    AllButTwoMarked(f.buffer[..], f.i);
    second := f.Alloc(used, false);
    failed := f.Alloc(used, true);
    NotAllReported();
    third := f.Alloc(used, false);
    NextAgain(third.b);
  }

  lemma NotAllReported()
    ensures !AllTaken(Used(63), 62, 65, 65)
  {
    hide Used;
    AroundIs(62, 1, 65, 63);
  }
}
