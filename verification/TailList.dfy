/** Walking the threaded list of metadata pairs at mount and in lfs_fs_rawtraverse, with Brent's cycle detection. */
module TailList {
  /** Two block addresses, in the order in which a tail stores them. */
  datatype Pair = Pair(a: nat, b: nat)

  const BLOCK_NULL: nat := 0xffff_ffff
  const NO_PAIR := Pair(BLOCK_NULL, BLOCK_NULL)

  /** Where every walk starts. */
  const ROOT := Pair(0, 1)

  /** lfs_pair_isnull */
  predicate IsNull(p: Pair) {
    p.a == BLOCK_NULL || p.b == BLOCK_NULL
  }

  /** lfs_pair_issync */
  predicate IsSync(p: Pair, q: Pair) {
    (p.a == q.a && p.b == q.b) || (p.a == q.b && p.b == q.a)
  }

  /** A fetch reads both blocks, so what it finds does not depend on their order. */
  function Key(p: Pair): (r: Pair) {
    if p.a <= p.b then p else Pair(p.b, p.a)
  }

  lemma SyncIsSameKey(p: Pair, q: Pair)
    ensures IsSync(p, q) <==> Key(p) == Key(q)
    ensures IsSync(p, q) ==> (IsNull(p) <==> IsNull(q))
  {
  }

  /**
   * The tail graph: for every pair that can be fetched, keyed in ascending order, the tail found there. Nothing
   * else is assumed of it; it may be any corrupt graph.
   */
  type Tails = map<Pair, Pair>

  /** A walk from the root along tails; only its last pair may be null or impossible to fetch. */
  ghost predicate IsWalk(tails: Tails, xs: seq<Pair>) {
    && xs != []
    && xs[0] == ROOT
    && forall i :: 0 <= i < |xs| - 1 ==> Follows(tails, xs, i)
  }

  ghost predicate Follows(tails: Tails, xs: seq<Pair>, i: nat)
    requires i + 1 < |xs|
  {
    !IsNull(xs[i]) && Key(xs[i]) in tails && xs[i + 1] == tails[Key(xs[i])]
  }

  /** The list from the root comes back to a pair it has already passed. */
  ghost predicate Returns(xs: seq<Pair>, i: nat, j: nat) {
    i < j < |xs| && !IsNull(xs[j]) && Key(xs[j]) == Key(xs[i])
  }

  ghost predicate Cyclic(tails: Tails) {
    exists xs, i, j :: IsWalk(tails, xs) && Returns(xs, i, j)
  }

  /** The walk cannot go on: the list ends, or its next pair cannot be fetched. */
  ghost predicate Stuck(tails: Tails, xs: seq<Pair>) {
    IsWalk(tails, xs) && (IsNull(xs[|xs| - 1]) || Key(xs[|xs| - 1]) !in tails)
  }

  lemma {:induction false} WalksAgree(tails: Tails, xs: seq<Pair>, ys: seq<Pair>, k: nat)
    requires IsWalk(tails, xs) && IsWalk(tails, ys)
    requires k < |xs| && k < |ys|
    ensures xs[k] == ys[k]
  {
    if k == 0 {
    } else {
      WalksAgree(tails, xs, ys, k - 1);
      assert Follows(tails, xs, k - 1) && Follows(tails, ys, k - 1);
    }
  }

  /** Once the list has returned to a pair, it repeats itself. */
  lemma {:induction false} Repeats(tails: Tails, xs: seq<Pair>, i: nat, j: nat, m: nat)
    requires IsWalk(tails, xs)
    requires i < j && j + m < |xs| && Key(xs[i]) == Key(xs[j])
    ensures Key(xs[i + m]) == Key(xs[j + m])
  {
    if m == 0 {
    } else {
      Repeats(tails, xs, i, j, m - 1);
      assert Follows(tails, xs, i + m - 1) && Follows(tails, xs, j + m - 1);
    }
  }

  /** A walk that got stuck passed no pair twice. */
  lemma StuckIsSimple(tails: Tails, xs: seq<Pair>, i: nat, j: nat)
    requires Stuck(tails, xs)
    requires i < j < |xs|
    ensures Key(xs[i]) != Key(xs[j])
  {
    if Key(xs[i]) == Key(xs[j]) {
      var last := |xs| - 1;
      Repeats(tails, xs, i, j, last - j);
      assert Follows(tails, xs, i + last - j);
      SyncIsSameKey(xs[i + last - j], xs[last]);
      assert false;
    }
  }

  /** A list is either cyclic or gets stuck, never both. */
  lemma StuckIsAcyclic(tails: Tails, xs: seq<Pair>)
    requires Stuck(tails, xs)
    ensures !Cyclic(tails)
  {
    forall ys, i: nat, j: nat | IsWalk(tails, ys) && Returns(ys, i, j) ensures false {
      if j < |xs| {
        WalksAgree(tails, xs, ys, i);
        WalksAgree(tails, xs, ys, j);
        StuckIsSimple(tails, xs, i, j);
      } else {
        assert Follows(tails, ys, |xs| - 1);
        WalksAgree(tails, xs, ys, |xs| - 1);
      }
      assert false;
    }
  }

  /** Pigeonhole: a walk over more pairs than can be fetched passes one twice, early. */
  lemma LongWalkReturns(tails: Tails, xs: seq<Pair>) returns (i: nat, j: nat)
    requires IsWalk(tails, xs) && |xs| > |tails| + 1
    ensures i < j <= |tails| && Key(xs[i]) == Key(xs[j])
  {
    var keys := seq(|tails| + 1, k requires 0 <= k < |xs| => Key(xs[k]));
    forall k | 0 <= k < |keys| ensures keys[k] in tails.Keys {
      assert Follows(tails, xs, k);
    }
    i, j := Pigeonhole(keys, tails.Keys);
  }

  lemma {:induction false} Pigeonhole(xs: seq<Pair>, holes: set<Pair>) returns (i: nat, j: nat)
    requires forall k :: 0 <= k < |xs| ==> xs[k] in holes
    requires |xs| > |holes|
    ensures i < j < |xs| && xs[i] == xs[j]
    decreases |xs|
  {
    var last := |xs| - 1;
    if xs[last] in xs[..last] {
      i :| 0 <= i < last && xs[..last][i] == xs[last];
      j := last;
    } else {
      i, j := Pigeonhole(xs[..last], holes - {xs[last]});
    }
  }

  /** A tortoise that waits at position t, past as many pairs as there are, is met again before long. */
  lemma TortoiseIsMet(tails: Tails, xs: seq<Pair>, t: nat)
    requires IsWalk(tails, xs)
    requires |tails| <= t < |xs| - 1
    requires forall k :: t < k < |xs| ==> Key(xs[k]) != Key(xs[t])
    ensures |xs| <= t + |tails|
  {
    if t + |tails| < |xs| {
      var i, j := LongWalkReturns(tails, xs);
      Repeats(tails, xs, i, j, t - i);
      assert false;
    }
  }

  /** A walk that visited everything before `tail` and got stuck there. */
  lemma FinishedWalk(tails: Tails, visited: seq<Pair>, tail: Pair)
    requires Stuck(tails, visited + [tail])
    ensures !Cyclic(tails)
    ensures forall i, j :: 0 <= i < j < |visited| ==> !IsSync(visited[i], visited[j])
  {
    var xs := visited + [tail];
    StuckIsAcyclic(tails, xs);
    forall i, j | 0 <= i < j < |visited| ensures !IsSync(visited[i], visited[j]) {
      StuckIsSimple(tails, xs, i, j);
      assert xs[i] == visited[i] && xs[j] == visited[j];
      SyncIsSameKey(visited[i], visited[j]);
    }
  }

  lemma WalkOn(tails: Tails, visited: seq<Pair>, tail: Pair)
    requires IsWalk(tails, visited + [tail])
    requires !IsNull(tail) && Key(tail) in tails
    ensures IsWalk(tails, visited + [tail] + [tails[Key(tail)]])
  {
    var xs, ys := visited + [tail], visited + [tail] + [tails[Key(tail)]];
    forall i | 0 <= i < |ys| - 1 ensures Follows(tails, ys, i) {
      if i < |xs| - 1 {
        assert Follows(tails, xs, i);
      }
    }
  }

  datatype Outcome = Ended | Unreadable | CycleDetected

  /**
   * The walk with its cycle detection. It reports a cycle exactly if there is one; otherwise it visits every pair of
   * the list once, in order, up to the null tail or the pair that cannot be fetched. However the blocks are linked,
   * it fetches no more than three times the number of pairs, and the period, a 32-bit number in the source, does not
   * wrap unless there are 2^31 - 1 pairs.
   */
  method Walk(tails: Tails) returns (outcome: Outcome, visited: seq<Pair>, period: nat)
    ensures outcome == CycleDetected <==> Cyclic(tails)
    ensures outcome == Ended ==> exists tail :: IsNull(tail) && Stuck(tails, visited + [tail])
    ensures outcome == Unreadable ==>
              exists tail :: !IsNull(tail) && Key(tail) !in tails && Stuck(tails, visited + [tail])
    ensures outcome != CycleDetected ==> forall i, j :: 0 <= i < j < |visited| ==> !IsSync(visited[i], visited[j])
    ensures |visited| <= 3 * |tails| && period <= 2 * |tails| + 2
  {
    var tail := ROOT;
    var tortoise, tortoiseI := NO_PAIR, 1;
    period, visited := 1, [];
    // Where on the list the tortoise waits.
    ghost var t := -1;
    while !IsNull(tail)
      invariant IsWalk(tails, visited + [tail])
      invariant -1 <= t <= 2 * |tails| && tortoiseI == |visited| - t
      invariant 0 <= t ==> t < |visited| && tortoise == visited[t] && period == t + 2
      invariant t < 0 ==> visited == [] && tortoise == NO_PAIR && period == 1
      invariant tortoiseI <= period
      invariant 0 <= t ==> forall k :: t < k < |visited| ==> Key(visited[k]) != Key(tortoise)
      invariant |visited| <= 3 * |tails|
      decreases 3 * |tails| - |visited|
    {
      ghost var walk := visited + [tail];
      SyncIsSameKey(tail, tortoise);
      if IsSync(tail, tortoise) {
        assert Returns(walk, t, |visited|);
        outcome := CycleDetected;
        return;
      }
      if |tails| <= t {
        TortoiseIsMet(tails, walk, t);
      }
      if tortoiseI == period {
        tortoise := tail;
        tortoiseI := 0;
        period := period * 2;
        t := |visited|;
      }
      tortoiseI := tortoiseI + 1;
      if Key(tail) !in tails {
        FinishedWalk(tails, visited, tail);
        outcome := Unreadable;
        return;
      }
      WalkOn(tails, visited, tail);
      visited := visited + [tail];
      tail := tails[Key(tail)];
    }
    FinishedWalk(tails, visited, tail);
    outcome := Ended;
  }
}
