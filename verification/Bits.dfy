/** Bit arithmetic of littlefs/lfs_util.h, stated over mathematical integers. */
module Bits {
  import opened Basics

  function Pow2(k: nat): (p: nat)
    ensures p >= 1
  {
    if k == 0 then 1 else 2 * Pow2(k - 1)
  }

  /** Number of trailing zero bits of a positive number. */
  function Ctz(n: nat): (k: nat)
    requires n > 0
  {
    if n % 2 == 1 then 0 else 1 + Ctz(n / 2)
  }

  /** Number of one bits. */
  function Popc(n: nat): (c: nat)
  {
    if n == 0 then 0 else n % 2 + Popc(n / 2)
  }

  /** Position of the highest one bit. */
  function Log2(n: nat): (k: nat)
    requires n > 0
  {
    if n == 1 then 0 else 1 + Log2(n / 2)
  }

  /** Exponent of the smallest power of two that is at least a. */
  function Npw2(a: nat): (r: nat)
    requires a > 0
  {
    if a == 1 then 0 else 1 + Log2(a - 1)
  }

  lemma {:induction false} Pow2Add(j: nat, k: nat)
    ensures Pow2(j + k) == Pow2(j) * Pow2(k)
  {
    if j == 0 {
    } else {
      Pow2Add(j - 1, k);
      assert Pow2(j + k) == 2 * Pow2(j - 1 + k);
    }
  }

  lemma {:induction false} Pow2Mono(j: nat, k: nat)
    requires j <= k
    ensures Pow2(j) <= Pow2(k)
    ensures j < k ==> 2 * Pow2(j) <= Pow2(k)
  {
    if j == k {
    } else {
      Pow2Mono(j, k - 1);
    }
  }

  lemma {:induction false} Log2Bounds(n: nat)
    requires n > 0
    ensures Pow2(Log2(n)) <= n < Pow2(Log2(n) + 1)
  {
    if n == 1 {
      assert Pow2(1) == 2 * Pow2(0);
    } else {
      Log2Bounds(n / 2);
    }
  }

  lemma Log2Mono(m: nat, n: nat)
    requires 0 < m <= n
    ensures Log2(m) <= Log2(n)
  {
    Log2Bounds(m);
    Log2Bounds(n);
    if Log2(n) < Log2(m) {
      Pow2Mono(Log2(n) + 1, Log2(m));
    }
  }

  /** Npw2 rounds up to a power of two: Npw2(d + 1) - 1 is the largest power not above d. */
  lemma Npw2Floor(d: nat)
    requires d > 0
    ensures Npw2(d + 1) == Log2(d) + 1
    ensures Pow2(Npw2(d + 1) - 1) <= d < Pow2(Npw2(d + 1))
  {
    Log2Bounds(d);
  }

  /** The lowest set bit divides the number, leaves an odd quotient and is at most its highest bit. */
  lemma {:induction false} CtzFactor(n: nat)
    requires n > 0
    ensures n % Pow2(Ctz(n)) == 0
    ensures (n / Pow2(Ctz(n))) % 2 == 1
    ensures Pow2(Ctz(n)) <= n
    ensures Ctz(n) <= Log2(n)
  {
    if n % 2 == 1 {
    } else {
      CtzFactor(n / 2);
      DoubleBoth(n / 2, Pow2(Ctz(n / 2)));
    }
  }

  lemma DoubleBoth(n: nat, p: nat)
    requires p > 0 && n % p == 0
    ensures 2 * n % (2 * p) == 0 && 2 * n / (2 * p) == n / p
  {
    var q := n / p;
    assert n == q * p;
    assert q * (2 * p) == 2 * (q * p);
    DivExact(2 * n, q, 2 * p);
  }

  lemma DivExact(n: int, q: int, p: int)
    requires p > 0 && n == q * p
    ensures n / p == q && n % p == 0
  {
    assert n == q * p + 0;
    DivUnique(n, q, p, 0);
  }

  lemma MulAtLeast(a: int, p: int)
    requires a >= 1 && p > 0
    ensures a * p >= p
  {
    assert a * p == (a - 1) * p + p;
    assert (a - 1) * p >= 0;
  }

  lemma MulMono(x: int, y: int, p: int)
    requires x <= y && p >= 0
    ensures x * p <= y * p
  {
    assert (y - x) * p == y * p - x * p;
  }

  lemma DivUnique(n: int, q: int, p: int, r: int)
    requires p > 0 && n == q * p + r && 0 <= r < p
    ensures n / p == q && n % p == r
  {
    var q', r' := n / p, n % p;
    assert n == q' * p + r';
    if q > q' {
      assert (q - q') * p == q * p - q' * p;
      MulAtLeast(q - q', p);
    } else if q < q' {
      assert (q' - q) * p == q' * p - q * p;
      MulAtLeast(q' - q, p);
    }
  }

  /** A multiple of 2^k has at least k trailing zeros. */
  lemma {:induction false} CtzAtLeast(n: nat, k: nat)
    requires n > 0 && n % Pow2(k) == 0
    ensures Ctz(n) >= k
  {
    if k == 0 {
    } else {
      var p := Pow2(k - 1);
      var q := n / (2 * p);
      assert n == q * (2 * p);
      assert n == 2 * (q * p);
      DivExact(n / 2, q, p);
      assert n % 2 == 0;
      CtzAtLeast(n / 2, k - 1);
    }
  }

  /** Incrementing a number turns its trailing ones into zeros. */
  lemma {:induction false} PopcSucc(n: nat)
    ensures Popc(n + 1) + Ctz(n + 1) == Popc(n) + 1
  {
    if n % 2 == 0 {
      assert (n + 1) / 2 == n / 2;
    } else {
      PopcSucc(n / 2);
      assert (n + 1) / 2 == n / 2 + 1;
    }
  }

  lemma {:induction false} PopcBound(n: nat, k: nat)
    requires n < Pow2(k)
    ensures Popc(n) <= k
  {
    if k == 0 || n == 0 {
    } else {
      PopcBound(n / 2, k - 1);
    }
  }

  /** lfs_npw2 without intrinsics (lfs_util.h:127-141); the or of disjoint bits is a sum. It answers 1, not 0, for 1. */
  method PortableNpw2(a0: nat) returns (r: nat)
    requires 0 < a0 < WORD
    ensures r == Npw2(a0) <==> a0 >= 2
    ensures a0 >= 2 ==> Pow2(r) >= a0 > Pow2(r - 1)
  {
    hide Log2, Npw2, Pow2;
    var a := a0 - 1;
    Npw2OfOne();
    if a == 0 {
      return 1;
    }
    a, r := ShiftOver(a, 0, a, 16, 0x10000, 0x10000);
    a, r := ShiftOver(a0 - 1, r, a, 8, 0x100, 0x100);
    a, r := ShiftOver(a0 - 1, r, a, 4, 0x10, 0x10);
    a, r := ShiftOver(a0 - 1, r, a, 2, 4, 4);
    LogOfTwoBits(a);
    r := r + a / 2 + 1;
    Npw2Floor(a0 - 1);
  }

  /** Bitwise and. */
  function And(a: nat, b: nat): (r: nat) {
    if a == 0 then 0 else (if a % 2 == 1 && b % 2 == 1 then 1 else 0) + 2 * And(a / 2, b / 2)
  }

  /** A number and the one with all its bits inverted have no bit in common. */
  lemma {:induction false} AndInverted(a: nat, width: nat)
    requires a < Pow2(width)
    ensures And(a, Pow2(width) - 1 - a) == 0
  {
    if a > 0 {
      AndInverted(a / 2, width - 1);
    }
  }

  /** A number and its negative have one bit in common, the lowest that the number has. */
  lemma {:induction false} AndNegative(a: nat, width: nat)
    requires 0 < a < Pow2(width)
    ensures And(a, Pow2(width) - a) == Pow2(Ctz(a))
  {
    if a % 2 == 1 {
      AndInverted(a / 2, width - 1);
      assert (Pow2(width) - a) / 2 == Pow2(width - 1) - 1 - a / 2;
      assert Pow2(Ctz(a)) == 1;
    } else {
      AndNegative(a / 2, width - 1);
      assert (Pow2(width) - a) / 2 == Pow2(width - 1) - a / 2;
    }
  }

  /** lfs_ctz without compiler builtins. */
  method PortableCtz(a: nat) returns (r: nat)
    requires 0 < a < WORD
    ensures r == Ctz(a)
  {
    hide Pow2, And, Ctz, Npw2, Log2;
    WordIsPower();
    AndNegative(a, 32);
    CtzFactor(a);
    CtzBelow(a, 32);
    Pow2Mono(Ctz(a), 31);
    Npw2OfPower(Ctz(a));
    r := PortableNpw2(And(a, WORD - a) + 1);
    r := r - 1;
  }

  lemma WordIsPower()
    ensures Pow2(32) == WORD && Pow2(31) == WORD / 2
  {
    hide Pow2;
    SmallPowers();
    Pow2Add(4, 4);
    Pow2Add(8, 8);
    Pow2Add(16, 15);
    Pow2Add(8, 7);
    Pow2Add(31, 1);
  }

  lemma SmallPowers()
    ensures Pow2(1) == 2 && Pow2(4) == 16 && Pow2(7) == 128
  {
    assert Pow2(6) == 4 * Pow2(4);
  }

  lemma CtzBelow(a: nat, width: nat)
    requires 0 < a < Pow2(width)
    ensures Ctz(a) < width
  {
    CtzFactor(a);
    if Ctz(a) >= width {
      Pow2Mono(width, Ctz(a));
    }
  }

  lemma {:induction false} Npw2OfPower(k: nat)
    ensures Npw2(Pow2(k) + 1) == k + 1 && Log2(Pow2(k)) == k
  {
    if k > 0 {
      Npw2OfPower(k - 1);
    }
  }

  lemma Npw2OfOne()
    ensures Npw2(1) == 0
  {
  }

  lemma LogOfTwoBits(a: nat)
    requires 0 < a < 4
    ensures Log2(a) == a / 2
  {
  }

  /** One conditional shift of PortableNpw2: the highest bit of n is bit r + Log2(a). */
  method ShiftOver(n: nat, r: nat, a: nat, k: nat, p: nat, q: nat) returns (a': nat, r': nat)
    requires (k, p) in {(16, 0x10000), (8, 0x100), (4, 0x10), (2, 4)}
    requires n > 0 && 0 < a < p * q && Log2(n) == r + Log2(a)
    ensures 0 < a' < p || 0 < a' < q
    ensures Log2(n) == r' + Log2(a')
  {
    if a > p - 1 {
      Shift(a, k, p);
      a', r' := a / p, r + k;
      DivLess(a, p, q);
    } else {
      a', r' := a, r;
    }
  }

  lemma DivLess(a: nat, p: nat, q: nat)
    requires p > 0 && a < p * q
    ensures a / p < q
  {
    if a / p >= q {
      MulMono(q, a / p, p);
    }
  }

  lemma Shift(a: nat, k: nat, p: nat)
    requires (k, p) in {(16, 0x10000), (8, 0x100), (4, 0x10), (2, 4)}
    requires a >= p
    ensures a / p > 0 && Log2(a) == k + Log2(a / p)
  {
    assert Pow2(4) == 0x10 && Pow2(2) == 4;
    Pow2Add(4, 4);
    Pow2Add(8, 8);
    LogShift(a, k);
  }

  lemma LogShift(a: nat, k: nat)
    requires a >= Pow2(k)
    ensures a / Pow2(k) > 0 && Log2(a) == k + Log2(a / Pow2(k))
    decreases k
  {
    if k > 0 {
      var p := Pow2(k - 1);
      assert Pow2(k) == 2 * p && a >= 2 && a / 2 >= p;
      LogShift(a / 2, k - 1);
      DivDiv(a, p);
    }
  }

  lemma DivDiv(a: nat, p: nat)
    requires p > 0
    ensures a / (2 * p) == (a / 2) / p
  {
    var q, r := (a / 2) / p, (a / 2) % p;
    assert a / 2 == q * p + r;
    assert a == q * (2 * p) + (2 * r + a % 2) by {
      assert q * (2 * p) == 2 * (q * p);
    }
    DivUnique(a, q, 2 * p, 2 * r + a % 2);
  }

  // ----- Counting ones by masked sums -----

  /** The counts of ones in groups of two, four and eight bits, each stored in the bits of its group. */
  function Pairs(a: nat, n: nat): (r: nat) {
    if n == 0 then 0 else Popc(a % 4) + 4 * Pairs(a / 4, n - 1)
  }

  function Nibbles(a: nat, n: nat): (r: nat) {
    if n == 0 then 0 else Popc(a % 16) + 16 * Nibbles(a / 16, n - 1)
  }

  function Octets(a: nat, n: nat): (r: nat) {
    if n == 0 then 0 else Popc(a % 256) + 256 * Octets(a / 256, n - 1)
  }

  /** The low bits of every group: 0x...5555, 0x...3333 and 0x...0f0f, with n groups. */
  function Mask(low: nat, group: nat, n: nat): (r: nat) {
    if n == 0 then 0 else low + group * Mask(low, group, n - 1)
  }

  /** Four groups at a time. */
  lemma FourMasks(low: nat, group: nat, n: nat)
    requires n >= 4
    ensures Mask(low, group, n) ==
            low + group * (low + group * (low + group * (low + group * Mask(low, group, n - 4))))
  {
    var m := Mask(low, group, n - 2);
    assert Mask(low, group, n - 1) == low + group * m;
    assert m == low + group * Mask(low, group, n - 3);
  }

  lemma Masks()
    ensures Mask(1, 4, 16) == 0x5555_5555 && Mask(3, 16, 8) == 0x3333_3333 && Mask(15, 256, 4) == 0x0f0f_0f0f
  {
    hide Mask;
    FourMasks(1, 4, 4);
    FourMasks(1, 4, 8);
    FourMasks(1, 4, 12);
    FourMasks(1, 4, 16);
    FourMasks(3, 16, 4);
    FourMasks(3, 16, 8);
    FourMasks(15, 256, 4);
    NoMask(1, 4);
    NoMask(3, 16);
    NoMask(15, 256);
  }

  lemma NoMask(low: nat, group: nat)
    ensures Mask(low, group, 0) == 0
  {
  }

  /** Dividing in two steps. */
  lemma DivMod(a: nat, m: nat, n: nat)
    requires m > 0 && n > 0
    ensures m * n > 0
    ensures a / m / n == a / (m * n) && a % (m * n) / m == a / m % n && a % (m * n) % m == a % m
  {
    MulAtLeast(m, n);
    var q, r := a / (m * n), a % (m * n);
    var d, e := r / m, r % m;
    assert a == q * (m * n) + r && r == d * m + e;
    if d >= n {
      MulMono(n, d, m);
    }
    assert q * (m * n) == q * n * m && (q * n + d) * m == q * n * m + d * m;
    DivUnique(a, q * n + d, m, e);
    DivUnique(a / m, q, n, d);
  }

  lemma PopcStep(a: nat)
    ensures Popc(a) == a % 2 + Popc(a / 2) && Popc(0) == 0
  {
  }

  lemma PopcByTwo(a: nat)
    ensures Popc(a) == a % 2 + a / 2 % 2 + Popc(a / 4)
  {
    hide Popc;
    PopcStep(a);
    PopcStep(a / 2);
    DivMod(a, 2, 2);
  }

  /** The ones of a group are those of its halves. */
  lemma PopcOfPair(a: nat)
    ensures Popc(a % 4) == a % 2 + a / 2 % 2 <= 2
  {
    hide Popc;
    PopcByTwo(a % 4);
    PopcStep(0);
    DivMod(a, 2, 2);
    assert a % 4 / 4 == 0 && a / 2 % 2 % 2 == a / 2 % 2;
  }

  lemma PopcOfNibble(a: nat)
    ensures Popc(a % 16) == Popc(a % 4) + Popc(a / 4 % 4) <= 4
  {
    hide Popc;
    PopcOfPair(a);
    PopcOfPair(a / 4);
    PopcByTwo(a % 16);
    NibbleDigits(a);
  }

  lemma NibbleDigits(a: nat)
    ensures a % 16 / 4 == a / 4 % 4 && a % 16 % 2 == a % 2 && a % 16 / 2 % 2 == a / 2 % 2
  {
    DivMod(a, 4, 4);
    DivMod(a, 2, 8);
    DivMod(a / 2, 2, 4);
  }

  lemma PopcOfOctet(a: nat)
    ensures Popc(a % 256) == Popc(a % 16) + Popc(a / 16 % 16) <= 8
    ensures Popc(a) == Popc(a % 256) + Popc(a / 256)
  {
    hide Popc;
    PopcOfNibble(a);
    PopcOfNibble(a / 16);
    PopcByNibble(a);
    PopcByNibble(a / 16);
    PopcByNibble(a % 256);
    DivMod(a, 16, 16);
  }

  lemma PopcByNibble(a: nat)
    ensures Popc(a) == Popc(a % 16) + Popc(a / 16)
  {
    hide Popc;
    PopcOfNibble(a);
    PopcOfPair(a);
    PopcOfPair(a / 4);
    PopcByTwo(a);
    PopcByTwo(a / 4);
    DivMod(a, 4, 4);
  }

  lemma AndStep(x: nat, low: nat, high: nat)
    requires low < 2
    ensures And(x, low + 2 * high) == (if low == 1 then x % 2 else 0) + 2 * And(x / 2, high)
  {
  }

  lemma AndByTwo(x: nat, low: nat, high: nat)
    requires low in {0, 1, 3}
    ensures And(x, low + 4 * high) == (if low == 0 then 0 else if low == 1 then x % 2 else x % 4) + 4 * And(x / 4, high)
  {
    hide And;
    AndStep(x, low % 2, low / 2 + 2 * high);
    AndStep(x / 2, low / 2, high);
    DivMod(x, 2, 2);
    assert low % 2 + 2 * (low / 2 + 2 * high) == low + 4 * high;
  }

  /** Masking one group, and the rest. */
  lemma PairMask(x: nat, n: nat)
    requires n > 0
    ensures And(x, Mask(1, 4, n)) == x % 2 + 4 * And(x / 4, Mask(1, 4, n - 1))
  {
    hide And;
    AndByTwo(x, 1, Mask(1, 4, n - 1));
  }

  lemma NibbleMask(x: nat, n: nat)
    requires n > 0
    ensures And(x, Mask(3, 16, n)) == x % 4 + 16 * And(x / 16, Mask(3, 16, n - 1))
  {
    hide And;
    AndByNibble(x, 3, Mask(3, 16, n - 1));
  }

  lemma OctetMask(x: nat, n: nat)
    requires n > 0
    ensures And(x, Mask(15, 256, n)) == x % 16 + 256 * And(x / 256, Mask(15, 256, n - 1))
  {
    hide And;
    AndByNibble(x, 15, 16 * Mask(15, 256, n - 1));
    AndByNibble(x / 16, 0, Mask(15, 256, n - 1));
    DivMod(x, 16, 16);
  }

  lemma AndByNibble(x: nat, low: nat, high: nat)
    requires low in {0, 3, 15}
    ensures And(x, low + 16 * high) ==
            (if low == 0 then 0 else if low == 3 then x % 4 else x % 16) + 16 * And(x / 16, high)
  {
    hide And;
    AndByTwo(x, low % 4, low / 4 + 4 * high);
    AndByTwo(x / 4, low / 4, high);
    DivMod(x, 4, 4);
    assert low % 4 + 4 * (low / 4 + 4 * high) == low + 16 * high;
  }

  lemma {:induction false} AndNothing(x: nat)
    ensures And(x, 0) == 0
  {
    if x > 0 {
      AndNothing(x / 2);
    }
  }

  lemma NoGroups(a: nat)
    ensures Pairs(a, 0) == Nibbles(a, 0) == Octets(a, 0) == 0
  {
  }

  lemma GroupStep(a: nat, n: nat)
    requires n > 0
    ensures Pairs(a, n) == Popc(a % 4) + 4 * Pairs(a / 4, n - 1)
    ensures Nibbles(a, n) == Popc(a % 16) + 16 * Nibbles(a / 16, n - 1)
    ensures Octets(a, n) == Popc(a % 256) + 256 * Octets(a / 256, n - 1)
  {
    hide Popc;
  }

  /** First step: the upper bit of each pair is taken away once. */
  lemma {:induction false} PairsCounted(a: nat, n: nat)
    requires a < Pow2(2 * n)
    ensures a - And(a / 2, Mask(1, 4, n)) == Pairs(a, n)
  {
    hide And, Mask, Pow2, Popc, Pairs;
    PowerStep(2 * n);
    if n == 0 {
      NoGroups(a);
      NoMask(1, 4);
      AndNothing(a / 2);
    } else {
      PairsCounted(a / 4, n - 1);
      GroupStep(a, n);
      PairMask(a / 2, n);
      PopcOfPair(a);
      PairTaken(a, And(a / 4 / 2, Mask(1, 4, n - 1)));
    }
  }

  lemma PowerStep(k: nat)
    ensures Pow2(0) == 1 && (k >= 2 ==> Pow2(k) == 4 * Pow2(k - 2))
  {
  }

  lemma PairTaken(a: nat, rest: nat)
    ensures a / 2 / 4 == a / 4 / 2
    ensures a - (a / 2 % 2 + 4 * rest) == a % 2 + a / 2 % 2 + 4 * (a / 4 - rest)
  {
    DivMod(a, 2, 4);
    DivMod(a, 4, 2);
    DivMod(a, 2, 2);
  }

  /** Second step: neighbouring pairs are added. */
  lemma {:induction false} NibblesCounted(a: nat, n: nat)
    ensures var b := Pairs(a, 2 * n);
            And(b, Mask(3, 16, n)) + And(b / 4, Mask(3, 16, n)) == Nibbles(a, n)
  {
    hide And, Mask, Popc, Pairs, Nibbles;
    if n == 0 {
      NoGroups(a);
      NoMask(3, 16);
      AndNothing(0);
    } else {
      var b, rest := Pairs(a, 2 * n), Pairs(a / 16, 2 * (n - 1));
      GroupStep(a, 2 * n);
      GroupStep(a / 4, 2 * n - 1);
      GroupStep(a, n);
      DivMod(a, 4, 4);
      PopcOfNibble(a);
      PopcOfPair(a);
      PopcOfPair(a / 4);
      NibblesCounted(a / 16, n - 1);
      NibbleMask(b, n);
      NibbleMask(b / 4, n);
      TwoDigits(b, Popc(a % 4), Popc(a / 4 % 4), rest);
    }
  }

  lemma TwoDigits(b: nat, d0: nat, d1: nat, rest: nat)
    requires d0 < 4 && d1 < 4 && b == d0 + 4 * (d1 + 4 * rest)
    ensures b % 4 == d0 && b / 4 % 4 == d1 && b / 16 == rest && b / 4 / 16 == rest / 4
  {
    DivUnique(b, d1 + 4 * rest, 4, d0);
    DivUnique(b / 4, rest, 4, d1);
    DivMod(b, 4, 4);
    DivMod(b / 4, 4, 4);
  }

  /** Third step: so are neighbouring groups of four, whose sums leave room in their bits. */
  lemma {:induction false} OctetsCounted(a: nat, n: nat)
    ensures var c := Nibbles(a, 2 * n);
            And(c + c / 16, Mask(15, 256, n)) == Octets(a, n)
  {
    hide And, Mask, Popc, Nibbles, Octets;
    if n == 0 {
      NoGroups(a);
      NoMask(15, 256);
      AndNothing(0);
    } else {
      TwoNibbles(a, n);
      GroupStep(a, n);
      PopcOfOctet(a);
      OctetsCounted(a / 256, n - 1);
      NibblesAdded(Nibbles(a, 2 * n), Popc(a % 16), Popc(a / 16 % 16), Nibbles(a / 256, 2 * (n - 1)), n);
    }
  }

  lemma TwoNibbles(a: nat, n: nat)
    requires n > 0
    ensures Nibbles(a, 2 * n) == Popc(a % 16) + 16 * (Popc(a / 16 % 16) + 16 * Nibbles(a / 256, 2 * (n - 1)))
    ensures Popc(a % 16) <= 4 && Popc(a / 16 % 16) <= 4 && Nibbles(a / 256, 2 * (n - 1)) % 16 <= 4
  {
    hide Popc, Nibbles;
    GroupStep(a, 2 * n);
    GroupStep(a / 16, 2 * n - 1);
    DivMod(a, 16, 16);
    PopcOfNibble(a);
    PopcOfNibble(a / 16);
    NibbleBound(a / 256, 2 * (n - 1));
  }

  lemma NibblesAdded(c: nat, d0: nat, d1: nat, rest: nat, n: nat)
    requires n > 0 && d0 <= 4 && d1 <= 4 && rest % 16 <= 4 && c == d0 + 16 * (d1 + 16 * rest)
    ensures And(c + c / 16, Mask(15, 256, n)) == d0 + d1 + 256 * And(rest + rest / 16, Mask(15, 256, n - 1))
  {
    hide And, Mask;
    OctetMask(c + c / 16, n);
    NoCarry(c, d0, d1, rest);
  }

  /** The sums of neighbouring digits stay below 16. */
  lemma NoCarry(c: nat, d0: nat, d1: nat, rest: nat)
    requires d0 <= 4 && d1 <= 4 && rest % 16 <= 4 && c == d0 + 16 * (d1 + 16 * rest)
    ensures (c + c / 16) % 16 == d0 + d1 && (c + c / 16) / 256 == rest + rest / 16
  {
    DivUnique(c, d1 + 16 * rest, 16, d0);
    var d2, more := rest % 16, rest / 16;
    assert rest == d2 + 16 * more;
    DivUnique(c + c / 16, d1 + d2 + 16 * (rest + more), 16, d0 + d1);
    DivUnique(c + c / 16, rest + more, 256, d0 + d1 + 16 * (d1 + d2));
  }

  lemma NibbleBound(a: nat, n: nat)
    ensures Nibbles(a, n) % 16 <= 4
  {
    hide Popc;
    if n == 0 {
      NoGroups(a);
    } else {
      PopcOfNibble(a);
      GroupStep(a, n);
      DivUnique(Nibbles(a, n), Nibbles(a / 16, n - 1), 16, Popc(a % 16));
    }
  }

  lemma PopcOfWord(a: nat)
    requires a < WORD
    ensures Popc(a) == Popc(a % 256) + Popc(a / 0x100 % 256) + Popc(a / 0x1_0000 % 256) + Popc(a / 0x100_0000 % 256)
    ensures Popc(a % 256) <= 8 && Popc(a / 0x100 % 256) <= 8
    ensures Popc(a / 0x1_0000 % 256) <= 8 && Popc(a / 0x100_0000 % 256) <= 8
  {
    hide Popc;
    PopcOfOctet(a);
    PopcOfOctet(a / 0x100);
    PopcOfOctet(a / 0x1_0000);
    PopcOfOctet(a / 0x100_0000);
    OctetQuotients(a);
    PopcStep(0);
  }

  lemma OctetQuotients(a: nat)
    requires a < WORD
    ensures a / 0x100 / 256 == a / 0x1_0000 && a / 0x1_0000 / 256 == a / 0x100_0000 && a / 0x100_0000 / 256 == 0
  {
    DivMod(a, 0x100, 0x100);
    DivMod(a, 0x1_0000, 0x100);
    DivMod(a, 0x100_0000, 0x100);
    DivUnique(a, 0, WORD, a);
  }

  /** Last step: multiplying adds the four octets up in the uppermost one. */
  lemma OctetsAdded(a: nat)
    requires a < WORD
    ensures Octets(a, 4) * 0x0101_0101 % WORD / 0x100_0000 == Popc(a)
  {
    hide Popc, Octets;
    PopcOfWord(a);
    FourOctets(a);
    TopOctet(Popc(a % 256), Popc(a / 0x100 % 256), Popc(a / 0x1_0000 % 256), Popc(a / 0x100_0000 % 256));
  }

  lemma FourOctets(a: nat)
    ensures Octets(a, 4) == Popc(a % 256) + 0x100 * Popc(a / 0x100 % 256) + 0x1_0000 * Popc(a / 0x1_0000 % 256)
                            + 0x100_0000 * Popc(a / 0x100_0000 % 256)
  {
    hide Popc, Octets;
    GroupStep(a, 4);
    GroupStep(a / 0x100, 3);
    GroupStep(a / 0x1_0000, 2);
    GroupStep(a / 0x100_0000, 1);
    NoGroups(a / 0x100_0000 / 256);
    DivMod(a, 0x100, 0x100);
    DivMod(a, 0x1_0000, 0x100);
  }

  lemma TopOctet(e0: nat, e1: nat, e2: nat, e3: nat)
    requires e0 <= 8 && e1 <= 8 && e2 <= 8 && e3 <= 8
    ensures (e0 + 0x100 * e1 + 0x1_0000 * e2 + 0x100_0000 * e3) * 0x0101_0101 % WORD / 0x100_0000 == e0 + e1 + e2 + e3
  {
    var e := e0 + 0x100 * e1 + 0x1_0000 * e2 + 0x100_0000 * e3;
    var top := e1 + e2 + e3 + 0x100 * (e2 + e3) + 0x1_0000 * e3;
    var low := e0 + 0x100 * (e0 + e1) + 0x1_0000 * (e0 + e1 + e2) + 0x100_0000 * (e0 + e1 + e2 + e3);
    assert e * 0x0101_0101 == low + WORD * top;
    DivUnique(e * 0x0101_0101, top, WORD, low);
    DivUnique(low, e0 + e1 + e2 + e3, 0x100_0000, e0 + 0x100 * (e0 + e1) + 0x1_0000 * (e0 + e1 + e2));
  }

  /** lfs_popc without compiler builtins: no subtraction goes below zero, and no sum but the last overflows. */
  method PortablePopc(a: nat) returns (r: nat)
    requires a < WORD
    ensures r == Popc(a)
  {
    hide Popc, And, Pow2, Mask, Pairs, Nibbles, Octets;
    WordIsPower();
    Masks();
    PairsCounted(a, 16);
    NibblesCounted(a, 8);
    OctetsCounted(a, 4);
    OctetsAdded(a);
    var b := a - And(a / 2, 0x5555_5555);
    var c := And(b, 0x3333_3333) + And(b / 4, 0x3333_3333);
    r := And(c + c / 16, 0x0f0f_0f0f) * 0x0101_0101 % WORD / 0x100_0000;
  }
}
