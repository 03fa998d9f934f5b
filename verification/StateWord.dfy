/**
 * The bits of the global state in memory (littlefs/lfs.c:407-428) and what lfs_fs_prepsuperblock, lfs_fs_preporphans
 * and lfs_fs_prepmove do to them (lfs.c:4635-4662).
 */
module StateWord {
  import opened Basics
  import Bits

  const BITS: nat := 96

  /** lfs_gstate_t: the bits of a tag and of two block numbers, 32 each, lowest bits first. */
  type Gstate = s: seq<bool> | |s| == BITS witness seq(BITS, _ => false)

  const HALF: nat := 0x8000_0000

  function Bit(b: bool): (r: nat) {
    if b then 1 else 0
  }

  // ----- Numbers and their bits -----

  /** The number that bits stand for, lowest first. */
  function Num(s: seq<bool>): (r: nat) {
    if s == [] then 0 else Bit(s[0]) + 2 * Num(s[1..])
  }

  function Digits(n: nat, width: nat): (s: seq<bool>)
    ensures |s| == width
  {
    if width == 0 then [] else [n % 2 == 1] + Digits(n / 2, width - 1)
  }

  lemma {:induction false} NumBound(s: seq<bool>)
    ensures Num(s) < Bits.Pow2(|s|)
  {
    if s != [] {
      NumBound(s[1..]);
    }
  }

  lemma {:induction false} DigitsOfNum(s: seq<bool>)
    ensures Digits(Num(s), |s|) == s
  {
    if s != [] {
      DigitsOfNum(s[1..]);
    }
  }

  lemma {:induction false} NumOfDigits(n: nat, width: nat)
    requires n < Bits.Pow2(width)
    ensures Num(Digits(n, width)) == n
  {
    if width > 0 {
      NumOfDigits(n / 2, width - 1);
    }
  }

  lemma {:induction false} NumConcat(a: seq<bool>, b: seq<bool>)
    ensures Num(a + b) == Num(a) + Bits.Pow2(|a|) * Num(b)
  {
    if a == [] {
      assert a + b == b;
    } else {
      assert (a + b)[1..] == a[1..] + b;
      NumConcat(a[1..], b);
      Doubled(Bits.Pow2(|a| - 1), Num(b));
    }
  }

  lemma Doubled(p: nat, n: nat)
    ensures (2 * p) * n == 2 * (p * n)
  {
  }

  /** The digits of the low and of the high part of a number. */
  lemma {:induction false} DigitsConcat(x: nat, i: nat, y: nat, j: nat)
    requires x < Bits.Pow2(i)
    ensures Digits(x + Bits.Pow2(i) * y, i + j) == Digits(x, i) + Digits(y, j)
  {
    if i > 0 {
      var half := Bits.Pow2(i - 1) * y;
      Doubled(Bits.Pow2(i - 1), y);
      assert (x + 2 * half) / 2 == x / 2 + half && (x + 2 * half) % 2 == x % 2;
      DigitsConcat(x / 2, i - 1, y, j);
    }
  }

  lemma Powers()
    ensures Bits.Pow2(1) == 2 && Bits.Pow2(9) == 0x200 && Bits.Pow2(10) == 0x400 && Bits.Pow2(11) == 0x800
    ensures Bits.Pow2(22) == 0x40_0000 && Bits.Pow2(23) == 0x80_0000 && Bits.Pow2(32) == WORD
  {
    hide Bits.Pow2;
    SmallPowers();
    Bits.Pow2Add(11, 11);
    Bits.Pow2Add(22, 1);
    Bits.Pow2Add(22, 10);
  }

  lemma SmallPowers()
    ensures Bits.Pow2(1) == 2 && Bits.Pow2(9) == 0x200 && Bits.Pow2(10) == 0x400 && Bits.Pow2(11) == 0x800
  {
    assert Bits.Pow2(3) == 8 && Bits.Pow2(6) == 8 * Bits.Pow2(3) && Bits.Pow2(9) == 8 * Bits.Pow2(6);
  }

  // ----- The fields -----

  function TagWord(a: Gstate): (r: nat) {
    Num(a[..32])
  }

  /** The lower nine size bits of the tag count orphans; the tenth asks for a new superblock. */
  function Orphans(a: Gstate): (r: nat) {
    Num(a[..9])
  }

  predicate NeedsSuperblock(a: Gstate) {
    a[9]
  }

  function MoveId(a: Gstate): (r: nat) {
    Num(a[10..20])
  }

  function MoveType(a: Gstate): (r: nat) {
    Num(a[20..31])
  }

  /** The type that a pending move has: LFS_TYPE_DELETE. */
  const DELETE_TYPE: nat := 0x4ff

  const NO_ID: nat := 0x3ff

  /** lfs_gstate_hasmove looks at the upper three bits of the type. */
  predicate HasMove(a: Gstate) {
    a[28] || a[29] || a[30]
  }

  function MovePair(a: Gstate): (r: (nat, nat)) {
    (Num(a[32..64]), Num(a[64..]))
  }

  /** The bit that lfs_tag_isvalid looks at. */
  const INVALID_BIT: nat := 31

  /** The bit that goes to disk tells whether there are orphans. */
  predicate Mirrored(a: Gstate) {
    a[INVALID_BIT] <==> Orphans(a) > 0
  }

  // ----- lfs_fs_preporphans -----

  /** The tag plus a signed number, its uppermost bit then set if and only if the size is not zero. */
  function AddOrphans(a: Gstate, k: int): (r: Gstate) {
    var w := (TagWord(a) + k) % WORD;
    Digits(w % HALF + if w % 0x400 != 0 then HALF else 0, 32) + a[32..]
  }

  /** The parts of the tag below the uppermost bit. */
  lemma TagParts(a: Gstate)
    ensures TagWord(a) == Orphans(a) + 0x200 * Num(a[9..31]) + HALF * Bit(a[31])
    ensures Orphans(a) < 0x200 && Num(a[9..31]) < 0x40_0000
    ensures Num(a[9..31]) % 2 == Bit(a[9])
  {
    hide Bits.Pow2, Num;
    Powers();
    assert a[..32] == a[..9] + (a[9..31] + [a[31]]);
    NumConcat(a[..9], a[9..31] + [a[31]]);
    NumConcat(a[9..31], [a[31]]);
    NumBound(a[..9]);
    NumBound(a[9..31]);
    NumOfOne(a[31]);
    NumParity(a[9..31]);
  }

  lemma NumOfOne(b: bool)
    ensures Num([b]) == Bit(b)
  {
    assert [b][1..] == [];
  }

  lemma NumParity(s: seq<bool>)
    requires s != []
    ensures Num(s) % 2 == Bit(s[0])
  {
  }

  /** Putting the parts together again. */
  lemma WordDigits(low: nat, mid: nat, top: bool)
    requires low < 0x200 && mid < 0x40_0000
    ensures Digits(low + 0x200 * mid + HALF * Bit(top), 32) == Digits(low, 9) + Digits(mid, 22) + [top]
  {
    hide Bits.Pow2, Digits;
    Powers();
    DigitsConcat(mid, 22, Bit(top), 1);
    DigitsConcat(low, 9, mid + 0x40_0000 * Bit(top), 23);
    OneDigit(top);
    assert Digits(low, 9) + (Digits(mid, 22) + [top]) == Digits(low, 9) + Digits(mid, 22) + [top];
  }

  lemma OneDigit(top: bool)
    ensures Digits(Bit(top), 1) == [top]
  {
  }

  /** What adding to the tag leaves in its parts, a carry out of the count included. */
  lemma AddedParts(a: Gstate, k: int)
    requires -0x200 < k < 0x200
    ensures var low, mid := (Orphans(a) + k) % 0x200, (Num(a[9..31]) + (Orphans(a) + k) / 0x200) % 0x40_0000;
            AddOrphans(a, k) == Digits(low, 9) + Digits(mid, 22) + [low != 0 || mid % 2 != 0] + a[32..]
  {
    hide Digits, Num;
    TagParts(a);
    var n, m := Orphans(a) + k, Num(a[9..31]);
    var low, mid := n % 0x200, (m + n / 0x200) % 0x40_0000;
    Carried(n, m, Bit(a[31]));
    var w := (TagWord(a) + k) % WORD;
    assert w == (n + 0x200 * m + HALF * Bit(a[31])) % WORD;
    WordDigits(low, mid, low != 0 || mid % 2 != 0);
    assert w % 0x400 != 0 <==> low != 0 || mid % 2 != 0;
  }

  /** A carry, or a borrow, goes to the middle part, and out of it to nowhere that is kept. */
  lemma Carried(n: int, mid: nat, top: nat)
    requires -0x200 < n < 0x400 && mid < 0x40_0000 && top < 2
    ensures var w := (n + 0x200 * mid + HALF * top) % WORD;
            && w % HALF == n % 0x200 + 0x200 * ((mid + n / 0x200) % 0x40_0000)
            && w % 0x400 == n % 0x200 + 0x200 * ((mid + n / 0x200) % 0x40_0000 % 2)
  {
    var low, c := n % 0x200, n / 0x200;
    assert n == low + 0x200 * c && -1 <= c <= 1;
    if mid + c < 0 {
      InHalf(n + 0x200 * mid + HALF * top, low, 0x3f_ffff, 1 - top, top - 1);
    } else if mid + c == 0x40_0000 {
      InHalf(n + 0x200 * mid + HALF * top, low, 0, 1 - top, top);
    } else {
      InHalf(n + 0x200 * mid + HALF * top, low, mid + c, top, 0);
    }
  }

  lemma InHalf(z: int, low: nat, mid: nat, top: nat, turns: int)
    requires low < 0x200 && mid < 0x40_0000 && top < 2
    requires z == low + 0x200 * mid + HALF * top + WORD * turns
    ensures z % WORD % HALF == low + 0x200 * mid && z % WORD % 0x400 == low + 0x200 * (mid % 2)
  {
    var w := low + 0x200 * mid + HALF * top;
    Bits.DivUnique(z, turns, WORD, w);
    Bits.DivUnique(w, top, HALF, low + 0x200 * mid);
    Bits.DivUnique(w, mid / 2 + 0x20_0000 * top, 0x400, low + 0x200 * (mid % 2));
  }

  /**
   * lfs_fs_preporphans counts as long as the count stays in its nine bits. Exactly then it leaves the rest of the tag
   * alone but for the uppermost bit, which tells whether anything is counted; a carry would ask for, or call off, a new
   * superblock, or change the pending move.
   */
  lemma OrphansCounted(a: Gstate, k: int)
    requires -0x200 < k < 0x200
    ensures var b := AddOrphans(a, k);
            && (0 <= Orphans(a) + k < 0x200 <==> b[9..31] == a[9..31])
            && (0 <= Orphans(a) + k < 0x200 ==> Orphans(b) == Orphans(a) + k)
            && (b[INVALID_BIT] <==> Orphans(b) > 0 || NeedsSuperblock(b))
            && b[32..] == a[32..]
  {
    hide Digits, Num, Bits.Pow2, AddOrphans;
    AddedParts(a, k);
    TagParts(a);
    Powers();
    var b, m := AddOrphans(a, k), Num(a[9..31]);
    var low, mid := (Orphans(a) + k) % 0x200, (m + (Orphans(a) + k) / 0x200) % 0x40_0000;
    NumOfDigits(low, 9);
    NumOfDigits(mid, 22);
    DigitsOfNum(a[9..31]);
    TagSlices(Digits(low, 9), Digits(mid, 22), low != 0 || mid % 2 != 0, a[32..]);
    TagParts(b);
    SameMiddle(m, Orphans(a) + k);
  }

  lemma TagSlices(low: seq<bool>, mid: seq<bool>, top: bool, pair: seq<bool>)
    requires |low| == 9 && |mid| == 22 && |pair| == 64
    ensures var b := low + mid + [top] + pair;
            b[..9] == low && b[9..31] == mid && b[31] == top && b[32..] == pair
  {
  }

  /** The middle part stays the same exactly if nothing is carried. */
  lemma SameMiddle(m: nat, n: int)
    requires m < 0x40_0000 && -0x200 < n < 0x400
    ensures (m + n / 0x200) % 0x40_0000 == m <==> 0 <= n < 0x200
    ensures 0 <= n < 0x200 ==> n % 0x200 == n
  {
    var c := n / 0x200;
    assert n == n % 0x200 + 0x200 * c && -1 <= c <= 1;
  }

  /** What an int8_t parameter receives. */
  function Signed8(n: int): (r: int) {
    (n + 128) % 256 - 128
  }

  /**
   * lfs_fs_deorphan ends by counting down what lfs_gstate_getorphans, an uint8_t, reports, through an int8_t: nothing
   * stays counted exactly if there were at most 128 orphans. (With 385 or more the count itself reads zero, but the
   * carry asks for a new superblock.) No caller is known to let the count get that far.
   */
  lemma DeorphanClears(a: Gstate)
    requires !NeedsSuperblock(a)
    ensures var b := AddOrphans(a, Signed8(-(Orphans(a) % 256)));
            (Orphans(b) == 0 && !NeedsSuperblock(b)) <==> Orphans(a) <= 128
  {
    hide Digits, AddOrphans, Num;
    var k := Signed8(-(Orphans(a) % 256));
    OrphansCounted(a, k);
    TagParts(a);
    if Orphans(a) + k == 0x200 {
      CarryAsks(a, k);
    } else {
      assert 0 <= Orphans(a) + k < 0x200;
      assert AddOrphans(a, k)[9] == AddOrphans(a, k)[9..31][0] == a[9..31][0] == a[9];
    }
  }

  lemma CarryAsks(a: Gstate, k: int)
    requires !NeedsSuperblock(a) && -0x200 < k < 0x200 && Orphans(a) + k == 0x200
    ensures NeedsSuperblock(AddOrphans(a, k))
  {
    hide Digits, AddOrphans, Num;
    AddedParts(a, k);
    TagParts(a);
    FirstDigit((Num(a[9..31]) + 1) % 0x40_0000, 22);
  }

  lemma FirstDigit(n: nat, width: nat)
    requires width > 0
    ensures Digits(n, width)[0] == (n % 2 == 1)
  {
  }

  // ----- lfs_fs_prepmove and lfs_fs_prepsuperblock -----

  /** The type and id of the tag and the pair replaced: by those of a pending move, or by nothing. */
  function MoveNoted(a: Gstate, id: nat, pair: (nat, nat)): (r: Gstate)
    requires id <= NO_ID && pair.0 < WORD && pair.1 < WORD
  {
    var move := if id != NO_ID then Digits(id, 10) + Digits(DELETE_TYPE, 11) else Digits(0, 21);
    var blocks := if id != NO_ID then Digits(pair.0, 32) + Digits(pair.1, 32) else Digits(0, 64);
    a[..10] + move + [a[31]] + blocks
  }

  /** The pending move is read back as it was put in, and the counts and the uppermost bit are left alone. */
  lemma MoveReadsBack(a: Gstate, id: nat, pair: (nat, nat))
    requires id <= NO_ID && pair.0 < WORD && pair.1 < WORD
    ensures var b := MoveNoted(a, id, pair);
            && (HasMove(b) <==> id != NO_ID)
            && (id != NO_ID ==> MoveId(b) == id && MoveType(b) == DELETE_TYPE && MovePair(b) == pair)
            && (id == NO_ID ==> MoveId(b) == 0 && MoveType(b) == 0 && MovePair(b) == (0, 0))
            && b[..10] == a[..10] && b[31] == a[31]
  {
    hide Digits, Num, MoveNoted;
    if id != NO_ID {
      MoveSet(a, id, pair);
    } else {
      MoveCleared(a, pair);
    }
  }

  lemma MoveSet(a: Gstate, id: nat, pair: (nat, nat))
    requires id < NO_ID && pair.0 < WORD && pair.1 < WORD
    ensures var b := MoveNoted(a, id, pair);
            && HasMove(b) && MoveId(b) == id && MoveType(b) == DELETE_TYPE && MovePair(b) == pair
            && b[..10] == a[..10] && b[31] == a[31]
  {
    hide Digits, Bits.Pow2, Num;
    Powers();
    NumOfDigits(id, 10);
    NumOfDigits(DELETE_TYPE, 11);
    NumOfDigits(pair.0, 32);
    NumOfDigits(pair.1, 32);
    DeleteDigits();
    Slices(a[..10], Digits(id, 10), Digits(DELETE_TYPE, 11), a[31], Digits(pair.0, 32), Digits(pair.1, 32));
    var b := MoveNoted(a, id, pair);
    assert b == a[..10] + Digits(id, 10) + Digits(DELETE_TYPE, 11) + [a[31]] + Digits(pair.0, 32) + Digits(pair.1, 32);
    assert b[28] == b[20..31][8] && b[29] == b[20..31][9] && b[30] == b[20..31][10];
  }

  lemma MoveCleared(a: Gstate, pair: (nat, nat))
    requires pair.0 < WORD && pair.1 < WORD
    ensures var b := MoveNoted(a, NO_ID, pair);
            && !HasMove(b) && MoveId(b) == 0 && MoveType(b) == 0 && MovePair(b) == (0, 0)
            && b[..10] == a[..10] && b[31] == a[31]
  {
    hide Digits, Num;
    var b := MoveNoted(a, NO_ID, pair);
    NoDigits(21);
    NoDigits(64);
    var type_, blocks := Digits(0, 21), Digits(0, 64);
    Slices(a[..10], type_[..10], type_[10..], a[31], blocks[..32], blocks[32..]);
    assert type_[..10] + type_[10..] == type_ && blocks[..32] + blocks[32..] == blocks;
    assert b == a[..10] + type_[..10] + type_[10..] + [a[31]] + blocks[..32] + blocks[32..];
    ZeroNum(type_[..10]);
    ZeroNum(type_[10..]);
    ZeroNum(blocks[..32]);
    ZeroNum(blocks[32..]);
    assert b[28] == b[20..31][8] && b[29] == b[20..31][9] && b[30] == b[20..31][10];
  }

  /** The parts that a state is put together from. */
  lemma Slices(size: seq<bool>, id: seq<bool>, ty: seq<bool>, top: bool, first: seq<bool>, second: seq<bool>)
    requires |size| == 10 && |id| == 10 && |ty| == 11 && |first| == 32 && |second| == 32
    ensures var b := size + id + ty + [top] + first + second;
            && |b| == BITS && b[..10] == size && b[10..20] == id && b[20..31] == ty && b[31] == top
            && b[32..64] == first && b[64..] == second
  {
  }

  /** 0x4ff is 100 1111 1111 in binary. */
  lemma DeleteDigits()
    ensures var d := Digits(DELETE_TYPE, 11);
            d[10] && !d[9] && !d[8] && forall i :: 0 <= i < 8 ==> d[i]
  {
    hide Digits;
    DigitStep(0x4ff, 11);
    DigitStep(0x27f, 10);
    DigitStep(0x13f, 9);
    DigitStep(0x9f, 8);
    DigitStep(0x4f, 7);
    DigitStep(0x27, 6);
    DigitStep(0x13, 5);
    DigitStep(0x9, 4);
    DigitStep(0x4, 3);
    DigitStep(0x2, 2);
    DigitStep(0x1, 1);
  }

  lemma DigitStep(n: nat, width: nat)
    requires width > 0
    ensures Digits(n, width) == [n % 2 == 1] + Digits(n / 2, width - 1)
  {
  }

  lemma {:induction false} NoDigits(width: nat)
    ensures forall i :: 0 <= i < width ==> !Digits(0, width)[i]
  {
    if width > 0 {
      NoDigits(width - 1);
    }
  }

  lemma {:induction false} ZeroNum(s: seq<bool>)
    ensures (forall i :: 0 <= i < |s| ==> !s[i]) <==> Num(s) == 0
  {
    if s != [] {
      ZeroNum(s[1..]);
    }
  }

  function WithSuperblock(a: Gstate, needed: bool): (r: Gstate) {
    a[9 := needed]
  }
}
