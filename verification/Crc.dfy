/**
 * The checksum of littlefs: littlefs/lfs_util.c:15-31. The reference is the division of the message, bit by bit
 * and lowest bit first, by the polynomial of section 3.2.9 of IEEE 802.3 in reflected form, without the final
 * complement.
 */
module Crc {

  /** 0x04c11db7 with its bits in reverse order. */
  const POLY: bv32 := 0xedb88320

  function Xor(a: bv32, b: bv32): (r: bv32) {
    a ^ b
  }

  /** Moves all bits one place down. */
  function Down(a: bv32): (r: bv32) {
    a >> 1
  }

  /** The lowest bit. */
  predicate Odd(a: bv32) {
    a & 1 == 1
  }

  /** Shifts one bit out of the remainder and subtracts the polynomial if that bit was set. */
  function Shift(x: bv32): (r: bv32) {
    if Odd(x) then Xor(Down(x), POLY) else Down(x)
  }

  function Bit(b: bool): (r: bv32) {
    if b then 1 else 0
  }

  /** One step of the division: a message bit is added to the end of the remainder, which is then shifted. */
  function Step(r: bv32, b: bool): (result: bv32) {
    Shift(Xor(r, Bit(b)))
  }

  /** Long division of a message, given the remainder so far. */
  function Divide(r: bv32, bits: seq<bool>): (result: bv32)
    decreases |bits|
  {
    if bits == [] then r else Divide(Step(r, bits[0]), bits[1..])
  }

  /** The bits of a byte, lowest first. */
  function ByteBits(b: bv8): (s: seq<bool>)
    ensures |s| == 8
  {
    [b & 1 != 0, b & 2 != 0, b & 4 != 0, b & 8 != 0, b & 16 != 0, b & 32 != 0, b & 64 != 0, b & 128 != 0]
  }

  function Message(data: seq<bv8>): (r: seq<bool>)
    decreases |data|
  {
    if data == [] then [] else ByteBits(data[0]) + Message(data[1..])
  }

  // ----- The algorithm -----

  /** The table of lfs_crc. */
  function Table(i: bv32): (r: bv32) {
    match i
    case 0 => 0x00000000 case 1 => 0x1db71064 case 2 => 0x3b6e20c8 case 3 => 0x26d930ac
    case 4 => 0x76dc4190 case 5 => 0x6b6b51f4 case 6 => 0x4db26158 case 7 => 0x5005713c
    case 8 => 0xedb88320 case 9 => 0xf00f9344 case 10 => 0xd6d6a3e8 case 11 => 0xcb61b38c
    case 12 => 0x9b64c2b0 case 13 => 0x86d3d2d4 case 14 => 0xa00ae278 case _ => 0xbdbdf21c
  }

  function Low4(d: bv32): (r: bv32) {
    d & 0xf
  }

  function Down4(d: bv32): (r: bv32) {
    d >> 4
  }

  function Word(b: bv8): (r: bv32) {
    b as bv32
  }

  /** One line of the loop of lfs_crc. */
  function Nibble(crc: bv32, d: bv32): (r: bv32) {
    Xor(Down4(crc), Table(Low4(Xor(crc, d))))
  }

  function CrcByte(crc: bv32, b: bv8): (r: bv32) {
    Nibble(Nibble(crc, Word(b)), Down4(Word(b)))
  }

  /** The checksum of a buffer. */
  function Crc(crc: bv32, data: seq<bv8>): (r: bv32)
    decreases |data|
  {
    if data == [] then crc else Crc(CrcByte(crc, data[0]), data[1..])
  }

  // ----- Word arithmetic -----

  lemma XorLaws(a: bv32, b: bv32, c: bv32)
    ensures Xor(a, b) == Xor(b, a)
    ensures Xor(Xor(a, b), c) == Xor(a, Xor(b, c))
    ensures Xor(a, a) == 0 && Xor(a, 0) == a
  {
    Associative(a, b, c);
  }

  lemma Associative(a: bv32, b: bv32, c: bv32)
    ensures Xor(Xor(a, b), c) == Xor(a, Xor(b, c))
  {
  }

  lemma XorParts(a: bv32, b: bv32)
    ensures Odd(Xor(a, b)) == (Odd(a) != Odd(b))
    ensures Down(Xor(a, b)) == Xor(Down(a), Down(b))
  {
  }

  lemma Swap(a: bv32, b: bv32, c: bv32, d: bv32)
    ensures Xor(Xor(a, b), Xor(c, d)) == Xor(Xor(a, c), Xor(b, d))
  {
    hide Xor;
    XorLaws(a, b, Xor(c, d));
    XorLaws(b, c, d);
    XorLaws(c, b, d);
    XorLaws(a, c, Xor(b, d));
  }

  /** Shifting is linear. */
  lemma ShiftLinear(a: bv32, b: bv32)
    ensures Shift(Xor(a, b)) == Xor(Shift(a), Shift(b))
  {
    hide Xor, Odd, Down;
    XorParts(a, b);
    var p, q := Down(a), Down(b);
    Swap(p, POLY, q, POLY);
    XorLaws(POLY, POLY, 0);
    XorLaws(Xor(p, q), 0, 0);
    XorLaws(p, q, POLY);
    XorLaws(p, POLY, q);
    XorLaws(POLY, q, 0);
  }

  function Shift4(x: bv32): (r: bv32) {
    Shift(Shift(Shift(Shift(x))))
  }

  function Shift8(x: bv32): (r: bv32) {
    Shift4(Shift4(x))
  }

  lemma Shift4Linear(a: bv32, b: bv32)
    ensures Shift4(Xor(a, b)) == Xor(Shift4(a), Shift4(b))
  {
    hide Xor, Shift;
    ShiftLinear(a, b);
    ShiftLinear(Shift(a), Shift(b));
    ShiftLinear(Shift(Shift(a)), Shift(Shift(b)));
    ShiftLinear(Shift(Shift(Shift(a))), Shift(Shift(Shift(b))));
  }

  lemma Shift8Linear(a: bv32, b: bv32)
    ensures Shift8(Xor(a, b)) == Xor(Shift8(a), Shift8(b))
  {
    hide Xor, Shift4;
    Shift4Linear(a, b);
    Shift4Linear(Shift4(a), Shift4(b));
  }

  /** Without its lowest four bits a word just moves. */
  lemma Shift4Moves(x: bv32)
    requires x & 0xf == 0
    ensures Shift4(x) == Down4(x)
  {
  }

  lemma SplitNibble(x: bv32)
    ensures x == Xor(Low4(x), x & 0xfffffff0) && (x & 0xfffffff0) & 0xf == 0 && Down4(x & 0xfffffff0) == Down4(x)
  {
  }

  lemma TableIsShifts(i: bv32)
    requires i < 16
    ensures Table(i) == Shift4(i)
  {
  }

  /** Four shifts: the upper bits move, the lower ones are looked up. */
  lemma Shift4Lookup(y: bv32)
    ensures Shift4(y) == Xor(Down4(y), Table(Low4(y)))
  {
    SplitNibble(y);
    Shift4Linear(Low4(y), y & 0xfffffff0);
    Shift4Moves(y & 0xfffffff0);
    TableIsShifts(Low4(y));
    XorLaws(Shift4(Low4(y)), Down4(y), 0);
    hide Xor, Shift4, Table, Down4, Low4;
  }

  lemma NibbleParts(crc: bv32, d: bv32)
    ensures Low4(Xor(crc, Low4(d))) == Low4(Xor(crc, d)) && Down4(Xor(crc, Low4(d))) == Down4(crc)
  {
  }

  /** A table step is four shifts. */
  lemma NibbleIsShifts(crc: bv32, d: bv32)
    ensures Nibble(crc, d) == Shift4(Xor(crc, Low4(d)))
  {
    hide Xor, Shift4, Table, Down4, Low4;
    NibbleParts(crc, d);
    Shift4Lookup(Xor(crc, Low4(d)));
  }

  lemma ByteParts(d: bv32)
    requires d < 0x100
    ensures d == Xor(Low4(d), d & 0xf0) && (d & 0xf0) & 0xf == 0 && Down4(d & 0xf0) == Down4(d)
    ensures Low4(Down4(d)) == Down4(d)
  {
  }

  /** Adding a byte at once or nibble by nibble is the same. */
  lemma ByteIsShifts(crc: bv32, b: bv8)
    ensures CrcByte(crc, b) == Shift8(Xor(crc, Word(b)))
  {
    var d := Word(b);
    ByteParts(d);
    Shift4Moves(d & 0xf0);
    var rest := d & 0xf0;
    hide Xor, Shift4, Nibble, Down4, Low4, Word;
    NibbleIsShifts(crc, d);
    NibbleIsShifts(Nibble(crc, d), Down4(d));
    Shift4Linear(Xor(crc, Low4(d)), rest);
    XorLaws(crc, Low4(d), rest);
  }

  /** Bits of a byte that wait above the lowest one are shifted down and added in their turn. */
  lemma DivideByte(r: bv32, b: bv8)
    ensures Divide(r, ByteBits(b)) == Shift8(Xor(r, Word(b)))
  {
    hide Step, Shift, Xor, Word, Divide, Odd, Down, ByteBits;
    var d := Word(b);
    var e := Down(Down(Down(Down(d))));
    BitsOfWord(b);
    var s := ByteBits(b);
    DivideFour(r, s[0], s[1], s[2], s[3]);
    DivideFour(Steps(r, s[0], s[1], s[2], s[3]), s[4], s[5], s[6], s[7]);
    DivideAppend(r, [s[0], s[1], s[2], s[3]], [s[4], s[5], s[6], s[7]]);
    assert [s[0], s[1], s[2], s[3]] + [s[4], s[5], s[6], s[7]] == s;
    PeelFour(r, d);
    PeelFour(Steps(r, s[0], s[1], s[2], s[3]), e);
    XorLaws(Divide(r, s), 0, 0);
  }

  lemma BitsOfWord(b: bv8)
    ensures var d := Word(b);
            var e := Down(Down(Down(Down(d))));
            && ByteBits(b) == [Odd(d), Odd(Down(d)), Odd(Down(Down(d))), Odd(Down(Down(Down(d)))),
                               Odd(e), Odd(Down(e)), Odd(Down(Down(e))), Odd(Down(Down(Down(e))))]
            && Down(Down(Down(Down(e)))) == 0
  {
  }

  function Steps(r: bv32, b0: bool, b1: bool, b2: bool, b3: bool): (result: bv32) {
    Step(Step(Step(Step(r, b0), b1), b2), b3)
  }

  lemma EvenPart(d: bv32)
    ensures d == Xor(Bit(Odd(d)), d & 0xfffffffe) && !Odd(d & 0xfffffffe) && Down(d & 0xfffffffe) == Down(d)
  {
  }

  /** Shifting a sum: the lowest bit is divided, the others just move. */
  lemma Peel(r: bv32, d: bv32)
    ensures Shift(Xor(r, d)) == Xor(Step(r, Odd(d)), Down(d))
  {
    EvenPart(d);
    var rest := d & 0xfffffffe;
    hide Xor, Odd, Down, Bit;
    ShiftLinear(Xor(r, Bit(Odd(d))), rest);
    XorLaws(r, Bit(Odd(d)), rest);
  }

  lemma PeelFour(r: bv32, d: bv32)
    ensures Shift4(Xor(r, d))
         == Xor(Steps(r, Odd(d), Odd(Down(d)), Odd(Down(Down(d))), Odd(Down(Down(Down(d))))), Down(Down(Down(Down(d)))))
  {
    hide Shift, Xor, Step, Odd, Down;
    var d1, d2, d3 := Down(d), Down(Down(d)), Down(Down(Down(d)));
    var r1 := Step(r, Odd(d));
    var r2 := Step(r1, Odd(d1));
    var r3 := Step(r2, Odd(d2));
    Peel(r, d);
    Peel(r1, d1);
    Peel(r2, d2);
    Peel(r3, d3);
  }

  lemma DivideOne(r: bv32, b: bool, rest: seq<bool>)
    ensures Divide(r, [b] + rest) == Divide(Step(r, b), rest)
  {
    assert ([b] + rest)[1..] == rest;
  }

  lemma DivideFour(r: bv32, b0: bool, b1: bool, b2: bool, b3: bool)
    ensures Divide(r, [b0, b1, b2, b3]) == Steps(r, b0, b1, b2, b3)
  {
    hide Step;
    DivideOne(r, b0, [b1, b2, b3]);
    DivideOne(Step(r, b0), b1, [b2, b3]);
    DivideOne(Step(Step(r, b0), b1), b2, [b3]);
    DivideOne(Step(Step(Step(r, b0), b1), b2), b3, []);
    assert [b0, b1, b2, b3] == [b0] + [b1, b2, b3] && [b1, b2, b3] == [b1] + [b2, b3];
    assert [b2, b3] == [b2] + [b3] && [b3] == [b3] + [];
  }

  lemma {:induction false} DivideAppend(r: bv32, s: seq<bool>, t: seq<bool>)
    ensures Divide(r, s + t) == Divide(Divide(r, s), t)
    decreases |s|
  {
    if s == [] {
      assert s + t == t;
    } else {
      hide Step;
      assert (s + t)[1..] == s[1..] + t;
      DivideAppend(Step(r, s[0]), s[1..], t);
    }
  }

  // ----- Whole buffers -----

  /** The table-driven checksum is the remainder of the division. */
  lemma {:induction false} CrcDivides(crc: bv32, data: seq<bv8>)
    ensures Crc(crc, data) == Divide(crc, Message(data))
    decreases |data|
  {
    if data == [] {
    } else {
      hide CrcByte, Shift8, Xor, Word, Step, ByteBits;
      ByteIsShifts(crc, data[0]);
      DivideByte(crc, data[0]);
      DivideAppend(crc, ByteBits(data[0]), Message(data[1..]));
      CrcDivides(CrcByte(crc, data[0]), data[1..]);
    }
  }

  /** Chunks: what lfs_bd_crc relies on when it reads 8 bytes at a time (littlefs/lfs.c:154-173). */
  lemma {:induction false} CrcAppend(crc: bv32, a: seq<bv8>, b: seq<bv8>)
    ensures Crc(crc, a + b) == Crc(Crc(crc, a), b)
    decreases |a|
  {
    if a == [] {
      assert a + b == b;
    } else {
      hide CrcByte;
      assert (a + b)[1..] == a[1..] + b;
      CrcAppend(CrcByte(crc, a[0]), a[1..], b);
    }
  }

  lemma CrcOne(crc: bv32, b: bv8, rest: seq<bv8>)
    ensures Crc(crc, [b] + rest) == Crc(CrcByte(crc, b), rest)
  {
    hide CrcByte;
    assert ([b] + rest)[1..] == rest;
  }

  /** lfs_crc */
  method LfsCrc(crc0: bv32, data: seq<bv8>) returns (crc: bv32)
    ensures crc == Divide(crc0, Message(data))
  {
    CrcDivides(crc0, data);
    hide Nibble, Divide, Message, Xor, Down4, Word, Table, Low4;
    crc := crc0;
    var i := 0;
    while i < |data|
      invariant 0 <= i <= |data|
      invariant Crc(crc0, data) == Crc(crc, data[i..])
    {
      assert data[i..] == [data[i]] + data[i + 1..];
      CrcOne(crc, data[i], data[i + 1..]);
      crc := Nibble(crc, Word(data[i]));
      crc := Nibble(crc, Down4(Word(data[i])));
      i := i + 1;
    }
    assert data[i..] == [];
  }

  /** lfs_bd_crc over a buffer, in chunks of at most 8 bytes. */
  method ChunkedCrc(crc0: bv32, data: seq<bv8>) returns (crc: bv32)
    ensures crc == Divide(crc0, Message(data))
  {
    CrcDivides(crc0, data);
    hide CrcByte, Step, Message, Divide;
    crc := crc0;
    var i := 0;
    while i < |data|
      invariant 0 <= i <= |data|
      invariant crc == Crc(crc0, data[..i])
    {
      var diff := if |data| - i < 8 then |data| - i else 8;
      CrcDivides(crc, data[i..i + diff]);
      CrcAppend(crc0, data[..i], data[i..i + diff]);
      assert data[..i] + data[i..i + diff] == data[..i + diff];
      crc := LfsCrc(crc, data[i..i + diff]);
      i := i + diff;
    }
    assert data[..i] == data;
  }

  // ----- What the checksum detects -----

  lemma CrcFour(crc: bv32, b0: bv8, b1: bv8, b2: bv8, b3: bv8)
    ensures Crc(crc, [b0, b1, b2, b3]) == CrcByte(CrcByte(CrcByte(CrcByte(crc, b0), b1), b2), b3)
  {
    hide CrcByte;
    CrcOne(crc, b0, [b1, b2, b3]);
    CrcOne(CrcByte(crc, b0), b1, [b2, b3]);
    CrcOne(CrcByte(CrcByte(crc, b0), b1), b2, [b3]);
    CrcOne(CrcByte(CrcByte(CrcByte(crc, b0), b1), b2), b3, []);
    assert [b0, b1, b2, b3] == [b0] + [b1, b2, b3] && [b1, b2, b3] == [b1] + [b2, b3];
    assert [b2, b3] == [b2] + [b3] && [b3] == [b3] + [];
  }

  function Down8(w: bv32): (r: bv32) {
    w >> 8
  }

  /** The lowest byte of a word. */
  function LowByte(w: bv32): (r: bv8) {
    (w & 0xff) as bv8
  }

  /** The little-endian bytes of a word. */
  function Bytes(w: bv32): (s: seq<bv8>)
    ensures |s| == 4
  {
    [LowByte(w), LowByte(Down8(w)), LowByte(Down8(Down8(w))), LowByte(Down8(Down8(Down8(w))))]
  }

  lemma LowByteParts(w: bv32)
    ensures w == Xor(Word(LowByte(w)), w & 0xffffff00)
    ensures (w & 0xffffff00) & 0xf == 0 && Down4(w & 0xffffff00) & 0xf == 0
    ensures Down4(Down4(w & 0xffffff00)) == Down8(w)
  {
    hide LowByte, Word, Xor, Down4, Down8;
    LowByteMasks(w);
    SplitByte(w);
    RestMoves(w);
  }

  lemma RestMoves(w: bv32)
    ensures (w & 0xffffff00) & 0xf == 0 && Down4(w & 0xffffff00) & 0xf == 0
    ensures Down4(Down4(w & 0xffffff00)) == Down8(w)
  {
  }

  lemma LowByteMasks(w: bv32)
    ensures Word(LowByte(w)) == w & 0xff
  {
  }

  lemma SplitByte(w: bv32)
    ensures w == Xor(w & 0xff, w & 0xffffff00)
  {
  }

  /** Eight shifts of a sum with a word: its low byte is divided, the others just move. */
  lemma Feed(r: bv32, w: bv32)
    ensures Shift8(Xor(r, w)) == Xor(CrcByte(r, LowByte(w)), Down8(w))
  {
    LowByteParts(w);
    var rest := w & 0xffffff00;
    Shift4Moves(rest);
    Shift4Moves(Down4(rest));
    ByteIsShifts(r, LowByte(w));
    hide Xor, Shift4, CrcByte, Word, LowByte, Down4, Down8;
    XorLaws(r, Word(LowByte(w)), rest);
    Shift8Linear(Xor(r, Word(LowByte(w))), rest);
  }

  /** All four bytes of a word fit into the remainder: their checksum is 32 shifts of the sum. */
  lemma WordIsShifts(r: bv32, w: bv32)
    ensures Crc(r, Bytes(w)) == Shift8(Shift8(Shift8(Shift8(Xor(r, w)))))
  {
    EmptyAbove(w);
    hide Xor, Shift8, CrcByte, LowByte, Down8;
    var w1, w2, w3 := Down8(w), Down8(Down8(w)), Down8(Down8(Down8(w)));
    var r1 := CrcByte(r, LowByte(w));
    var r2 := CrcByte(r1, LowByte(w1));
    var r3 := CrcByte(r2, LowByte(w2));
    CrcFour(r, LowByte(w), LowByte(w1), LowByte(w2), LowByte(w3));
    Feed(r, w);
    Feed(r1, w1);
    Feed(r2, w2);
    Feed(r3, w3);
    XorLaws(CrcByte(r3, LowByte(w3)), 0, 0);
  }

  lemma EmptyAbove(w: bv32)
    ensures Down8(Down8(Down8(Down8(w)))) == 0
  {
  }

  /** A checksum followed by itself checks to zero, which is how a commit is verified (littlefs/lfs.c:1682-1698). */
  lemma SelfCheck(crc0: bv32, data: seq<bv8>)
    ensures Crc(crc0, data + Bytes(Crc(crc0, data))) == 0
  {
    var c := Crc(crc0, data);
    ShiftZero();
    hide CrcByte, Xor, Shift8;
    CrcAppend(crc0, data, Bytes(c));
    WordIsShifts(c, c);
    XorLaws(c, c, 0);
  }

  lemma ShiftZero()
    ensures Shift8(0) == 0
  {
  }

  lemma ShiftInjective(x: bv32, y: bv32)
    requires x != y
    ensures Shift(x) != Shift(y)
  {
    var d := Xor(x, y);
    XorNonzero(x, y);
    ShiftNonzero(d);
    hide Xor, Shift;
    ShiftLinear(x, y);
    XorLaws(Shift(x), Shift(y), 0);
  }

  lemma XorNonzero(x: bv32, y: bv32)
    ensures Xor(x, y) != 0 <==> x != y
  {
    hide Xor;
    XorLaws(x, y, y);
    XorLaws(y, 0, 0);
  }

  lemma ShiftNonzero(d: bv32)
    requires d != 0
    ensures Shift(d) != 0
  {
  }

  lemma Shift8Injective(x: bv32, y: bv32)
    requires x != y
    ensures Shift8(x) != Shift8(y)
  {
    hide Shift;
    ShiftInjective(x, y);
    ShiftInjective(Shift(x), Shift(y));
    ShiftInjective(Shift(Shift(x)), Shift(Shift(y)));
    ShiftInjective(Shift(Shift(Shift(x))), Shift(Shift(Shift(y))));
    var u, v := Shift4(x), Shift4(y);
    ShiftInjective(u, v);
    ShiftInjective(Shift(u), Shift(v));
    ShiftInjective(Shift(Shift(u)), Shift(Shift(v)));
    ShiftInjective(Shift(Shift(Shift(u))), Shift(Shift(Shift(v))));
  }

  /** Different sums of remainder and byte lead to different remainders. */
  lemma ByteInjective(x: bv32, a: bv8, y: bv32, b: bv8)
    requires Xor(x, Word(a)) != Xor(y, Word(b))
    ensures CrcByte(x, a) != CrcByte(y, b)
  {
    hide CrcByte, Xor, Word, Shift8;
    ByteIsShifts(x, a);
    ByteIsShifts(y, b);
    Shift8Injective(Xor(x, Word(a)), Xor(y, Word(b)));
  }

  lemma XorSides(x: bv32, y: bv32, d: bv32)
    requires x != y
    ensures Xor(x, d) != Xor(y, d) && Xor(d, x) != Xor(d, y)
  {
  }

  /** Different remainders stay different over equal data. */
  lemma {:induction false} CrcInjective(x: bv32, y: bv32, data: seq<bv8>)
    requires x != y
    ensures Crc(x, data) != Crc(y, data)
    decreases |data|
  {
    if data == [] {
    } else {
      hide CrcByte, Xor, Word;
      XorSides(x, y, Word(data[0]));
      ByteInjective(x, data[0], y, data[0]);
      CrcInjective(CrcByte(x, data[0]), CrcByte(y, data[0]), data[1..]);
    }
  }

  /** Any damage confined to one byte changes the checksum. */
  lemma ByteDetected(crc: bv32, before: seq<bv8>, a: bv8, b: bv8, after: seq<bv8>)
    requires a != b
    ensures Crc(crc, before + [a] + after) != Crc(crc, before + [b] + after)
  {
    hide CrcByte, Xor, Word;
    var r := Crc(crc, before);
    CrcAppend(crc, before + [a], after);
    CrcAppend(crc, before, [a]);
    CrcAppend(crc, before + [b], after);
    CrcAppend(crc, before, [b]);
    CrcOne(r, a, []);
    CrcOne(r, b, []);
    assert [a] + [] == [a] && [b] + [] == [b];
    WordInjective(a, b);
    XorSides(Word(a), Word(b), r);
    ByteInjective(r, a, r, b);
    CrcInjective(CrcByte(r, a), CrcByte(r, b), after);
  }

  lemma WordInjective(a: bv8, b: bv8)
    ensures Word(a) == Word(b) <==> a == b
  {
  }

  /** Any damage confined to four consecutive bytes changes the checksum. */
  lemma BurstDetected(crc: bv32, before: seq<bv8>, v: bv32, w: bv32, after: seq<bv8>)
    requires v != w
    ensures Crc(crc, before + Bytes(v) + after) != Crc(crc, before + Bytes(w) + after)
  {
    hide CrcByte, Xor, Shift8, Bytes;
    var r := Crc(crc, before);
    CrcAppend(crc, before + Bytes(v), after);
    CrcAppend(crc, before, Bytes(v));
    CrcAppend(crc, before + Bytes(w), after);
    CrcAppend(crc, before, Bytes(w));
    WordIsShifts(r, v);
    WordIsShifts(r, w);
    XorSides(v, w, r);
    var x, y := Xor(r, v), Xor(r, w);
    Shift8Injective(x, y);
    Shift8Injective(Shift8(x), Shift8(y));
    Shift8Injective(Shift8(Shift8(x)), Shift8(Shift8(y)));
    Shift8Injective(Shift8(Shift8(Shift8(x))), Shift8(Shift8(Shift8(y))));
    CrcInjective(Crc(r, Bytes(v)), Crc(r, Bytes(w)), after);
  }

  /** Every four bytes are the bytes of a word, and of one only. */
  lemma BytesOnto(b0: bv8, b1: bv8, b2: bv8, b3: bv8)
    ensures Bytes(Word(b0) | (Word(b1) << 8) | (Word(b2) << 16) | (Word(b3) << 24)) == [b0, b1, b2, b3]
  {
  }
}
