/**
CRC-32 (IEEE 802.3, reflected, polynomial 0xEDB88320).  `Serial` is the bit-serial definition, which shifts
the message in one bit at a time, least significant bit of each byte first; the code works a byte at a time from
a table of 256 words.  The lemmas hold for every register step that is linear, injective and drops a zero bit.
*/
module Crc {
  import opened Common

  const POLY: bv32 := 0xEDB8_8320
  const ONES: bv32 := 0xFFFF_FFFF

  type Shift = bv32 -> bv32

  function Xor(x: bv32, y: bv32): bv32 {
    x ^ y
  }

  function Half(w: bv32): bv32 {
    w >> 1
  }

  function LowBit(w: bv32): bv32 {
    w & 1
  }

  function HighBits(w: bv32): bv32 {
    w & 0xFFFF_FFFE
  }

  function Byte0(w: bv32): bv32 {
    w & 0xFF
  }

  function HighBytes(w: bv32): bv32 {
    w & 0xFFFF_FF00
  }

  function Down8(w: bv32): bv32 {
    w >> 8
  }

  function Up8(w: bv32): bv32 {
    w << 8
  }

  /** The 8-bit word of value n, counted up from zero. */
  function Bits8(n: nat): bv8 {
    if n == 0 then 0 else Bits8(n - 1) + 1
  }

  function Word8(b: Byte): bv32 {
    Bits8(b) as bv32
  }

  /** One shift of the register. */
  function Step(c: bv32): bv32 {
    if c & 1 == 1 then POLY ^ (c >> 1) else c >> 1
  }

  /** n applications of a function. */
  function Iterate<T>(f: T -> T, c: T, n: nat): T
    decreases n
  {
    if n == 0 then c else Iterate(f, f(c), n - 1)
  }

  /** The n low bits of w enter at the low end of the register, one per shift. */
  function SerialBits(f: Shift, c: bv32, w: bv32, n: nat): bv32
    decreases n
  {
    if n == 0 then c else SerialBits(f, f(Xor(c, LowBit(w))), Half(w), n - 1)
  }

  function Serial(f: Shift, c: bv32, data: Bytes): bv32 {
    if data == [] then c else SerialBits(f, Serial(f, c, data[..|data| - 1]), Word8(data[|data| - 1]), 8)
  }

  function Crc32(data: Bytes): bv32 {
    Xor(Serial(Step, ONES, data), ONES)
  }

  /** What the proofs need of a register step. */
  ghost predicate Register(f: Shift) {
    && (forall a, b {:trigger f(Xor(a, b))} :: f(Xor(a, b)) == Xor(f(a), f(b)))
    && (forall a {:trigger f(HighBits(a))} :: f(HighBits(a)) == Half(a))
  }

  /** g undoes f, so f is injective. */
  ghost predicate Undoes(g: Shift, f: Shift) {
    forall a {:trigger f(a)} :: g(f(a)) == a
  }

  lemma LowBitOfXor(x: bv32, y: bv32)
    ensures (x ^ y) & 1 == (x & 1) ^ (y & 1)
  {
  }

  lemma HalfOfXor(x: bv32, y: bv32)
    ensures (x ^ y) >> 1 == (x >> 1) ^ (y >> 1)
  {
  }

  lemma BitValue(x: bv32)
    ensures x & 1 == 0 || x & 1 == 1
  {
  }

  lemma XorSwap(p: bv32, x: bv32, y: bv32)
    ensures (p ^ x) ^ (p ^ y) == x ^ y && p ^ (x ^ y) == (p ^ x) ^ y && p ^ (x ^ y) == x ^ (p ^ y)
  {
  }

  lemma StepLinear(x: bv32, y: bv32)
    ensures Step(x ^ y) == Step(x) ^ Step(y)
  {
    LowBitOfXor(x, y);
    HalfOfXor(x, y);
    BitValue(x);
    BitValue(y);
    XorSwap(POLY, x >> 1, y >> 1);
  }

  /** The shift backwards: the top bit tells whether the polynomial was added. */
  function Unstep(c: bv32): bv32 {
    if c & 0x8000_0000 == 0 then c << 1 else ((c ^ POLY) << 1) | 1
  }

  lemma UnstepStep(x: bv32)
    ensures Unstep(Step(x)) == x
  {
  }

  lemma StepHigh(y: bv32)
    ensures Step(HighBits(y)) == Half(y)
  {
  }

  /** The shift of CRC-32 is such a step. */
  lemma StepIsRegister()
    ensures Register(Step) && Undoes(Unstep, Step)
  {
    forall a, b
      ensures Step(Xor(a, b)) == Xor(Step(a), Step(b))
    {
      StepLinear(a, b);
    }
    forall a
      ensures Step(HighBits(a)) == Half(a)
    {
      StepHigh(a);
    }
    forall a
      ensures Unstep(Step(a)) == a
    {
      UnstepStep(a);
    }
  }

  lemma {:induction false} IterateLinear<T(!new)>(f: T -> T, plus: (T, T) -> T, x: T, y: T, n: nat)
    requires forall a, b {:trigger f(plus(a, b))} :: f(plus(a, b)) == plus(f(a), f(b))
    ensures Iterate(f, plus(x, y), n) == plus(Iterate(f, x, n), Iterate(f, y, n))
    decreases n
  {
    if n > 0 {
      IterateLinear(f, plus, f(x), f(y), n - 1);
    }
  }

  lemma {:induction false} IterateInjective(f: Shift, g: Shift, x: bv32, y: bv32, n: nat)
    requires Undoes(g, f)
    requires Iterate(f, x, n) == Iterate(f, y, n)
    ensures x == y
    decreases n
  {
    if n > 0 {
      IterateInjective(f, g, f(x), f(y), n - 1);
    }
  }

  lemma {:induction false} IterateAdd<T>(f: T -> T, x: T, m: nat, n: nat)
    ensures Iterate(f, Iterate(f, x, m), n) == Iterate(f, x, m + n)
    decreases m
  {
    if m > 0 {
      IterateAdd(f, f(x), m - 1, n);
    }
  }

  lemma XorZero(c: bv32)
    ensures Xor(c, 0) == c
  {
  }

  lemma SplitLowBit(c: bv32, w: bv32)
    ensures Xor(c, w) == Xor(Xor(c, LowBit(w)), HighBits(w))
  {
  }

  /** Shifting n message bits in one by one is adding the word they form and then shifting n times. */
  lemma {:induction false} SerialIsIterate(f: Shift, c: bv32, w: bv32, n: nat)
    requires Register(f) && Iterate(Half, w, n) == 0
    ensures SerialBits(f, c, w, n) == Iterate(f, Xor(c, w), n)
    decreases n
  {
    if n == 0 {
      XorZero(c);
    } else {
      SerialIsIterate(f, f(Xor(c, LowBit(w))), Half(w), n - 1);
      SplitLowBit(c, w);
    }
  }

  lemma {:induction false} IterateSquare<T(!new)>(f: T -> T, g: T -> T, c: T, n: nat)
    requires forall x :: g(x) == f(f(x))
    ensures Iterate(f, c, 2 * n) == Iterate(g, c, n)
    decreases n
  {
    if n > 0 {
      assert Iterate(f, c, 2 * n) == Iterate(f, f(f(c)), 2 * (n - 1));
      IterateSquare(f, g, g(c), n - 1);
    }
  }

  function Down2(w: bv32): bv32 {
    w >> 2
  }

  function Down4(w: bv32): bv32 {
    w >> 4
  }

  lemma HalveEight(w: bv32)
    ensures Iterate(Half, w, 8) == Down8(w)
  {
    IterateSquare(Half, Down2, w, 4);
    IterateSquare(Down2, Down4, w, 2);
    IterateSquare(Down4, Down8, w, 1);
  }

  lemma Word8Low(b: Byte)
    ensures Down8(Word8(b)) == 0 && Byte0(Word8(b)) == Word8(b)
  {
  }

  lemma SerialByte(f: Shift, c: bv32, b: Byte)
    requires Register(f)
    ensures SerialBits(f, c, Word8(b), 8) == Iterate(f, Xor(c, Word8(b)), 8)
  {
    Word8Low(b);
    HalveEight(Word8(b));
    SerialIsIterate(f, c, Word8(b), 8);
  }

  lemma Even(y: bv32)
    requires LowBit(y) == 0
    ensures HighBits(y) == y
  {
  }

  /** The n low bits of y are zero. */
  ghost predicate Zeros(y: bv32, n: nat)
    decreases n
  {
    n == 0 || (LowBit(y) == 0 && Zeros(Half(y), n - 1))
  }

  /** Shifting out zeros only moves the word down. */
  lemma {:induction false} ShiftZeros(f: Shift, y: bv32, n: nat)
    requires Register(f) && Zeros(y, n)
    ensures Iterate(f, y, n) == Iterate(Half, y, n)
    decreases n
  {
    if n > 0 {
      Even(y);
      assert f(HighBits(y)) == Half(y);
      ShiftZeros(f, Half(y), n - 1);
    }
  }

  lemma {:induction false} ZerosAdd(y: bv32, m: nat, n: nat)
    requires Zeros(y, m) && Zeros(Iterate(Half, y, m), n)
    ensures Zeros(y, m + n)
    decreases m
  {
    if m > 0 {
      ZerosAdd(Half(y), m - 1, n);
    }
  }

  lemma ZerosTwo(y: bv32)
    requires y & 3 == 0
    ensures Zeros(y, 2)
  {
    assert y & 1 == 0 && (y >> 1) & 1 == 0;
    assert Zeros(Half(y), 1);
  }

  lemma ZerosFour(y: bv32)
    requires y & 15 == 0
    ensures Zeros(y, 4)
  {
    assert y & 3 == 0 && (y >> 2) & 3 == 0;
    ZerosTwo(y);
    ZerosTwo(Down2(y));
    IterateSquare(Half, Down2, y, 1);
    ZerosAdd(y, 2, 2);
  }

  lemma ZerosEight(y: bv32)
    requires Byte0(y) == 0
    ensures Zeros(y, 8)
  {
    assert y & 15 == 0 && (y >> 4) & 15 == 0;
    ZerosFour(y);
    ZerosFour(Down4(y));
    IterateSquare(Half, Down2, y, 2);
    IterateSquare(Down2, Down4, y, 1);
    ZerosAdd(y, 4, 4);
  }

  /** Eight shifts of a word whose low byte is zero move it down by a byte. */
  lemma ShiftByte(f: Shift, y: bv32)
    requires Register(f) && Byte0(y) == 0
    ensures Iterate(f, y, 8) == Down8(y)
  {
    ZerosEight(y);
    ShiftZeros(f, y, 8);
    HalveEight(y);
  }

  function TableIndex(c: bv32, b: Byte): bv32 {
    Xor(Byte0(c), Word8(b))
  }

  lemma SplitBytes(c: bv32, w: bv32)
    ensures c ^ w == ((c & 0xFF) ^ w) ^ (c & 0xFFFF_FF00)
  {
  }

  lemma SplitLowByte(c: bv32, w: bv32)
    ensures Xor(c, w) == Xor(Xor(Byte0(c), w), HighBytes(c))
  {
    SplitBytes(c, w);
  }

  lemma HighBytesDown(c: bv32)
    ensures Byte0(HighBytes(c)) == 0 && Down8(HighBytes(c)) == Down8(c)
  {
  }

  /** One round of the table-driven loop is eight rounds of the bit-serial register. */
  lemma TableRound(f: Shift, c: bv32, b: Byte)
    requires Register(f)
    ensures Xor(Iterate(f, TableIndex(c, b), 8), Down8(c)) == SerialBits(f, c, Word8(b), 8)
  {
    SplitLowByte(c, Word8(b));
    HighBytesDown(c);
    IterateLinear(f, Xor, TableIndex(c, b), HighBytes(c), 8);
    ShiftByte(f, HighBytes(c));
    SerialByte(f, c, b);
  }

  lemma IndexRange(c: bv32, b: Byte)
    ensures TableIndex(c, b) < 256
  {
    Word8Low(b);
  }

  /** The value of a 32-bit counter after n increments. */
  function Counter(n: nat): bv32 {
    if n == 0 then 0 else Counter(n - 1) + 1
  }

  lemma Increment(x: bv32)
    requires x < 256
    ensures (x + 1) as int == x as int + 1
  {
  }

  lemma {:induction false} CounterValue(n: nat)
    requires n <= 256
    ensures Counter(n) as int == n
  {
    if n > 0 {
      CounterValue(n - 1);
      Increment(Counter(n - 1));
    }
  }

  lemma ToIntInjective(x: bv32, y: bv32)
    requires x as int == y as int
    ensures x == y
  {
    assert (x as int) as bv32 == x && (y as int) as bv32 == y;
  }

  /** Slot i holds eight shifts of the word i. */
  ghost predicate IsTable(t: seq<bv32>) {
    |t| == 256 && forall i :: 0 <= i < 256 ==> t[i] == Iterate(Step, Counter(i), 8)
  }

  lemma TableSlot(t: seq<bv32>, x: bv32)
    requires IsTable(t) && x < 256
    ensures 0 <= x as int < 256 && t[x as int] == Iterate(Step, x, 8)
  {
    CounterValue(x as int);
    ToIntInjective(Counter(x as int), x);
  }

  method TableEntry(x: bv32) returns (c: bv32)
    ensures c == Iterate(Step, x, 8)
  {
    c := x;
    for k := 0 to 8
      invariant Iterate(Step, c, 8 - k) == Iterate(Step, x, 8)
    {
      c := Step(c);
    }
  }

  lemma CounterNext(i: nat)
    ensures Counter(i + 1) == Counter(i) + 1
  {
  }

  /** Fills the table; `entry` names the wanted contents slot by slot. */
  method FillTable(ghost entry: nat -> bv32) returns (table: array<bv32>)
    requires forall i {:trigger Counter(i)} :: entry(i) == Iterate(Step, Counter(i), 8)
    ensures fresh(table) && table.Length == 256
    ensures forall i :: 0 <= i < 256 ==> table[i] == entry(i)
  {
    table := new bv32[256];
    var x: bv32 := 0;
    for i := 0 to 256
      invariant x == Counter(i)
      invariant forall j :: 0 <= j < i ==> table[j] == entry(j)
    {
      var c := TableEntry(x);
      table[i] := c;
      CounterNext(i);
      x := x + 1;
    }
  }

  method BuildTable() returns (table: array<bv32>)
    ensures fresh(table) && IsTable(table[..])
  {
    table := FillTable((i: nat) => Iterate(Step, Counter(i), 8));
  }

  /** One round of the main loop. */
  method TableLookup(table: array<bv32>, crc: bv32, b: Byte) returns (r: bv32)
    requires IsTable(table[..])
    ensures r == SerialBits(Step, crc, Word8(b), 8)
  {
    var x := TableIndex(crc, b);
    IndexRange(crc, b);
    StepIsRegister();
    TableRound(Step, crc, b);
    TableSlot(table[..], x);
    var entry := table[x as int];
    r := Xor(entry, Down8(crc));
  }

  /** The table-driven loop computes the bit-serial CRC-32. */
  method ComputeCrc32(data: Bytes) returns (r: bv32)
    ensures r == Crc32(data)
  {
    var table := BuildTable();
    var crc := ONES;
    for i := 0 to |data|
      invariant IsTable(table[..]) && crc == Serial(Step, ONES, data[..i])
    {
      assert data[..i + 1][..i] == data[..i];
      crc := TableLookup(table, crc, data[i]);
    }
    assert data[..|data|] == data;
    r := Xor(crc, ONES);
  }

  lemma {:induction false} SerialConcat(f: Shift, c: bv32, a: Bytes, b: Bytes)
    ensures Serial(f, c, a + b) == Serial(f, Serial(f, c, a), b)
    decreases |b|
  {
    if b == [] {
      assert a + b == a;
    } else {
      assert (a + b)[..|a + b| - 1] == a + b[..|b| - 1];
      SerialConcat(f, c, a, b[..|b| - 1]);
    }
  }

  lemma XorCancel(x: bv32, y: bv32, w: bv32)
    requires Xor(x, w) == Xor(y, w)
    ensures x == y
  {
  }

  lemma ByteInjective(f: Shift, g: Shift, p: bv32, q: bv32, b: Byte)
    requires Register(f) && Undoes(g, f) && SerialBits(f, p, Word8(b), 8) == SerialBits(f, q, Word8(b), 8)
    ensures p == q
  {
    SerialByte(f, p, b);
    SerialByte(f, q, b);
    IterateInjective(f, g, Xor(p, Word8(b)), Xor(q, Word8(b)), 8);
    XorCancel(p, q, Word8(b));
  }

  /** Different registers stay different whatever bytes follow. */
  lemma {:induction false} SerialInjective(f: Shift, g: Shift, x: bv32, y: bv32, data: Bytes)
    requires Register(f) && Undoes(g, f) && Serial(f, x, data) == Serial(f, y, data)
    ensures x == y
    decreases |data|
  {
    if data != [] {
      var init, b := data[..|data| - 1], data[|data| - 1];
      ByteInjective(f, g, Serial(f, x, init), Serial(f, y, init), b);
      SerialInjective(f, g, x, y, init);
    }
  }

  /** Up to four bytes as one word, first byte lowest. */
  function Pack(m: Bytes): bv32 {
    if m == [] then 0 else Xor(Word8(m[0]), Up8(Pack(m[1..])))
  }

  lemma FitStep(w: bv32, p: bv32)
    requires w & 0xFF == w
    ensures p == 0 ==> (w ^ (p << 8)) & 0xFFFF_FF00 == 0
    ensures p & 0xFFFF_FF00 == 0 ==> (w ^ (p << 8)) & 0xFFFF_0000 == 0
    ensures p & 0xFFFF_0000 == 0 ==> (w ^ (p << 8)) & 0xFF00_0000 == 0
  {
  }

  /** Fewer than four bytes leave the top byte of the word clear. */
  lemma {:induction false} PackFits(m: Bytes)
    ensures |m| == 0 ==> Pack(m) == 0
    ensures |m| == 1 ==> Pack(m) & 0xFFFF_FF00 == 0
    ensures |m| == 2 ==> Pack(m) & 0xFFFF_0000 == 0
    ensures |m| == 3 ==> Pack(m) & 0xFF00_0000 == 0
  {
    if m != [] {
      PackFits(m[1..]);
      Word8Low(m[0]);
      FitStep(Word8(m[0]), Pack(m[1..]));
    }
  }

  lemma PackTop(m: Bytes)
    requires |m| <= 3
    ensures Pack(m) & 0xFF00_0000 == 0
  {
    PackFits(m);
    ShortTop(Pack(m), |m|);
  }

  lemma ShortTop(w: bv32, n: nat)
    requires n <= 3 && (n == 0 ==> w == 0) && (n == 1 ==> w & 0xFFFF_FF00 == 0)
    requires (n == 2 ==> w & 0xFFFF_0000 == 0) && (n == 3 ==> w & 0xFF00_0000 == 0)
    ensures w & 0xFF00_0000 == 0
  {
    MaskOne(w);
    MaskTwo(w);
  }

  lemma MaskOne(w: bv32)
    ensures w & 0xFFFF_FF00 == 0 ==> w & 0xFF00_0000 == 0
  {
  }

  lemma MaskTwo(w: bv32)
    ensures w & 0xFFFF_0000 == 0 ==> w & 0xFF00_0000 == 0
  {
  }

  lemma UpDown(p: bv32)
    requires p & 0xFF00_0000 == 0
    ensures Byte0(Up8(p)) == 0 && Down8(Up8(p)) == p
  {
  }

  lemma XorAssoc(x: bv32, y: bv32, z: bv32)
    ensures Xor(Xor(x, y), z) == Xor(x, Xor(y, z))
  {
  }

  lemma SerialOne(f: Shift, c: bv32, b: Byte)
    requires Register(f)
    ensures Serial(f, c, [b]) == Iterate(f, Xor(c, Word8(b)), 8)
  {
    assert [b][..0] == [];
    SerialByte(f, c, b);
  }

  /** Eight shifts absorb a word one byte up. */
  lemma AbsorbUp(f: Shift, x: bv32, p: bv32)
    requires Register(f) && p & 0xFF00_0000 == 0
    ensures Iterate(f, Xor(x, Up8(p)), 8) == Xor(Iterate(f, x, 8), p)
  {
    UpDown(p);
    ShiftByte(f, Up8(p));
    IterateLinear(f, Xor, x, Up8(p), 8);
  }

  lemma BurstStep(f: Shift, c: bv32, w: bv32, p: bv32, n: nat)
    requires Register(f) && p & 0xFF00_0000 == 0
    ensures Iterate(f, Xor(Iterate(f, Xor(c, w), 8), p), n) == Iterate(f, Xor(c, Xor(w, Up8(p))), 8 + n)
  {
    XorAssoc(c, w, Up8(p));
    ShiftedStep(f, Xor(c, w), p, n, Xor(c, Xor(w, Up8(p))));
  }

  lemma ShiftedStep(f: Shift, x: bv32, p: bv32, n: nat, y: bv32)
    requires Register(f) && p & 0xFF00_0000 == 0 && y == Xor(x, Up8(p))
    ensures Iterate(f, Xor(Iterate(f, x, 8), p), n) == Iterate(f, y, 8 + n)
  {
    AbsorbUp(f, x, p);
    IterateAdd(f, y, 8, n);
  }

  lemma SerialCons(f: Shift, c: bv32, b: Byte, rest: Bytes)
    requires Register(f)
    ensures Serial(f, c, [b] + rest) == Serial(f, Iterate(f, Xor(c, Word8(b)), 8), rest)
  {
    SerialConcat(f, c, [b], rest);
    SerialOne(f, c, b);
  }

  lemma PackOne(b: Byte, rest: Bytes)
    ensures Pack([b] + rest) == Xor(Word8(b), Up8(Pack(rest)))
  {
    assert ([b] + rest)[1..] == rest;
  }

  predicate Clear(w: bv32) {
    w & 0xFF00_0000 == 0
  }

  type Feed = (bv32, Bytes) -> bv32

  /** What the absorption of bytes needs of the register's run over them and of the way they are packed. */
  ghost predicate Absorbing(f: Shift, feed: Feed, pack: Bytes -> bv32) {
    && pack([]) == 0 && (forall c :: feed(c, []) == c)
    && (forall b, rest {:trigger pack([b] + rest)} :: pack([b] + rest) == Xor(Word8(b), Up8(pack(rest))))
    && (forall m {:trigger Clear(pack(m))} :: |m| <= 3 ==> Clear(pack(m)))
    && (forall c, b, rest {:trigger feed(c, [b] + rest)} ::
          feed(c, [b] + rest) == feed(Iterate(f, Xor(c, Word8(b)), 8), rest))
  }

  function FeedOf(f: Shift): Feed {
    (c, m) => Serial(f, c, m)
  }

  lemma SerialAbsorbs(f: Shift)
    requires Register(f)
    ensures Absorbing(f, FeedOf(f), Pack)
  {
    forall b, rest
      ensures Pack([b] + rest) == Xor(Word8(b), Up8(Pack(rest)))
    {
      PackOne(b, rest);
    }
    forall m: Bytes | |m| <= 3
      ensures Clear(Pack(m))
    {
      PackTop(m);
    }
    forall c, b, rest
      ensures FeedOf(f)(c, [b] + rest) == FeedOf(f)(Iterate(f, Xor(c, Word8(b)), 8), rest)
    {
      SerialCons(f, c, b, rest);
    }
  }

  lemma AbsorbOne(f: Shift, feed: Feed, pack: Bytes -> bv32, c: bv32, b: Byte, rest: Bytes, k: nat,
                  m: Bytes, n: nat)
    requires Register(f) && Absorbing(f, feed, pack) && |rest| <= 3 && m == [b] + rest && n == 8 + k
    requires var c' := Iterate(f, Xor(c, Word8(b)), 8); feed(c', rest) == Iterate(f, Xor(c', pack(rest)), k)
    ensures feed(c, m) == Iterate(f, Xor(c, pack(m)), n)
  {
    assert Clear(pack(rest));
    BurstStep(f, c, Word8(b), pack(rest), k);
  }

  /** Up to four bytes act on the register as one word that is added and then shifted through. */
  lemma {:induction false} Absorb(f: Shift, feed: Feed, pack: Bytes -> bv32, c: bv32, m: Bytes, n: nat)
    requires Register(f) && Absorbing(f, feed, pack) && |m| <= 4 && n == 8 * |m|
    ensures feed(c, m) == Iterate(f, Xor(c, pack(m)), n)
    decreases |m|
  {
    if m == [] {
      XorZero(c);
    } else {
      var b, rest := m[0], m[1..];
      assert m == [b] + rest;
      Absorb(f, feed, pack, Iterate(f, Xor(c, Word8(b)), 8), rest, n - 8);
      AbsorbOne(f, feed, pack, c, b, rest, n - 8, m, n);
    }
  }

  lemma BurstAbsorbed(f: Shift, c: bv32, m: Bytes, n: nat)
    requires Register(f) && |m| <= 4 && n == 8 * |m|
    ensures Serial(f, c, m) == Iterate(f, Xor(c, Pack(m)), n)
  {
    SerialAbsorbs(f);
    Absorb(f, FeedOf(f), Pack, c, m, n);
  }

  lemma LowByteOfPack(w: bv32, p: bv32)
    requires w & 0xFF == w
    ensures Byte0(Xor(w, Up8(p))) == w
    ensures p & 0xFF00_0000 == 0 ==> Down8(Xor(w, Up8(p))) == p
  {
  }

  lemma {:induction false} Bits8Value(n: nat)
    requires n < 256
    ensures Bits8(n) as int == n
  {
    if n > 0 {
      Bits8Value(n - 1);
      Increment8(Bits8(n - 1));
    }
  }

  lemma Increment8(x: bv8)
    requires x < 255
    ensures (x + 1) as int == x as int + 1
  {
  }

  lemma Word8Injective(a: Byte, b: Byte)
    requires Word8(a) == Word8(b)
    ensures a == b
  {
    Bits8Value(a);
    Bits8Value(b);
  }

  lemma {:induction false} PackInjective(m: Bytes, m': Bytes)
    requires |m| == |m'| <= 4 && Pack(m) == Pack(m')
    ensures m == m'
    decreases |m|
  {
    if m != [] {
      PackTop(m[1..]);
      PackTop(m'[1..]);
      Word8Low(m[0]);
      Word8Low(m'[0]);
      LowByteOfPack(Word8(m[0]), Pack(m[1..]));
      LowByteOfPack(Word8(m'[0]), Pack(m'[1..]));
      Word8Injective(m[0], m'[0]);
      PackInjective(m[1..], m'[1..]);
      assert m == [m[0]] + m[1..] && m' == [m'[0]] + m'[1..];
    }
  }

  lemma XorCancelLeft(c: bv32, x: bv32, y: bv32)
    requires Xor(c, x) == Xor(c, y)
    ensures x == y
  {
  }

  lemma BurstInjective(f: Shift, g: Shift, c: bv32, m: Bytes, m': Bytes)
    requires Register(f) && Undoes(g, f) && |m| == |m'| <= 4 && Serial(f, c, m) == Serial(f, c, m')
    ensures m == m'
  {
    BurstAbsorbed(f, c, m, 8 * |m|);
    BurstAbsorbed(f, c, m', 8 * |m|);
    IterateInjective(f, g, Xor(c, Pack(m)), Xor(c, Pack(m')), 8 * |m|);
    XorCancelLeft(c, Pack(m), Pack(m'));
    PackInjective(m, m');
  }

  /** A change confined to four consecutive bytes always changes the final register. */
  lemma BurstSerial(pre: Bytes, m: Bytes, m': Bytes, post: Bytes)
    requires |m| == |m'| <= 4 && m != m'
    ensures Serial(Step, ONES, pre + m + post) != Serial(Step, ONES, pre + m' + post)
  {
    if Serial(Step, ONES, pre + m + post) == Serial(Step, ONES, pre + m' + post) {
      StepIsRegister();
      var c := Serial(Step, ONES, pre);
      SerialConcat(Step, ONES, pre, m);
      SerialConcat(Step, ONES, pre, m');
      SerialConcat(Step, ONES, pre + m, post);
      SerialConcat(Step, ONES, pre + m', post);
      SerialInjective(Step, Unstep, Serial(Step, c, m), Serial(Step, c, m'), post);
      BurstInjective(Step, Unstep, c, m, m');
    }
  }

  /** And so it always changes the checksum. */
  lemma BurstDetected(pre: Bytes, m: Bytes, m': Bytes, post: Bytes)
    requires |m| == |m'| <= 4 && m != m'
    ensures Crc32(pre + m + post) != Crc32(pre + m' + post)
  {
    BurstSerial(pre, m, m', post);
    if Crc32(pre + m + post) == Crc32(pre + m' + post) {
      XorCancel(Serial(Step, ONES, pre + m + post), Serial(Step, ONES, pre + m' + post), ONES);
    }
  }

  /** What the register holds after any text followed by its own checksum. */
  function Residue(): bv32 {
    Iterate(Step, ONES, 32)
  }

  lemma XorTwice(c: bv32, x: bv32)
    ensures Xor(c, Xor(c, x)) == x
  {
  }

  lemma XorMoves(c: bv32, t: bv32)
    ensures Xor(c, ONES) == t <==> Xor(c, t) == ONES
  {
    XorTwice(c, ONES);
    XorTwice(c, t);
  }

  /** Comparing a trailing checksum is the same as running the register over the trailer too. */
  lemma TrailerResidue(body: Bytes, t: Bytes)
    requires |t| == 4
    ensures Crc32(body) == Pack(t) <==> Serial(Step, ONES, body + t) == Residue()
  {
    StepIsRegister();
    var c := Serial(Step, ONES, body);
    SerialConcat(Step, ONES, body, t);
    BurstAbsorbed(Step, c, t, 32);
    XorMoves(c, Pack(t));
    if Serial(Step, ONES, body + t) == Residue() {
      IterateInjective(Step, Unstep, Xor(c, Pack(t)), ONES, 32);
    }
  }
}
