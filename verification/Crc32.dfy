/** The CRC-32 that guards every telemetry payload (gcs/sender/crc32.cpp).

    The program runs a byte-at-a-time, table-driven loop.  The reference here is the
    shift register itself, fed one bit at a time, least significant bit first, with the
    reflected polynomial 0xEDB88320 (section 8 of RFC 1952).  The error-detection
    results are proved on the register, so they hold of the table-driven loop too.

    Word operations have names so that a lemma can hide them: the solver then works with
    their laws instead of expanding every word into 32 bits. */
module Crc32 {

  const ALL_ONES: bv32 := 0xFFFFFFFF
  const TOP_BIT: bv32 := 0x8000_0000

  function Xor(a: bv32, b: bv32): bv32 { a ^ b }

  predicate Low(w: bv32) { w & 1 == 1 }

  function Half(w: bv32): bv32 { w >> 1 }

  function Twice(w: bv32): bv32 { w << 1 }

  function Bit(b: bool): bv32 { if b then 1 else 0 }

  /** One shift of the register. */
  function Step(c: bv32): bv32 {
    if c & 1 == 1 then 0xEDB88320 ^ (c >> 1) else c >> 1
  }

  /** Absorbing one message bit. */
  function Absorb(c: bv32, bit: bool): bv32 {
    Step(Xor(c, Bit(bit)))
  }

  function Shift(c: bv32, n: nat): bv32
    decreases n
  {
    if n == 0 then c else Shift(Step(c), n - 1)
  }

  function Halve(w: bv32, n: nat): bv32
    decreases n
  {
    if n == 0 then w else Halve(Half(w), n - 1)
  }

  /** The register after absorbing a string of bits. */
  function Register(c: bv32, bits: seq<bool>): bv32
    decreases bits
  {
    if bits == [] then c else Register(Absorb(c, bits[0]), bits[1..])
  }

  /** The n low bits of a word, least significant first. */
  function LowBits(w: bv32, n: nat): (r: seq<bool>)
    ensures |r| == n
    decreases n
  {
    if n == 0 then [] else [Low(w)] + LowBits(Half(w), n - 1)
  }

  function BitsOf(data: seq<bv8>): (r: seq<bool>)
    ensures |r| == 8 * |data|
  {
    if data == [] then [] else LowBits(data[0] as bv32, 8) + BitsOf(data[1..])
  }

  /** The reference checksum: feed the bits of the message to an all-ones register. */
  function Checksum(data: seq<bv8>): bv32 {
    Xor(Register(ALL_ONES, BitsOf(data)), ALL_ONES)
  }

  // ---------- The program

  function TableEntry(i: bv8): bv32 {
    Shift(i as bv32, 8)
  }

  ghost predicate IsTable(table: seq<bv32>) {
    |table| == 256 && forall i :: 0 <= i < 256 ==> table[i] == TableEntry(i as bv8)
  }

  /** build_table: entry i is the register after eight shifts of i. */
  method BuildTable() returns (table: array<bv32>)
    ensures fresh(table) && IsTable(table[..])
  {
    hide Step, TableEntry, Shift;
    table := new bv32[256];
    for i := 0 to 256
      invariant forall j :: 0 <= j < i ==> table[j] == TableEntry(j as bv8)
    {
      var c: bv32 := (i as bv8) as bv32;
      TableEntryIs(i as bv8);
      for k := 0 to 8
        invariant Shift(c, 8 - k) == TableEntry(i as bv8)
        invariant forall j :: 0 <= j < i ==> table[j] == TableEntry(j as bv8)
      {
        ShiftOnce(c, 8 - k);
        c := Step(c);
      }
      ShiftOnce(c, 0);
      assert c == TableEntry(i as bv8);
      table[i] := c;
    }
  }

  lemma TableEntryIs(i: bv8)
    ensures TableEntry(i) == Shift(i as bv32, 8)
  {
    hide Shift;
  }

  lemma ShiftOnce(c: bv32, n: nat)
    ensures Shift(c, n) == if n == 0 then c else Shift(Step(c), n - 1)
  {
    hide Step;
  }

  /** crc32: the table-driven loop computes the reference checksum. */
  method Compute(data: seq<bv8>) returns (crc: bv32)
    ensures crc == Checksum(data)
  {
    hide Xor, Register, BitsOf, TableEntry;
    var table := BuildTable();
    var c: bv32 := ALL_ONES;
    assert data[0..] == data;
    for i := 0 to |data|
      invariant IsTable(table[..])
      invariant Register(c, BitsOf(data[i..])) == Register(ALL_ONES, BitsOf(data))
    {
      OneByte(c, data, i);
      c := LookUp(table[..], c, data[i]);
    }
    NoBytes(c, data[|data|..]);
    crc := Xor(c, ALL_ONES);
  }

  lemma NoBytes(c: bv32, data: seq<bv8>)
    requires data == []
    ensures Register(c, BitsOf(data)) == c
  {
  }

  lemma OneByte(c: bv32, data: seq<bv8>, i: nat)
    requires i < |data|
    ensures Register(c, BitsOf(data[i..]))
         == Register(Register(c, LowBits(data[i] as bv32, 8)), BitsOf(data[i + 1..]))
  {
    hide Register, LowBits;
    assert data[i..][0] == data[i] && data[i..][1..] == data[i + 1..];
    RegisterConcat(c, LowBits(data[i] as bv32, 8), BitsOf(data[i + 1..]));
  }

  /** One turn of the crc32 loop. */
  function LookUp(table: seq<bv32>, c: bv32, b: bv8): (r: bv32)
    requires IsTable(table)
    ensures r == Register(c, LowBits(b as bv32, 8))
  {
    hide Register, LowBits, TableEntry, Xor, LowByte, DownByte;
    var index := LowByte(Xor(c, b as bv32));
    ByteIndex(index);
    TableStep(c, b);
    Xor(table[index as int], DownByte(c))
  }

  lemma ByteIndex(b: bv8)
    ensures 0 <= b as int < 256 && (b as int) as bv8 == b
  {
  }

  // ---------- Laws of the word operations

  lemma XorAssociates(a: bv32, b: bv32, c: bv32)
    ensures Xor(a, Xor(b, c)) == Xor(Xor(a, b), c)
  {
  }

  lemma XorShuffles(a: bv32, b: bv32, c: bv32, d: bv32)
    ensures Xor(Xor(a, b), Xor(c, d)) == Xor(Xor(a, c), Xor(b, d))
  {
    hide Xor;
    XorAssociates(Xor(a, b), c, d);
    XorAssociates(a, b, c);
    XorCommutes(b, c);
    XorAssociates(a, c, b);
    XorAssociates(Xor(a, c), b, d);
  }

  lemma XorCommutes(a: bv32, b: bv32)
    ensures Xor(a, b) == Xor(b, a)
  {
  }

  lemma XorCancels(a: bv32, b: bv32, e: bv32)
    ensures Xor(a, 0) == a && Xor(a, a) == 0
    ensures Xor(a, e) == Xor(b, e) ==> a == b
  {
  }

  lemma SplitLowBit(w: bv32)
    ensures Xor(Bit(Low(w)), Twice(Half(w))) == w
  {
  }

  /** The shift is linear over exclusive or. */
  lemma StepLinear(a: bv32, b: bv32)
    ensures Step(Xor(a, b)) == Xor(Step(a), Step(b))
  {
    BitsOfXor(a, b);
    PolynomialCancels(0xEDB88320, a >> 1, b >> 1);
  }

  lemma BitsOfXor(a: bv32, b: bv32)
    ensures (a ^ b) & 1 == (a & 1) ^ (b & 1) && (a ^ b) >> 1 == (a >> 1) ^ (b >> 1)
    ensures (a & 1 == 0 || a & 1 == 1) && (b & 1 == 0 || b & 1 == 1)
  {
  }

  lemma PolynomialCancels(p: bv32, a: bv32, b: bv32)
    ensures p ^ (a ^ b) == (p ^ a) ^ b == a ^ (p ^ b)
    ensures (p ^ a) ^ (p ^ b) == a ^ b
  {
  }

  /** The shift is invertible. */
  lemma StepInjective(a: bv32, b: bv32)
    requires Step(a) == Step(b)
    ensures a == b
  {
  }

  lemma StepOfTwice(w: bv32)
    ensures Step(Twice(Half(w))) == Half(w)
  {
  }

  lemma {:induction false} ShiftLinear(a: bv32, b: bv32, n: nat)
    ensures Shift(Xor(a, b), n) == Xor(Shift(a, n), Shift(b, n))
    decreases n
  {
    hide Step, Xor;
    if n > 0 {
      StepLinear(a, b);
      ShiftLinear(Step(a), Step(b), n - 1);
    }
  }

  lemma {:induction false} RegisterConcat(c: bv32, a: seq<bool>, b: seq<bool>)
    ensures Register(c, a + b) == Register(Register(c, a), b)
    decreases a
  {
    hide Absorb;
    if a == [] {
      assert a + b == b;
    } else {
      assert (a + b)[0] == a[0] && (a + b)[1..] == a[1..] + b;
      RegisterConcat(Absorb(c, a[0]), a[1..], b);
    }
  }

  /** Two registers never merge, whatever bits follow. */
  lemma {:induction false} RegisterInjective(a: bv32, b: bv32, bits: seq<bool>)
    requires a != b
    ensures Register(a, bits) != Register(b, bits)
    decreases bits
  {
    hide Absorb;
    if bits != [] {
      if Absorb(a, bits[0]) == Absorb(b, bits[0]) {
        AbsorbInjective(a, b, bits[0]);
      }
      RegisterInjective(Absorb(a, bits[0]), Absorb(b, bits[0]), bits[1..]);
    }
  }

  lemma AbsorbInjective(a: bv32, b: bv32, e: bool)
    requires Absorb(a, e) == Absorb(b, e)
    ensures a == b
  {
    hide Step, Xor, Bit;
    StepInjective(Xor(a, Bit(e)), Xor(b, Bit(e)));
    XorCancels(a, b, Bit(e));
  }

  // ---------- The table-driven step

  /** Mixing in a whole word absorbs its low bit and leaves the rest for later. */
  lemma AbsorbLowBit(c: bv32, w: bv32)
    ensures Step(Xor(c, w)) == Xor(Absorb(c, Low(w)), Half(w))
  {
    hide Step, Xor, Bit, Low, Half, Twice;
    var rest := Twice(Half(w));
    SplitLowBit(w);
    XorAssociates(c, Bit(Low(w)), rest);
    StepLinear(Xor(c, Bit(Low(w))), rest);
    StepOfTwice(w);
  }

  lemma {:induction false} AbsorbWord(c: bv32, w: bv32, n: nat)
    ensures Shift(Xor(c, w), n) == Xor(Register(c, LowBits(w, n)), Halve(w, n))
    decreases n
  {
    hide Step, Xor, Low, Half, Absorb;
    if n > 0 {
      AbsorbLowBit(c, w);
      AbsorbWord(Absorb(c, Low(w)), Half(w), n - 1);
      var bits := LowBits(w, n);
      assert bits[0] == Low(w) && bits[1..] == LowBits(Half(w), n - 1);
    }
  }

  lemma ByteRunsOut(w: bv32)
    requires w <= 0xFF
    ensures Halve(w, 8) == 0
  {
    assert Half(Half(Half(Half(Half(Half(Half(Half(w)))))))) == 0;
  }

  lemma FourShifts(h: bv32)
    requires h & 0xF == 0
    ensures Shift(h, 4) == h >> 4
  {
  }

  lemma HighPartMovesDown(h: bv32)
    requires h & 0xFF == 0
    ensures Shift(h, 8) == h >> 8
  {
    FourShifts(h);
    FourShifts(h >> 4);
    ShiftAdds(h, 4, 4);
    DownTwice(h);
  }

  lemma DownTwice(h: bv32)
    requires h & 0xFF == 0
    ensures h & 0xF == 0 && (h >> 4) & 0xF == 0 && (h >> 4) >> 4 == h >> 8
  {
  }

  lemma {:induction false} ShiftAdds(c: bv32, m: nat, n: nat)
    ensures Shift(Shift(c, m), n) == Shift(c, m + n)
    decreases m
  {
    hide Step;
    if m > 0 {
      ShiftAdds(Step(c), m - 1, n);
    }
  }

  function LowByte(x: bv32): bv8 { (x & 0xFF) as bv8 }

  function HighPart(x: bv32): bv32 { x & 0xFFFFFF00 }

  function DownByte(x: bv32): bv32 { x >> 8 }

  lemma SplitByte(x: bv32)
    ensures x == Xor(LowByte(x) as bv32, HighPart(x))
    ensures HighPart(x) & 0xFF == 0
    ensures HighPart(x) >> 8 == DownByte(x)
  {
  }

  lemma ByteLeavesHighPart(c: bv32, b: bv8)
    ensures DownByte(Xor(c, b as bv32)) == DownByte(c)
    ensures (b as bv32) <= 0xFF
  {
  }

  /** One table lookup is eight register shifts. */
  lemma TableStep(c: bv32, b: bv8)
    ensures Xor(TableEntry(LowByte(Xor(c, b as bv32))), DownByte(c)) == Register(c, LowBits(b as bv32, 8))
  {
    hide Shift, Register, LowBits, Xor, TableEntry, LowByte, HighPart, DownByte;
    var x := Xor(c, b as bv32);
    SplitByte(x);
    ByteLeavesHighPart(c, b);
    HighPartMovesDown(HighPart(x));
    ShiftLinear(LowByte(x) as bv32, HighPart(x), 8);
    TableEntryIs(LowByte(x));
    ByteStep(c, b);
  }

  lemma ByteStep(c: bv32, b: bv8)
    ensures Shift(Xor(c, b as bv32), 8) == Register(c, LowBits(b as bv32, 8))
  {
    hide Shift, Register, LowBits, Xor, Halve;
    AbsorbWord(c, b as bv32, 8);
    ByteLeavesHighPart(c, b);
    ByteRunsOut(b as bv32);
    XorCancels(Register(c, LowBits(b as bv32, 8)), 0, 0);
  }

  // ---------- Error detection

  predicate Even(t: bv32) { t & 1 == 0 }

  predicate AtMost(t: bv32, x: bv32) { t <= x }

  /** t can be halved n times, staying even, before it reaches 1. */
  predicate Halvable(t: bv32, n: nat)
    decreases n
  {
    if n == 0 then t >= 1 else Even(t) && Halvable(Half(t), n - 1)
  }

  lemma BitsKeepBound(d: bv32, e: bool, e': bool, t: bv32)
    requires Even(t) && AtMost(t, d)
    ensures AtMost(t, Xor(d, Xor(Bit(e), Bit(e'))))
  {
  }

  lemma StepKeepsBound(y: bv32, t: bv32)
    requires AtMost(t, y) && AtMost(t, TOP_BIT)
    ensures AtMost(Half(t), Step(y)) && AtMost(Half(t), TOP_BIT)
  {
    HalfMonotone(t, y);
    HalfMonotone(t, TOP_BIT);
    PolynomialSetsTop(y);
    HalfSmall(t);
  }

  lemma HalfMonotone(t: bv32, y: bv32)
    requires AtMost(t, y)
    ensures AtMost(Half(t), Half(y))
  {
  }

  lemma HalfSmall(t: bv32)
    ensures Half(t) < TOP_BIT
  {
  }

  lemma PolynomialSetsTop(y: bv32)
    ensures (0xEDB88320 ^ (y >> 1)) >= TOP_BIT
  {
  }

  /** A difference of at least t is still at least half of t one bit later, whatever bits
      the two sides absorb. */
  lemma DifferenceStep(a: bv32, b: bv32, e: bool, e': bool, t: bv32)
    requires Even(t) && AtMost(t, Xor(a, b)) && AtMost(t, TOP_BIT)
    ensures AtMost(Half(t), Xor(Absorb(a, e), Absorb(b, e'))) && AtMost(Half(t), TOP_BIT)
  {
    hide Step, Xor, Bit, Half, AtMost, Even;
    BitsKeepBound(Xor(a, b), e, e', t);
    XorShuffles(a, b, Bit(e), Bit(e'));
    StepLinear(Xor(a, Bit(e)), Xor(b, Bit(e')));
    StepKeepsBound(Xor(Xor(a, Bit(e)), Xor(b, Bit(e'))), t);
  }

  lemma {:induction false} StayApart(a: bv32, b: bv32, s: seq<bool>, s': seq<bool>, t: bv32, n: nat)
    requires |s| == |s'| <= n
    requires Halvable(t, n) && AtMost(t, TOP_BIT) && AtMost(t, Xor(a, b))
    ensures Register(a, s) != Register(b, s')
    decreases n
  {
    hide Step, Xor, Half, AtMost, Even, Absorb;
    if s == [] {
      HalvableNonZero(t, n);
      NonZeroApart(a, b, t);
    } else {
      DifferenceStep(a, b, s[0], s'[0], t);
      StayApart(Absorb(a, s[0]), Absorb(b, s'[0]), s[1..], s'[1..], Half(t), n - 1);
    }
  }

  lemma NonZeroApart(a: bv32, b: bv32, t: bv32)
    requires AtMost(t, Xor(a, b)) && t != 0
    ensures a != b
  {
    assert a ^ b != 0;
    assert a ^ a == 0;
  }

  lemma {:induction false} HalvableNonZero(t: bv32, n: nat)
    requires Halvable(t, n)
    ensures t != 0
    decreases n
  {
    if n > 0 {
      HalvableNonZero(Half(t), n - 1);
      assert Half(0) == 0;
    }
  }

  lemma FirstDifference(c: bv32, e: bool)
    ensures AtMost(TOP_BIT, Xor(Absorb(c, e), Absorb(c, !e)))
  {
    hide Xor, Step, AtMost;
    var x, y := Bit(e), Bit(!e);
    StepLinear(Xor(c, x), Xor(c, y));
    XorShuffles(c, x, c, y);
    XorCancels(c, c, c);
    XorCommutes(0, Xor(x, y));
    XorCancels(Xor(x, y), 0, 0);
    DifferingBits(e);
  }

  /** The register step of a single low bit sets the top bit. */
  lemma DifferingBits(e: bool)
    ensures AtMost(TOP_BIT, Step(Xor(Bit(e), Bit(!e))))
  {
    assert Xor(Bit(e), Bit(!e)) == 1;
    assert Step(1) == 0xEDB88320;
  }

  lemma Double(t: bv32, n: nat)
    requires t < TOP_BIT && Halvable(t, n)
    ensures Halvable(t << 1, n + 1)
  {
    assert (t << 1) & 1 == 0 && (t << 1) >> 1 == t;
  }

  lemma TopBitHalvable()
    ensures Halvable(TOP_BIT, 31)
  {
    Double(0x1, 0); Double(0x2, 1); Double(0x4, 2); Double(0x8, 3);
    Double(0x10, 4); Double(0x20, 5); Double(0x40, 6); Double(0x80, 7);
    Double(0x100, 8); Double(0x200, 9); Double(0x400, 10); Double(0x800, 11);
    Double(0x1000, 12); Double(0x2000, 13); Double(0x4000, 14); Double(0x8000, 15);
    Double(0x1_0000, 16); Double(0x2_0000, 17); Double(0x4_0000, 18); Double(0x8_0000, 19);
    Double(0x10_0000, 20); Double(0x20_0000, 21); Double(0x40_0000, 22); Double(0x80_0000, 23);
    Double(0x100_0000, 24); Double(0x200_0000, 25); Double(0x400_0000, 26); Double(0x800_0000, 27);
    Double(0x1000_0000, 28); Double(0x2000_0000, 29); Double(0x4000_0000, 30);
  }

  /** Different bit strings of at most 32 bits always leave different registers. */
  lemma {:induction false} BurstChangesRegister(c: bv32, s: seq<bool>, s': seq<bool>)
    requires |s| == |s'| <= 32 && s != s'
    ensures Register(c, s) != Register(c, s')
    decreases s
  {
    hide Absorb, Xor, AtMost, Halvable;
    if s[0] == s'[0] {
      assert s == [s[0]] + s[1..] && s' == [s'[0]] + s'[1..];
      BurstChangesRegister(Absorb(c, s[0]), s[1..], s'[1..]);
    } else {
      assert s'[0] == !s[0];
      FirstDifference(c, s[0]);
      TopBitHalvable();
      TopBitAtMostItself();
      StayApart(Absorb(c, s[0]), Absorb(c, s'[0]), s[1..], s'[1..], TOP_BIT, 31);
    }
  }

  lemma TopBitAtMostItself()
    ensures AtMost(TOP_BIT, TOP_BIT)
  {
  }

  lemma {:induction false} LowBitsInjective(w: bv32, w': bv32, n: nat)
    requires LowBits(w, n) == LowBits(w', n) && Halve(w, n) == Halve(w', n)
    ensures w == w'
    decreases n
  {
    hide Low, Half;
    if n > 0 {
      var bits, bits' := LowBits(w, n), LowBits(w', n);
      assert bits[0] == Low(w) && bits[1..] == LowBits(Half(w), n - 1);
      assert bits'[0] == Low(w') && bits'[1..] == LowBits(Half(w'), n - 1);
      LowBitsInjective(Half(w), Half(w'), n - 1);
      SplitLowBit(w);
      SplitLowBit(w');
    }
  }

  lemma ByteBitsInjective(a: bv8, b: bv8)
    requires LowBits(a as bv32, 8) == LowBits(b as bv32, 8)
    ensures a == b
  {
    hide LowBits, Halve;
    ByteLeavesHighPart(0, a);
    ByteLeavesHighPart(0, b);
    ByteRunsOut(a as bv32);
    ByteRunsOut(b as bv32);
    LowBitsInjective(a as bv32, b as bv32, 8);
    Widen(a, b);
  }

  lemma Widen(a: bv8, b: bv8)
    requires a as bv32 == b as bv32
    ensures a == b
  {
  }

  lemma {:induction false} BitsInjective(a: seq<bv8>, b: seq<bv8>)
    requires |a| == |b| && BitsOf(a) == BitsOf(b)
    ensures a == b
  {
    hide LowBits;
    if a != [] {
      assert LowBits(a[0] as bv32, 8) == BitsOf(a)[..8] == BitsOf(b)[..8] == LowBits(b[0] as bv32, 8);
      ByteBitsInjective(a[0], b[0]);
      assert BitsOf(a[1..]) == BitsOf(a)[8..] == BitsOf(b)[8..] == BitsOf(b[1..]);
      BitsInjective(a[1..], b[1..]);
    }
  }

  lemma WindowSeparates(c: bv32, s: seq<bool>, s': seq<bool>, i: nat, j: nat)
    requires i <= j <= |s| == |s'| && j - i <= 32 && s != s'
    requires forall k :: 0 <= k < |s| && !(i <= k < j) ==> s[k] == s'[k]
    ensures Register(c, s) != Register(c, s')
  {
    hide Register;
    assert s[..i] == s'[..i] && s[j..] == s'[j..];
    assert s == s[..i] + (s[i..j] + s[j..]) && s' == s'[..i] + (s'[i..j] + s'[j..]);
    var d := Register(c, s[..i]);
    RegisterConcat(c, s[..i], s[i..j] + s[j..]);
    RegisterConcat(c, s'[..i], s'[i..j] + s'[j..]);
    RegisterConcat(d, s[i..j], s[j..]);
    RegisterConcat(d, s'[i..j], s'[j..]);
    BurstChangesRegister(d, s[i..j], s'[i..j]);
    RegisterInjective(Register(d, s[i..j]), Register(d, s'[i..j]), s[j..]);
  }

  /** MAIN: corruption confined to any window of 32 consecutive bits, aligned to bytes or
      not, is always detected. */
  lemma BurstDetected(m: seq<bv8>, m': seq<bv8>, w: nat)
    requires |m| == |m'| && m != m'
    requires forall k :: 0 <= k < 8 * |m| && !(w <= k < w + 32) ==> BitsOf(m)[k] == BitsOf(m')[k]
    ensures Checksum(m) != Checksum(m')
  {
    hide Register, BitsOf, Xor;
    var s, s' := BitsOf(m), BitsOf(m');
    if s == s' {
      BitsInjective(m, m');
    }
    var i := if w <= |s| then w else |s|;
    var j := if w + 32 <= |s| then w + 32 else |s|;
    WindowSeparates(ALL_ONES, s, s', i, j);
    XorCancels(Register(ALL_ONES, s), Register(ALL_ONES, s'), ALL_ONES);
  }

  lemma {:induction false} BitOfByte(m: seq<bv8>, m': seq<bv8>, k: nat)
    requires |m| == |m'| && k < 8 * |m| && m[k / 8] == m'[k / 8]
    ensures BitsOf(m)[k] == BitsOf(m')[k]
  {
    hide LowBits;
    if k >= 8 {
      assert m[1..][(k - 8) / 8] == m[k / 8] && m'[1..][(k - 8) / 8] == m'[k / 8];
      BitOfByte(m[1..], m'[1..], k - 8);
    }
  }

  /** MAIN: two messages that differ only inside four consecutive bytes have different
      checksums. */
  lemma FourByteWindowDetected(m: seq<bv8>, m': seq<bv8>, i: nat)
    requires |m| == |m'| && m != m'
    requires forall k :: 0 <= k < |m| && !(i <= k < i + 4) ==> m[k] == m'[k]
    ensures Checksum(m) != Checksum(m')
  {
    hide BitsOf, Checksum;
    forall k | 0 <= k < 8 * |m| && !(8 * i <= k < 8 * i + 32)
      ensures BitsOf(m)[k] == BitsOf(m')[k]
    {
      BitOfByte(m, m', k);
    }
    BurstDetected(m, m', 8 * i);
  }

  // ---------- The standard's check value

  /** The digits 1 to 9 as characters. */
  const DIGITS: seq<bv8> := [0x31, 0x32, 0x33, 0x34, 0x35, 0x36, 0x37, 0x38, 0x39]

  /** The register before and after each digit. */
  const REGISTERS: seq<bv32> :=
    [0xFFFFFFFF, 0x7C231048, 0xB0ACBB32, 0x77B79C2D, 0x641C1F5C,
     0x340AC5E3, 0xF68D2C9E, 0xAFFC9660, 0x651F2550, 0x340BC6D9]

  /** Eight shifts. */
  function EightSteps(c: bv32): bv32 {
    Step(Step(Step(Step(Step(Step(Step(Step(c))))))))
  }

  lemma EightStepsShift(c: bv32)
    ensures EightSteps(c) == Shift(c, 8)
  {
    hide Step;
    ShiftAdds(c, 4, 4);
  }

  lemma DigitShifts()
    ensures |REGISTERS| == 10 && |DIGITS| == 9
    ensures forall k :: 0 <= k < 9 ==> EightSteps(REGISTERS[k] ^ (DIGITS[k] as bv32)) == REGISTERS[k + 1]
  {
    assert EightSteps(REGISTERS[0] ^ (DIGITS[0] as bv32)) == REGISTERS[1];
    assert EightSteps(REGISTERS[1] ^ (DIGITS[1] as bv32)) == REGISTERS[2];
    assert EightSteps(REGISTERS[2] ^ (DIGITS[2] as bv32)) == REGISTERS[3];
    assert EightSteps(REGISTERS[3] ^ (DIGITS[3] as bv32)) == REGISTERS[4];
    assert EightSteps(REGISTERS[4] ^ (DIGITS[4] as bv32)) == REGISTERS[5];
    assert EightSteps(REGISTERS[5] ^ (DIGITS[5] as bv32)) == REGISTERS[6];
    assert EightSteps(REGISTERS[6] ^ (DIGITS[6] as bv32)) == REGISTERS[7];
    assert EightSteps(REGISTERS[7] ^ (DIGITS[7] as bv32)) == REGISTERS[8];
    assert EightSteps(REGISTERS[8] ^ (DIGITS[8] as bv32)) == REGISTERS[9];
  }

  lemma {:induction false} DigitsFrom(k: nat)
    requires k <= 9
    ensures Register(REGISTERS[k], BitsOf(DIGITS[k..])) == REGISTERS[9]
    decreases 9 - k
  {
    DigitShifts();
    hide Register, LowBits, Shift, EightSteps, BitsOf, Step;
    if k == 9 {
      NoBytes(REGISTERS[9], DIGITS[9..]);
    } else {
      var b := DIGITS[k];
      BitsOfFirst(DIGITS[k..]);
      assert DIGITS[k..][1..] == DIGITS[k + 1..];
      RegisterConcat(REGISTERS[k], LowBits(b as bv32, 8), BitsOf(DIGITS[k + 1..]));
      ByteStep(REGISTERS[k], b);
      EightStepsShift(Xor(REGISTERS[k], b as bv32));
      DigitsFrom(k + 1);
    }
  }

  lemma BitsOfFirst(data: seq<bv8>)
    requires data != []
    ensures BitsOf(data) == LowBits(data[0] as bv32, 8) + BitsOf(data[1..])
  {
    hide LowBits;
  }

  /** The check value of this checksum: 0xCBF43926 for "123456789". */
  lemma CheckValue()
    ensures Checksum(DIGITS) == 0xCBF43926
  {
    hide Register, BitsOf;
    DigitsFrom(0);
    assert DIGITS[0..] == DIGITS;
  }
}
