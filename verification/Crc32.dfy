/** The in-file CRC-32 of contrib/mod_digest.c: a 256-entry table and one lookup per byte.
    The engine works on 32-bit words; its meaning is given over bit sequences by Gf2.
*/
module Crc32 {
  import opened Basics
  import opened Gf2

  const POLY: bv32 := 0xEDB88320
  const INIT: bv32 := 0xffffffff

  // ----- Bytes and messages as bit sequences -----

  /** The n low-order bits of k, least significant first. */
  function NatBits(k: nat, n: nat): (bits: seq<bool>)
    ensures |bits| == n
    decreases n, k
  {
    if n == 0 then [] else [k % 2 == 1] + NatBits(k / 2, n - 1)
  }

  function NatOf(bits: seq<bool>): nat {
    if bits == [] then 0 else (if bits[0] then 1 else 0) + 2 * NatOf(bits[1..])
  }

  /** The bits of a message in transmission order. */
  function Bits(data: seq<Byte>): seq<bool> {
    if data == [] then [] else Bits(data[..|data| - 1]) + NatBits(data[|data| - 1], 8)
  }

  function Ones(n: nat): (r: seq<bool>)
    ensures |r| == n
    ensures forall i :: 0 <= i < n ==> r[i]
  {
    seq(n, _ => true)
  }

  /** The register after a whole message. */
  function CrcRegister(data: seq<Byte>): (r: seq<bool>)
    ensures |r| == 32
  {
    FeedAll(Ones(32), Bits(data))
  }

  /** The four bytes of a register, most significant first. */
  function NetworkBytes(v: seq<bool>): (bytes: seq<nat>)
    requires |v| == 32
    ensures |bytes| == 4
  {
    [NatOf(v[24..32]), NatOf(v[16..24]), NatOf(v[8..16]), NatOf(v[0..8])]
  }

  /** The CRC-32 of a message: its inverted register, most significant byte first. */
  function Crc(data: seq<Byte>): (md: seq<Byte>)
    ensures |md| == 4
  {
    NetworkBytesAreBytes(Xor(CrcRegister(data), Ones(32)));
    NetworkBytes(Xor(CrcRegister(data), Ones(32)))
  }

  // ----- The engine -----

  /** The n low-order bits of a word, least significant first. */
  function Low(v: bv32, n: nat): (bits: seq<bool>)
    ensures |bits| == n
    decreases n, v
  {
    if n == 0 then [] else [v & 1 == 1] + Low(v >> 1, n - 1)
  }

  function Register(c: bv32): (r: seq<bool>)
    ensures |r| == 32
  {
    Low(c, 32)
  }

  /** The table's claim: slot i holds the register that byte i leaves behind. */
  ghost predicate TableOk(table: seq<bv32>, n: nat)
    requires n <= |table|
  {
    forall i :: 0 <= i < n ==> Register(table[i]) == FeedAll(Zeros(32), NatBits(i, 8))
  }

  class Context {
    const table: array<bv32>
    var data: bv32

    ghost predicate Valid()
      reads this, table
    {
      table.Length == 256 && TableOk(table[..], 256)
    }

    /** CRC32_Init: fills the table and resets the register. */
    constructor ()
      ensures Valid() && fresh(table)
      ensures Register(data) == Ones(32)
    {
      hide Register;
      InitIsOnes();
      table := new bv32[256];
      data := INIT;
      new;
      FillTable(table);
    }

    /** CRC32_Update: one table lookup per byte, in order. */
    method Update(bytes: seq<Byte>)
      requires Valid()
      modifies this`data
      ensures Valid()
      ensures Register(data) == FeedAll(old(Register(data)), Bits(bytes))
    {
      hide Register;
      assert bytes[..0] == [];
      for n := 0 to |bytes|
        invariant Register(data) == FeedAll(old(Register(data)), Bits(bytes[..n]))
      {
        var i := TableIndex(data, bytes[n]);
        assert Register(table[..][i]) == FeedAll(Zeros(32), NatBits(i, 8));
        LookupFeedsByte(Register(data), NatBits(bytes[n], 8));
        UpdateByByte(old(Register(data)), bytes[..n], bytes[n]);
        assert bytes[..n + 1] == bytes[..n] + [bytes[n]];
        data := Combine(table[i], data);
      }
      assert bytes[..|bytes|] == bytes;
    }

    /** CRC32_Final: the complemented register in network byte order. */
    method Final() returns (md: seq<Byte>)
      ensures md == NetworkBytes(Xor(Register(data), Ones(32)))
    {
      hide Register;
      Complement(data);
      var crc := data ^ 0xffffffff;
      var b3 := ByteAt(crc, 24);
      var b2 := ByteAt(crc, 16);
      var b1 := ByteAt(crc, 8);
      var b0 := ByteAt(crc, 0);
      md := [b3, b2, b1, b0];
    }
  }

  /** The outer loop of CRC32_Init. */
  method FillTable(table: array<bv32>)
    requires table.Length == 256
    modifies table
    ensures TableOk(table[..], 256)
  {
    hide Register, FeedAll, NatBits;
    for i := 0 to 256
      invariant TableOk(table[..], i)
    {
      table[i] := TableEntry(i);
    }
  }

  /** The inner loop of CRC32_Init: eight clocks of the word i. */
  method TableEntry(i: Byte) returns (crc: bv32)
    ensures Register(crc) == FeedAll(Zeros(32), NatBits(i, 8))
  {
    hide Register, NatBits;
    crc := StartWord(i);
    ghost var start := Register(crc);
    for j := 8 downto 0
      invariant FeedAll(Register(crc), Zeros(j)) == FeedAll(start, Zeros(8))
    {
      assert Zeros(j + 1) == [false] + Zeros(j);
      FeedAllCons(Register(crc), false, Zeros(j));
      crc := ClockOnce(crc);
    }
    EntryFromByte(i);
  }

  /** A byte widened to a 32-bit word. */
  function WordOf(b: Byte): bv32 {
    Pack(b % 2 == 1, b / 2 % 2 == 1, b / 4 % 2 == 1, b / 8 % 2 == 1,
         b / 16 % 2 == 1, b / 32 % 2 == 1, b / 64 % 2 == 1, b / 128 % 2 == 1)
  }

  function Pack(p0: bool, p1: bool, p2: bool, p3: bool, p4: bool, p5: bool, p6: bool, p7: bool): bv32 {
    (if p0 then 1 else 0) | (if p1 then 2 else 0) | (if p2 then 4 else 0) | (if p3 then 8 else 0)
    | (if p4 then 0x10 else 0) | (if p5 then 0x20 else 0) | (if p6 then 0x40 else 0) | (if p7 then 0x80 else 0)
  }

  /** Byte i as a 32-bit word, the start of a table entry. */
  method StartWord(i: Byte) returns (crc: bv32)
    ensures Register(crc) == NatBits(i, 8) + Zeros(24)
  {
    hide Register, NatBits, Pack;
    crc := WordOf(i);
    RegisterOfByte(i);
  }

  /** One turn of the inner loop of CRC32_Init. */
  method ClockOnce(c: bv32) returns (r: bv32)
    ensures Register(r) == Feed(Register(c), false)
  {
    BitStepIsFeed(c);
    if c & 1 == 1 {
      r := (c >> 1) ^ POLY;
    } else {
      r := c >> 1;
    }
  }

  /** The table index of the CRC32 macro: the low byte of the register xor the byte. */
  method TableIndex(c: bv32, b: Byte) returns (i: Byte)
    ensures NatBits(i, 8) == Xor(Register(c)[..8], NatBits(b, 8))
  {
    hide Register, NatBits, Xor, WordOf;
    var x := ((c ^ WordOf(b)) & 0xff) as bv8;
    IndexBits(c, b, x);
    i := x as int;
  }

  /** The rest of the CRC32 macro: the entry xor the register shifted down a byte. */
  method Combine(entry: bv32, c: bv32) returns (r: bv32)
    ensures Register(r) == Xor(Register(entry), Register(c)[8..] + Zeros(8))
  {
    r := entry ^ (c >> 8);
    ShiftedWord(entry, c);
  }

  /** The byte of a word that starts at bit k. */
  method ByteAt(v: bv32, k: nat) returns (b: Byte)
    requires k == 0 || k == 8 || k == 16 || k == 24
    ensures b == NatOf(Register(v)[k..k + 8])
  {
    hide Low, Shifted;
    var w := if k == 0 then v else if k == 8 then v >> 8 else if k == 16 then v >> 16 else v >> 24;
    ShiftedByBytes(v);
    var x := (w & 0xff) as bv8;
    b := x as int;
    LowByteBits(w, x);
    RegisterByte(v, k, w);
    NatOfByte(b);
  }

  lemma RegisterByte(v: bv32, k: nat, w: bv32)
    requires k <= 24 && Shifted(v, k) == w
    ensures Register(v)[k..k + 8] == Low(w, 8)
  {
    LowSplit(v, k, 32 - k);
    LowSplit(w, 8, 24 - k);
  }

  lemma NatOfByte(b: Byte)
    ensures NatOf(NatBits(b, 8)) == b
  {
    assert Pow2(8) == 256;
    NatOfNatBits(b, 8);
  }

  lemma Complement(c: bv32)
    ensures Register(c ^ 0xffffffff) == Xor(Register(c), Ones(32))
  {
    LowXor(c, 0xffffffff, 32);
    InitIsOnes();
  }

  // ----- Word operations are bit-sequence operations -----

  lemma XorLow(x: bv32, y: bv32)
    ensures ((x ^ y) & 1 == 1) <==> ((x & 1 == 1) != (y & 1 == 1))
  {
  }

  lemma XorShift(x: bv32, y: bv32)
    ensures (x ^ y) >> 1 == (x >> 1) ^ (y >> 1)
  {
  }

  lemma XorCons(a: bool, x: seq<bool>, b: bool, y: seq<bool>)
    requires |x| == |y|
    ensures Xor([a] + x, [b] + y) == [a != b] + Xor(x, y)
  {
  }

  lemma {:induction false} LowXor(c: bv32, d: bv32, n: nat)
    ensures Low(c ^ d, n) == Xor(Low(c, n), Low(d, n))
    decreases n
  {
    if n > 0 {
      XorLow(c, d);
      XorShift(c, d);
      LowXor(c >> 1, d >> 1, n - 1);
      XorCons(c & 1 == 1, Low(c >> 1, n - 1), d & 1 == 1, Low(d >> 1, n - 1));
    }
  }

  /** v shifted right n times. */
  function Shifted(v: bv32, n: nat): bv32
    decreases n, v
  {
    if n == 0 then v else Shifted(v >> 1, n - 1)
  }

  lemma {:induction false} LowSplit(v: bv32, m: nat, n: nat)
    ensures Low(v, m + n) == Low(v, m) + Low(Shifted(v, m), n)
    decreases m
  {
    if m > 0 {
      LowSplit(v >> 1, m - 1, n);
    }
  }

  lemma {:induction false} ShiftedSplit(v: bv32, m: nat, n: nat)
    ensures Shifted(v, m + n) == Shifted(Shifted(v, m), n)
    decreases m
  {
    if m > 0 {
      ShiftedSplit(v >> 1, m - 1, n);
    }
  }

  lemma {:induction false} LowOfZero(n: nat)
    ensures Low(0, n) == Zeros(n)
  {
    if n > 0 {
      assert (0 as bv32) >> 1 == 0;
      LowOfZero(n - 1);
    }
  }

  lemma ShiftTwice(v: bv32)
    ensures (v >> 1) >> 1 == v >> 2
    ensures (v >> 2) >> 2 == v >> 4
    ensures (v >> 4) >> 4 == v >> 8
    ensures (v >> 8) >> 8 == v >> 16
    ensures (v >> 16) >> 8 == v >> 24
    ensures (v >> 16) >> 16 == 0
  {
  }

  lemma Shifted2(v: bv32)
    ensures Shifted(v, 2) == v >> 2
  {
    ShiftTwice(v);
    assert Shifted(v >> 1, 1) == Shifted((v >> 1) >> 1, 0);
  }

  lemma ShiftedDouble(v: bv32, k: nat, w: bv32, x: bv32)
    requires Shifted(v, k) == w && Shifted(w, k) == x
    ensures Shifted(v, k + k) == x
  {
    ShiftedSplit(v, k, k);
  }

  lemma Shifted4(v: bv32)
    ensures Shifted(v, 4) == v >> 4
  {
    Shifted2(v);
    Shifted2(v >> 2);
    ShiftTwice(v);
    ShiftedDouble(v, 2, v >> 2, v >> 4);
  }

  lemma Shifted8(v: bv32)
    ensures Shifted(v, 8) == v >> 8
  {
    Shifted4(v);
    Shifted4(v >> 4);
    ShiftTwice(v);
    ShiftedDouble(v, 4, v >> 4, v >> 8);
  }

  lemma Shifted16(v: bv32)
    ensures Shifted(v, 16) == v >> 16
  {
    Shifted8(v);
    Shifted8(v >> 8);
    ShiftTwice(v);
    ShiftedDouble(v, 8, v >> 8, v >> 16);
  }

  lemma Shifted32(v: bv32)
    ensures Shifted(v, 32) == 0
  {
    Shifted16(v);
    Shifted16(v >> 16);
    ShiftTwice(v);
    ShiftedDouble(v, 16, v >> 16, 0);
  }

  lemma ShiftedByBytes(v: bv32)
    ensures Shifted(v, 0) == v && Shifted(v, 8) == v >> 8
    ensures Shifted(v, 16) == v >> 16 && Shifted(v, 24) == v >> 24
  {
    Shifted8(v);
    Shifted16(v);
    ShiftedSplit(v, 16, 8);
    Shifted8(v >> 16);
    ShiftTwice(v);
  }

  /** Shifting a word right by k drops its k first bits and appends k zeros. */
  lemma RegisterShifted(v: bv32, k: nat)
    requires k <= 32
    ensures Register(Shifted(v, k)) == Register(v)[k..] + Zeros(k)
  {
    LowSplit(v, k, 32 - k);
    LowSplit(Shifted(v, k), 32 - k, k);
    ShiftedSplit(v, k, 32 - k);
    Shifted32(v);
    LowOfZero(k);
  }

  lemma PairBit(v: bv32)
    ensures ((v >> 1) & 1 == 1) == (v & 2 == 2)
  {
  }

  lemma Low2(v: bv32)
    ensures Low(v, 2) == [v & 1 == 1, v & 2 == 2]
  {
    PairBit(v);
    assert Low(v >> 1, 1) == [(v >> 1) & 1 == 1] + Low((v >> 1) >> 1, 0);
  }

  lemma NibbleBits(v: bv32)
    ensures ((v >> 2) & 1 == 1) == (v & 4 == 4)
    ensures ((v >> 2) & 2 == 2) == (v & 8 == 8)
  {
  }

  lemma Low4(v: bv32)
    ensures Low(v, 4) == [v & 1 == 1, v & 2 == 2, v & 4 == 4, v & 8 == 8]
  {
    hide Low;
    LowSplit(v, 2, 2);
    Shifted2(v);
    Low2(v);
    Low2(v >> 2);
    NibbleBits(v);
  }

  lemma ShiftOn(v: bv32, k: nat, w: bv32)
    requires Shifted(v, k) == w
    ensures Shifted(v, k + 4) == w >> 4
  {
    ShiftedSplit(v, k, 4);
    Shifted4(w);
  }

  /** Bits k to k + 3 of a word, given the word shifted down by k. */
  lemma RegisterNibble(v: bv32, k: nat, w: bv32)
    requires k <= 28 && Shifted(v, k) == w
    ensures Register(v)[k..k + 4] == [w & 1 == 1, w & 2 == 2, w & 4 == 4, w & 8 == 8]
  {
    LowSplit(v, k, 32 - k);
    LowSplit(w, 4, 28 - k);
    Low4(w);
  }

  /** The start of the group of four that index i lies in. */
  lemma NibbleOf(i: nat) returns (k: nat)
    requires i < 32
    ensures k == 0 || k == 4 || k == 8 || k == 12 || k == 16 || k == 20 || k == 24 || k == 28
    ensures k <= i < k + 4
  {
    k := if i < 16
         then (if i < 8 then (if i < 4 then 0 else 4) else (if i < 12 then 8 else 12))
         else (if i < 24 then (if i < 20 then 16 else 20) else (if i < 28 then 24 else 28));
  }

  lemma PolyShifts()
    ensures Shifted(POLY, 0) == 0xEDB88320 && Shifted(POLY, 4) == 0xEDB8832
    ensures Shifted(POLY, 8) == 0xEDB883 && Shifted(POLY, 12) == 0xEDB88
    ensures Shifted(POLY, 16) == 0xEDB8 && Shifted(POLY, 20) == 0xEDB
    ensures Shifted(POLY, 24) == 0xED && Shifted(POLY, 28) == 0xE
  {
    ShiftOn(POLY, 0, 0xEDB88320);
    ShiftOn(POLY, 4, 0xEDB8832);
    ShiftOn(POLY, 8, 0xEDB883);
    ShiftOn(POLY, 12, 0xEDB88);
    ShiftOn(POLY, 16, 0xEDB8);
    ShiftOn(POLY, 20, 0xEDB);
    ShiftOn(POLY, 24, 0xED);
  }

  lemma TailFromNibbles(r: seq<bool>)
    requires |r| == 32
    requires r[0..4] == [false, false, false, false] && r[4..8] == [false, true, false, false]
    requires r[8..12] == [true, true, false, false] && r[12..16] == [false, false, false, true]
    requires r[16..20] == [false, false, false, true] && r[20..24] == [true, true, false, true]
    requires r[24..28] == [true, false, true, true] && r[28..32] == [false, true, true, true]
    ensures r == Tail()
  {
    forall i | 0 <= i < 32 ensures r[i] == IsPower(31 - i) {
      var k := NibbleOf(i);
      assert r[i] == r[k..k + 4][i - k];
    }
  }

  /** POLY is the generator without its leading term, in register order. */
  lemma PolyIsTail()
    ensures POLY == 0xEDB88320 && Register(0xEDB88320) == Tail()
  {
    hide Register;
    PolyShifts();
    RegisterNibble(POLY, 0, 0xEDB88320);
    RegisterNibble(POLY, 4, 0xEDB8832);
    RegisterNibble(POLY, 8, 0xEDB883);
    RegisterNibble(POLY, 12, 0xEDB88);
    RegisterNibble(POLY, 16, 0xEDB8);
    RegisterNibble(POLY, 20, 0xEDB);
    RegisterNibble(POLY, 24, 0xED);
    RegisterNibble(POLY, 28, 0xE);
    TailFromNibbles(Register(POLY));
  }

  lemma BitStepIsFeed(c: bv32)
    ensures c & 1 == 1 ==> Register((c >> 1) ^ POLY) == Feed(Register(c), false)
    ensures c & 1 != 1 ==> Register(c >> 1) == Feed(Register(c), false)
  {
    var r := Register(c);
    RegisterShifted(c, 1);
    assert Shifted(c, 1) == c >> 1;
    assert Zeros(1) == [false];
    assert r[0] == (c & 1 == 1);
    if c & 1 == 1 {
      LowXor(c >> 1, POLY, 32);
      PolyIsTail();
    } else {
      XorZero(r[1..] + [false]);
    }
  }

  lemma ShiftedWord(entry: bv32, c: bv32)
    ensures Register(entry ^ (c >> 8)) == Xor(Register(entry), Register(c)[8..] + Zeros(8))
  {
    RegisterShifted(c, 8);
    Shifted8(c);
    LowXor(entry, c >> 8, 32);
  }

  lemma InitShifts()
    ensures Shifted(INIT, 0) == 0xffffffff && Shifted(INIT, 4) == 0xfffffff
    ensures Shifted(INIT, 8) == 0xffffff && Shifted(INIT, 12) == 0xfffff
    ensures Shifted(INIT, 16) == 0xffff && Shifted(INIT, 20) == 0xfff
    ensures Shifted(INIT, 24) == 0xff && Shifted(INIT, 28) == 0xf
  {
    ShiftOn(INIT, 0, 0xffffffff);
    ShiftOn(INIT, 4, 0xfffffff);
    ShiftOn(INIT, 8, 0xffffff);
    ShiftOn(INIT, 12, 0xfffff);
    ShiftOn(INIT, 16, 0xffff);
    ShiftOn(INIT, 20, 0xfff);
    ShiftOn(INIT, 24, 0xff);
  }

  lemma OnesFromNibbles(r: seq<bool>)
    requires |r| == 32
    requires r[0..4] == r[4..8] == r[8..12] == r[12..16] == [true, true, true, true]
    requires r[16..20] == r[20..24] == r[24..28] == r[28..32] == [true, true, true, true]
    ensures r == Ones(32)
  {
    forall i | 0 <= i < 32 ensures r[i] {
      var k := NibbleOf(i);
      assert r[i] == r[k..k + 4][i - k];
    }
  }

  lemma InitIsOnes()
    ensures Register(INIT) == Ones(32)
  {
    hide Register;
    InitShifts();
    RegisterNibble(INIT, 0, 0xffffffff);
    RegisterNibble(INIT, 4, 0xfffffff);
    RegisterNibble(INIT, 8, 0xffffff);
    RegisterNibble(INIT, 12, 0xfffff);
    RegisterNibble(INIT, 16, 0xffff);
    RegisterNibble(INIT, 20, 0xfff);
    RegisterNibble(INIT, 24, 0xff);
    RegisterNibble(INIT, 28, 0xf);
    OnesFromNibbles(Register(INIT));
  }

  // ----- Bytes as words -----

  lemma ByteHalf(b: bv8)
    ensures (b >> 1) as int == (b as int) / 2
  {
  }

  lemma ByteOdd(b: bv8)
    ensures ((b as int) % 2 == 1) == (b & 1 == 1)
  {
  }

  lemma ByteWidened(b: bv8)
    ensures (b as bv32) >> 1 == (b >> 1) as bv32
    ensures (b as bv32 & 1 == 1) == (b & 1 == 1)
    ensures (b as bv32) >> 8 == 0
  {
  }

  lemma {:induction false} ByteBits(b: bv8, n: nat)
    ensures Low(b as bv32, n) == NatBits(b as int, n)
    decreases n
  {
    if n > 0 {
      ByteHalf(b);
      ByteOdd(b);
      ByteWidened(b);
      ByteBits(b >> 1, n - 1);
    }
  }

  lemma PackNibbles(p0: bool, p1: bool, p2: bool, p3: bool, p4: bool, p5: bool, p6: bool, p7: bool)
    ensures var v := Pack(p0, p1, p2, p3, p4, p5, p6, p7);
            && (v & 1 == 1 <==> p0) && (v & 2 == 2 <==> p1) && (v & 4 == 4 <==> p2) && (v & 8 == 8 <==> p3)
            && ((v >> 4) & 1 == 1 <==> p4) && ((v >> 4) & 2 == 2 <==> p5)
            && ((v >> 4) & 4 == 4 <==> p6) && ((v >> 4) & 8 == 8 <==> p7)
            && v >> 8 == 0
  {
  }

  lemma LowOfPack(p0: bool, p1: bool, p2: bool, p3: bool, p4: bool, p5: bool, p6: bool, p7: bool)
    ensures Low(Pack(p0, p1, p2, p3, p4, p5, p6, p7), 8) == [p0, p1, p2, p3, p4, p5, p6, p7]
    ensures Shifted(Pack(p0, p1, p2, p3, p4, p5, p6, p7), 8) == 0
  {
    hide Pack, Low, Shifted;
    var v := Pack(p0, p1, p2, p3, p4, p5, p6, p7);
    PackNibbles(p0, p1, p2, p3, p4, p5, p6, p7);
    LowSplit(v, 4, 4);
    Shifted4(v);
    Shifted8(v);
    Low4(v);
    Low4(v >> 4);
  }

  lemma NatBits8(b: Byte)
    ensures NatBits(b, 8) == [b % 2 == 1, b / 2 % 2 == 1, b / 4 % 2 == 1, b / 8 % 2 == 1,
                              b / 16 % 2 == 1, b / 32 % 2 == 1, b / 64 % 2 == 1, b / 128 % 2 == 1]
  {
    NatBits4(b, 4);
    NatBits4(b / 16, 0);
    assert b / 16 / 2 == b / 32 && b / 16 / 4 == b / 64 && b / 16 / 8 == b / 128;
    assert NatBits(b / 16 / 16, 0) == [];
  }

  lemma NatBits4(k: nat, n: nat)
    ensures NatBits(k, 4 + n) == [k % 2 == 1, k / 2 % 2 == 1, k / 4 % 2 == 1, k / 8 % 2 == 1] + NatBits(k / 16, n)
  {
    assert k / 2 / 2 == k / 4 && k / 4 / 2 == k / 8 && k / 8 / 2 == k / 16;
    assert NatBits(k, 4 + n) == [k % 2 == 1] + NatBits(k / 2, 3 + n);
    assert NatBits(k / 2, 3 + n) == [k / 2 % 2 == 1] + NatBits(k / 4, 2 + n);
    assert NatBits(k / 4, 2 + n) == [k / 4 % 2 == 1] + NatBits(k / 8, 1 + n);
    assert NatBits(k / 8, 1 + n) == [k / 8 % 2 == 1] + NatBits(k / 16, n);
  }

  lemma LowOfByte(b: Byte)
    ensures Low(WordOf(b), 8) == NatBits(b, 8)
    ensures Shifted(WordOf(b), 8) == 0
  {
    hide Pack, Low, Shifted, NatBits;
    LowOfPack(b % 2 == 1, b / 2 % 2 == 1, b / 4 % 2 == 1, b / 8 % 2 == 1,
              b / 16 % 2 == 1, b / 32 % 2 == 1, b / 64 % 2 == 1, b / 128 % 2 == 1);
    NatBits8(b);
  }

  lemma RegisterOfByte(b: Byte)
    ensures Register(WordOf(b)) == NatBits(b, 8) + Zeros(24)
  {
    hide WordOf, Low, NatBits, Shifted;
    LowOfByte(b);
    LowSplit(WordOf(b), 8, 24);
    LowOfZero(24);
  }

  lemma MaskStep(c: bv32, m: bv32)
    requires m & 1 == 1
    ensures (c & m) & 1 == c & 1
    ensures (c & m) >> 1 == (c >> 1) & (m >> 1)
  {
  }

  /** Masking keeps the bits the mask has set. */
  lemma {:induction false} LowMask(c: bv32, m: bv32, n: nat)
    requires Low(m, n) == Ones(n)
    ensures Low(c & m, n) == Low(c, n)
    decreases n
  {
    if n > 0 {
      assert Low(m, n)[0] && Low(m, n)[1..] == Low(m >> 1, n - 1);
      assert Ones(n)[1..] == Ones(n - 1);
      MaskStep(c, m);
      LowMask(c >> 1, m >> 1, n - 1);
    }
  }

  lemma LowByte(c: bv32)
    ensures Low(c & 0xff, 8) == Low(c, 8)
  {
    LowSplit(0xff, 4, 4);
    Low4(0xff);
    Shifted4(0xff);
    Low4(0xf);
    assert Low(0xff, 8) == Ones(8);
    LowMask(c, 0xff, 8);
  }

  lemma LowByteBits(w: bv32, x: bv8)
    requires x == (w & 0xff) as bv8
    ensures Low(w, 8) == NatBits(x as int, 8)
  {
    LowByte(w);
    assert x as bv32 == w & 0xff;
    ByteBits(x, 8);
  }

  lemma IndexBits(c: bv32, b: Byte, x: bv8)
    requires x == ((c ^ WordOf(b)) & 0xff) as bv8
    ensures NatBits(x as int, 8) == Xor(Register(c)[..8], NatBits(b, 8))
  {
    hide WordOf, NatBits, Low, Shifted;
    LowByteBits(c ^ WordOf(b), x);
    LowXor(c, WordOf(b), 8);
    LowOfByte(b);
    LowSplit(c, 8, 24);
  }

  lemma {:induction false} EntryFromByte(i: Byte)
    ensures FeedAll(NatBits(i, 8) + Zeros(24), Zeros(8)) == FeedAll(Zeros(32), NatBits(i, 8))
  {
    FeedIsFreeRun(Zeros(32), NatBits(i, 8));
    XorZero(NatBits(i, 8) + Zeros(24));
  }

  function Pow2(n: nat): nat {
    if n == 0 then 1 else 2 * Pow2(n - 1)
  }

  lemma {:induction false} NatOfNatBits(k: nat, n: nat)
    requires k < Pow2(n)
    ensures NatOf(NatBits(k, n)) == k
    decreases n
  {
    if n > 0 {
      NatOfNatBits(k / 2, n - 1);
      assert NatBits(k, n)[1..] == NatBits(k / 2, n - 1);
    }
  }

  lemma {:induction false} NatBitsNatOf(bits: seq<bool>)
    ensures NatBits(NatOf(bits), |bits|) == bits
  {
    if bits != [] {
      NatBitsNatOf(bits[1..]);
    }
  }

  // ----- Whole-message properties -----

  lemma {:induction false} UpdateByByte(r: seq<bool>, prefix: seq<Byte>, b: Byte)
    requires |r| == 32
    ensures FeedAll(r, Bits(prefix + [b])) == FeedAll(FeedAll(r, Bits(prefix)), NatBits(b, 8))
  {
    assert (prefix + [b])[..|prefix|] == prefix;
    FeedAllConcat(r, Bits(prefix), NatBits(b, 8));
  }

  lemma {:induction false} BitsConcat(a: seq<Byte>, b: seq<Byte>)
    ensures Bits(a + b) == Bits(a) + Bits(b)
    decreases |b|
  {
    if b == [] {
      assert a + b == a;
    } else {
      var k := |b| - 1;
      assert (a + b)[..|a + b| - 1] == a + b[..k];
      BitsConcat(a, b[..k]);
    }
  }

  /** Updating with a and then with b is updating with a + b. */
  lemma {:induction false} UpdateIsIncremental(r: seq<bool>, a: seq<Byte>, b: seq<Byte>)
    requires |r| == 32
    ensures FeedAll(r, Bits(a + b)) == FeedAll(FeedAll(r, Bits(a)), Bits(b))
  {
    BitsConcat(a, b);
    FeedAllConcat(r, Bits(a), Bits(b));
  }

  /** The register after a message is the remainder of the message, extended by 32 zero
      bits and with its first 32 bits inverted, modulo the generator; nothing else is. */
  lemma {:induction false} CrcIsPolynomialRemainder(data: seq<Byte>, rem: seq<bool>)
    requires |rem| == 32
    ensures IsRemainder(Dividend(Ones(32), Bits(data)), rem) <==> rem == CrcRegister(data)
  {
    RegisterIsRemainder(Ones(32), Bits(data));
    if IsRemainder(Dividend(Ones(32), Bits(data)), rem) {
      RemainderUnique(Dividend(Ones(32), Bits(data)), rem, CrcRegister(data));
    }
  }

  /** The digest bytes determine the register they were made from. */
  lemma {:induction false} CrcDeterminesRegister(a: seq<Byte>, b: seq<Byte>)
    requires Crc(a) == Crc(b)
    ensures CrcRegister(a) == CrcRegister(b)
  {
    var v, w := Xor(CrcRegister(a), Ones(32)), Xor(CrcRegister(b), Ones(32));
    NetworkBytesRoundTrip(v);
    NetworkBytesRoundTrip(w);
    XorUndo(CrcRegister(a), Ones(32));
    XorUndo(CrcRegister(b), Ones(32));
  }

  /** The bits of the bytes taken least significant first are the register again. */
  lemma {:induction false} NetworkBytesRoundTrip(v: seq<bool>)
    requires |v| == 32
    ensures var md := NetworkBytes(v);
            v == NatBits(md[3], 8) + NatBits(md[2], 8) + NatBits(md[1], 8) + NatBits(md[0], 8)
  {
    NatBitsNatOf(v[24..32]);
    NatBitsNatOf(v[16..24]);
    NatBitsNatOf(v[8..16]);
    NatBitsNatOf(v[0..8]);
    assert v == v[0..8] + v[8..16] + v[16..24] + v[24..32];
  }

  lemma {:induction false} NatOfBound(bits: seq<bool>)
    ensures NatOf(bits) < Pow2(|bits|)
  {
    if bits != [] {
      NatOfBound(bits[1..]);
    }
  }

  lemma NetworkBytesAreBytes(v: seq<bool>)
    requires |v| == 32
    ensures forall i :: 0 <= i < 4 ==> 0 <= NetworkBytes(v)[i] < 256
  {
    assert Pow2(8) == 256;
    NatOfBound(v[24..32]);
    NatOfBound(v[16..24]);
    NatOfBound(v[8..16]);
    NatOfBound(v[0..8]);
  }

  lemma BitsOfFour(a: Byte, b: Byte, c: Byte, d: Byte)
    ensures Bits([a, b, c, d]) == NatBits(a, 8) + NatBits(b, 8) + NatBits(c, 8) + NatBits(d, 8)
  {
    assert [a, b, c, d] == [a] + [b] + [c] + [d];
    BitsConcat([a] + [b] + [c], [d]);
    BitsConcat([a] + [b], [c]);
    BitsConcat([a], [b]);
    forall x: Byte ensures Bits([x]) == NatBits(x, 8) {
      assert [x][..0] == [];
    }
  }

  /** A message followed by its own CRC, low byte first, drives the register to one and
      the same value whatever the message: the check a receiver makes. */
  lemma {:induction false} ResidueIsConstant(message: seq<Byte>, trailer: seq<Byte>)
    requires |trailer| == 4
    requires forall i :: 0 <= i < 4 ==> trailer[i] == Crc(message)[3 - i]
    ensures CrcRegister(message + trailer) == FeedAll(Zeros(32), Ones(32))
  {
    hide FeedAll, NatBits, NatOf;
    var c := CrcRegister(message);
    NetworkBytesRoundTrip(Xor(c, Ones(32)));
    BitsOfFour(trailer[0], trailer[1], trailer[2], trailer[3]);
    assert trailer == [trailer[0], trailer[1], trailer[2], trailer[3]];
    UpdateIsIncremental(Ones(32), message, trailer);
    FeedMasked(c, Ones(32));
  }

  /** Two messages whose bits agree outside a window of at most 32 bits, and differ inside
      it, never share a CRC. */
  lemma {:induction false} BurstsAreDetected(a: seq<Byte>, b: seq<Byte>,
                                             p: seq<bool>, x: seq<bool>, y: seq<bool>, s: seq<bool>)
    requires Bits(a) == p + x + s && Bits(b) == p + y + s
    requires |x| == |y| <= 32 && x != y
    ensures Crc(a) != Crc(b)
  {
    var r := FeedAll(Ones(32), p);
    FeedAllConcat(Ones(32), p + x, s);
    FeedAllConcat(Ones(32), p + y, s);
    FeedAllConcat(Ones(32), p, x);
    FeedAllConcat(Ones(32), p, y);
    if Crc(a) == Crc(b) {
      CrcDeterminesRegister(a, b);
      FeedAllInjective(FeedAll(r, x), FeedAll(r, y), s);
      FeedDistinguishes(r, x, y);
    }
  }
}
