/** CRC-32/MPEG-2: polynomial 0x04C11DB7, all ones to start, no reflection (Annex A of ITU-T H.222.0). */
module Crc32 {
  import opened Bytes

  const START: bv32 := 0xFFFF_FFFF

  function ToBits(x: byte): bv8 {
    x as bv8
  }

  function ToByte(b: bv8): byte {
    b as int
  }

  function ShiftBit(c: bv32): bv32 {
    if c & 0x8000_0000 != 0 then (c << 1) ^ 0x04C1_1DB7 else c << 1
  }

  function ShiftBits(c: bv32, n: nat): bv32
    decreases n
  {
    if n == 0 then c else ShiftBits(ShiftBit(c), n - 1)
  }

  function Mix(c: bv32, b: bv8): bv32 {
    c ^ ((b as bv32) << 24)
  }

  function AddByte(c: bv32, b: bv8): bv32 {
    ShiftBits(Mix(c, b), 8)
  }

  function Register(c: bv32, data: seq<bv8>): bv32
    decreases |data|
  {
    if data == [] then c else Register(AddByte(c, data[0]), data[1..])
  }

  /** The register after `data`. */
  function Crc(data: seq<bv8>): bv32 {
    Register(START, data)
  }

  function Top(c: bv32): bv8 {
    (c >> 24) as bv8
  }

  function Shl8(c: bv32): bv32 {
    c << 8
  }

  /** The register's four bytes, most significant first. */
  function BigEndian(c: bv32): (r: seq<bv8>)
    ensures |r| == 4
  {
    [Top(c), Top(Shl8(c)), Top(Shl8(Shl8(c))), Top(Shl8(Shl8(Shl8(c))))]
  }

  /** The two loops of the source. */
  method CrcLoop(data: seq<bv8>) returns (crc: bv32)
    ensures crc == Crc(data)
  {
    crc := START;
    for i := 0 to |data|
      invariant Register(crc, data[i..]) == Crc(data)
    {
      assert data[i..][1..] == data[i + 1..];
      crc := Mix(crc, data[i]);
      ghost var mixed := crc;
      for k := 0 to 8
        invariant ShiftBits(mixed, 8) == ShiftBits(crc, 8 - k)
      {
        crc := ShiftBit(crc);
      }
    }
  }

  /** Bytes as the CRC sees them, and back. */
  function Bits(data: bytes): (r: seq<bv8>)
    ensures |r| == |data|
  {
    if data == [] then [] else [ToBits(data[0])] + Bits(data[1..])
  }

  function ToBytes(data: seq<bv8>): (r: bytes)
    ensures |r| == |data|
  {
    if data == [] then [] else [ToByte(data[0])] + ToBytes(data[1..])
  }

  lemma {:induction false} BitsBack(x: bv8)
    ensures ToBits(ToByte(x)) == x
  {
  }

  lemma {:induction false} BitsOfBytes(data: seq<bv8>)
    ensures Bits(ToBytes(data)) == data
  {
    hide ToBits, ToByte;
    if data != [] {
      BitsBack(data[0]);
      BitsOfBytes(data[1..]);
    }
  }

  lemma {:induction false} BitsAppend(a: bytes, b: bytes)
    ensures Bits(a + b) == Bits(a) + Bits(b)
  {
    hide ToBits;
    if a == [] {
      assert a + b == b;
    } else {
      assert (a + b)[1..] == a[1..] + b;
      BitsAppend(a[1..], b);
    }
  }

  /** Eight shifts of a register whose top byte is zero never meet the polynomial. */
  lemma {:induction false} EightPlainShifts(c: bv32)
    requires c & 0xFF00_0000 == 0
    ensures ShiftBits(c, 8) == Shl8(c)
  {
    assert ShiftBit(c) == c << 1;
    assert ShiftBit(c << 1) == c << 2;
    assert ShiftBit(c << 2) == c << 3;
    assert ShiftBit(c << 3) == c << 4;
    assert ShiftBit(c << 4) == c << 5;
    assert ShiftBit(c << 5) == c << 6;
    assert ShiftBit(c << 6) == c << 7;
    assert ShiftBit(c << 7) == c << 8;
    assert ShiftBits(c << 7, 1) == ShiftBits(c << 8, 0);
    assert ShiftBits(c << 6, 2) == ShiftBits(c << 7, 1);
    assert ShiftBits(c << 5, 3) == ShiftBits(c << 6, 2);
    assert ShiftBits(c << 4, 4) == ShiftBits(c << 5, 3);
    assert ShiftBits(c << 3, 5) == ShiftBits(c << 4, 4);
    assert ShiftBits(c << 2, 6) == ShiftBits(c << 3, 5);
    assert ShiftBits(c << 1, 7) == ShiftBits(c << 2, 6);
  }

  lemma {:induction false} TopCancels(c: bv32)
    ensures Mix(c, Top(c)) & 0xFF00_0000 == 0
    ensures Shl8(Mix(c, Top(c))) == Shl8(c)
  {
  }

  /** Feeding the register its own top byte shifts it out. */
  lemma {:induction false} FeedTop(c: bv32)
    ensures AddByte(c, Top(c)) == Shl8(c)
  {
    TopCancels(c);
    EightPlainShifts(Mix(c, Top(c)));
    hide ShiftBits, Mix, Top, Shl8;
  }

  lemma {:induction false} FourShiftsClear(c: bv32)
    ensures Shl8(Shl8(Shl8(Shl8(c)))) == 0
  {
  }

  lemma {:induction false} RegisterAppend(c: bv32, a: seq<bv8>, b: seq<bv8>)
    ensures Register(c, a + b) == Register(Register(c, a), b)
    decreases |a|
  {
    hide AddByte;
    if a == [] {
      assert a + b == b;
    } else {
      assert (a + b)[0] == a[0] && (a + b)[1..] == a[1..] + b;
      RegisterAppend(AddByte(c, a[0]), a[1..], b);
    }
  }

  lemma {:induction false} RegisterOne(c: bv32, p: bv8, rest: seq<bv8>)
    ensures Register(c, [p] + rest) == Register(AddByte(c, p), rest)
    ensures Register(c, []) == c
  {
    hide AddByte;
    assert ([p] + rest)[1..] == rest;
  }

  lemma {:induction false} FeedItself(c: bv32)
    ensures Register(c, BigEndian(c)) == 0
  {
    var c1 := Shl8(c);
    var c2 := Shl8(c1);
    var c3 := Shl8(c2);
    var p, q, r, s := Top(c), Top(c1), Top(c2), Top(c3);
    assert BigEndian(c) == [p] + ([q] + ([r] + ([s] + [])));
    hide *;
    RegisterOne(c, p, [q] + ([r] + ([s] + [])));
    RegisterOne(c1, q, [r] + ([s] + []));
    RegisterOne(c2, r, [s] + []);
    RegisterOne(c3, s, []);
    RegisterOne(Shl8(c3), s, []);
    FeedTop(c);
    FeedTop(c1);
    FeedTop(c2);
    FeedTop(c3);
    FourShiftsClear(c);
  }

  /** The residue check: any data followed by its own CRC leaves the register zero. */
  lemma {:induction false} ResidueZero(data: seq<bv8>)
    ensures Crc(data + BigEndian(Crc(data))) == 0
  {
    hide Register, BigEndian;
    RegisterAppend(START, data, BigEndian(Crc(data)));
    FeedItself(Crc(data));
  }

  // ----- what the residue check catches

  lemma {:induction false} ShlBack(c: bv32)
    ensures (c << 1) & 1 == 0
    ensures c & 0x8000_0000 == 0 ==> (c << 1) >> 1 == c
    ensures c & 0x8000_0000 != 0 ==> ((c << 1) >> 1) | 0x8000_0000 == c
  {
  }

  lemma {:induction false} XorBack(s: bv32)
    requires s & 1 == 0
    ensures (s ^ 0x04C1_1DB7) & 1 != 0 && (s ^ 0x04C1_1DB7) ^ 0x04C1_1DB7 == s
  {
  }

  /** The polynomial's low bit tells whether it was added, so a shift loses nothing. */
  lemma {:induction false} ShiftBitInjective(a: bv32, b: bv32)
    requires ShiftBit(a) == ShiftBit(b)
    ensures a == b
  {
    ShlBack(a);
    ShlBack(b);
    XorBack(a << 1);
    XorBack(b << 1);
  }

  lemma {:induction false} ShiftBitsInjective(a: bv32, b: bv32, n: nat)
    requires a != b
    ensures ShiftBits(a, n) != ShiftBits(b, n)
    decreases n
  {
    hide ShiftBit;
    if n > 0 {
      if ShiftBit(a) == ShiftBit(b) {
        ShiftBitInjective(a, b);
      }
      ShiftBitsInjective(ShiftBit(a), ShiftBit(b), n - 1);
    }
  }

  lemma {:induction false} MixTwice(c: bv32, x: bv8)
    ensures Mix(Mix(c, x), x) == c
  {
  }

  lemma {:induction false} MixTop(c: bv32, x: bv8)
    ensures Top(Mix(c, x)) == Top(c) ^ x
  {
  }

  lemma {:induction false} XorTwice(t: bv8, x: bv8)
    ensures t ^ (t ^ x) == x
  {
  }

  lemma {:induction false} MixDiffers(c: bv32, x: bv8, y: bv8)
    requires x != y
    ensures Mix(c, x) != Mix(c, y)
  {
    MixTop(c, x);
    MixTop(c, y);
    XorTwice(Top(c), x);
    XorTwice(Top(c), y);
    hide Mix, Top;
  }

  lemma {:induction false} RegisterInjective(c: bv32, d: bv32, data: seq<bv8>)
    requires c != d
    ensures Register(c, data) != Register(d, data)
    decreases |data|
  {
    hide ShiftBits, Mix;
    if data != [] {
      var x := data[0];
      MixTwice(c, x);
      MixTwice(d, x);
      ShiftBitsInjective(Mix(c, x), Mix(d, x), 8);
      RegisterInjective(AddByte(c, x), AddByte(d, x), data[1..]);
    }
  }

  /** One corrupted byte, wherever it is, changes the residue: a section that passes the check no longer does. */
  lemma {:induction false} OneByteErrorSeen(a: seq<bv8>, x: bv8, y: bv8, b: seq<bv8>)
    requires x != y
    ensures Crc(a + [x] + b) != Crc(a + [y] + b)
  {
    hide ShiftBits, Mix, Register;
    var c := Register(START, a);
    MixDiffers(c, x, y);
    ShiftBitsInjective(Mix(c, x), Mix(c, y), 8);
    RegisterInjective(AddByte(c, x), AddByte(c, y), b);
    assert a + [x] + b == a + ([x] + b) && a + [y] + b == a + ([y] + b);
    RegisterAppend(START, a, [x] + b);
    RegisterAppend(START, a, [y] + b);
    RegisterOne(c, x, b);
    RegisterOne(c, y, b);
  }

  /** A section followed by its CRC passes a receiver's residue check. */
  lemma {:induction false} SectionPasses(section: bytes)
    ensures Crc(Bits(section + ToBytes(BigEndian(Crc(Bits(section)))))) == 0
  {
    hide *;
    var crc := BigEndian(Crc(Bits(section)));
    BitsAppend(section, ToBytes(crc));
    BitsOfBytes(crc);
    ResidueZero(Bits(section));
  }

  lemma {:induction false} CheckSteps()
    ensures AddByte(0xFFFF_FFFF, 0x31) == 0x9EFB_CF93
    ensures AddByte(0x9EFB_CF93, 0x32) == 0x3FEC_5E6A
    ensures AddByte(0x3FEC_5E6A, 0x33) == 0xD952_F164
    ensures AddByte(0xD952_F164, 0x34) == 0xA695_C4AA
    ensures AddByte(0xA695_C4AA, 0x35) == 0xBD9A_B747
    ensures AddByte(0xBD9A_B747, 0x36) == 0xD8F0_6C8F
    ensures AddByte(0xD8F0_6C8F, 0x37) == 0x0D8A_14C4
    ensures AddByte(0x0D8A_14C4, 0x38) == 0x49E3_C2FB
    ensures AddByte(0x49E3_C2FB, 0x39) == 0x0376_E6E7
  {
  }

  lemma {:induction false} RegisterStep(c: bv32, d: seq<bv8>, k: nat)
    requires k < |d|
    ensures Register(c, d[k..]) == Register(AddByte(c, d[k]), d[k + 1..])
  {
    hide AddByte;
    assert d[k..][1..] == d[k + 1..];
  }

  lemma {:induction false} BitsAt(data: bytes, k: nat)
    requires k < |data|
    ensures Bits(data)[k] == ToBits(data[k])
  {
    hide ToBits;
    if k > 0 {
      BitsAt(data[1..], k - 1);
    }
  }

  lemma {:induction false} DigitBits()
    ensures ToBits(0x31) == 0x31 && ToBits(0x32) == 0x32 && ToBits(0x33) == 0x33
    ensures ToBits(0x34) == 0x34 && ToBits(0x35) == 0x35 && ToBits(0x36) == 0x36
    ensures ToBits(0x37) == 0x37 && ToBits(0x38) == 0x38 && ToBits(0x39) == 0x39
  {
  }

  /** The check value of CRC-32/MPEG-2, for the digits 1 to 9. */
  lemma {:induction false} CheckValue()
    ensures Crc(Bits([0x31, 0x32, 0x33, 0x34, 0x35, 0x36, 0x37, 0x38, 0x39])) == 0x0376_E6E7
  {
    hide AddByte, Register, Bits, ToBits;
    DigitBits();
    CheckSteps();
    var digits: bytes := [0x31, 0x32, 0x33, 0x34, 0x35, 0x36, 0x37, 0x38, 0x39];
    var d := Bits(digits);
    forall k | 0 <= k < 9 ensures d[k] == ToBits(digits[k]) {
      BitsAt(digits, k);
    }
    assert d[0..] == d;
    RegisterStep(0xFFFF_FFFF, d, 0);
    RegisterStep(0x9EFB_CF93, d, 1);
    RegisterStep(0x3FEC_5E6A, d, 2);
    RegisterStep(0xD952_F164, d, 3);
    RegisterStep(0xA695_C4AA, d, 4);
    RegisterStep(0xBD9A_B747, d, 5);
    RegisterStep(0xD8F0_6C8F, d, 6);
    RegisterStep(0x0D8A_14C4, d, 7);
    RegisterStep(0x49E3_C2FB, d, 8);
    RegisterEnd(0x0376_E6E7, d[9..]);
  }

  lemma {:induction false} RegisterEnd(c: bv32, d: seq<bv8>)
    requires d == []
    ensures Register(c, d) == c
  {
  }
}
