/** The 32-bit Castagnoli checksum of RFC 3720, section 12.1, as the UDP transport computes it. */
module Crc32 {
  import opened Crc32Table
  import opened Wire

  function Index(crc: bv32, b: Byte): Byte { b ^ ((crc & 0xFF) as Byte) }

  function Shifted(crc: bv32, entry: bv32): bv32 { (crc >> 8) ^ entry }

  function AddByte(crc: bv32, b: Byte): bv32 { Shifted(crc, Remainder(Index(crc, b))) }

  function Register(crc: bv32, data: seq<Byte>): bv32
    decreases |data|
  {
    if data == [] then crc else Register(AddByte(crc, data[0]), data[1..])
  }

  function Inverse(crc: bv32): bv32 { crc ^ 0xFFFF_FFFF }

  function Crc32c(data: seq<Byte>): bv32 { Inverse(Register(0xFFFF_FFFF, data)) }

  /** Least significant byte first. */
  function CrcBytes(crc: bv32): (s: seq<Byte>)
    ensures |s| == 4
  {
    [(crc & 0xFF) as Byte, ((crc >> 8) & 0xFF) as Byte, ((crc >> 16) & 0xFF) as Byte, ((crc >> 24) & 0xFF) as Byte]
  }

  lemma {:induction false} RegisterConcat(crc: bv32, a: seq<Byte>, b: seq<Byte>)
    ensures Register(crc, a + b) == Register(Register(crc, a), b)
    decreases |a|
  {
    if a == [] {
      assert a + b == b;
    } else {
      assert (a + b)[1..] == a[1..] + b;
      RegisterConcat(AddByte(crc, a[0]), a[1..], b);
    }
  }

  /** The byte step as it is run, with the literal table. */
  function LookUp(crc: bv32, b: Byte): bv32 { Shifted(crc, Entry(Index(crc, b))) }

  lemma LookUpIsAddByte(crc: bv32, b: Byte)
    ensures LookUp(crc, b) == AddByte(crc, b)
  {
    hide Entry, Remainder, Index, Shifted;
    EntryIsRemainder(Index(crc, b));
  }

  method Compute(data: seq<Byte>) returns (crc: bv32)
    ensures crc == Crc32c(data)
  {
    hide AddByte, LookUp;
    crc := 0xFFFF_FFFF;
    var i := 0;
    while i < |data|
      invariant 0 <= i <= |data|
      invariant Register(crc, data[i..]) == Register(0xFFFF_FFFF, data)
    {
      assert data[i..][0] == data[i] && data[i..][1..] == data[i + 1..];
      LookUpIsAddByte(crc, data[i]);
      crc := LookUp(crc, data[i]);
      i := i + 1;
    }
    return Inverse(crc);
  }

  // ---------------------------------------------------------------- the residue

  lemma {:induction false} FourEntries()
    ensures Remainder(0xFF) == 0xAD7D5351 && Remainder(0xAE) == 0x0E330A81
    ensures Remainder(0x2D) == 0x9F95C20D && Remainder(0x85) == 0xB7072F64
  {
  }

  // Each byte of the inverted register meets its own bits, so that the index is a constant.

  lemma {:induction false} Index0(c: bv32)
    ensures (((c ^ 0xFFFF_FFFF) & 0xFF) as bv8) ^ ((c & 0xFF) as bv8) == 0xFF
  {
  }

  lemma {:induction false} Index1(c: bv32)
    ensures ((((c ^ 0xFFFF_FFFF) >> 8) & 0xFF) as bv8) ^ ((((c >> 8) ^ 0xAD7D5351) & 0xFF) as bv8) == 0xAE
  {
  }

  lemma {:induction false} Index2(c: bv32)
    ensures ((((c ^ 0xFFFF_FFFF) >> 16) & 0xFF) as bv8) ^ ((((c >> 16) ^ 0x0E9E77D2) & 0xFF) as bv8) == 0x2D
  {
  }

  lemma {:induction false} Index3(c: bv32)
    ensures ((((c ^ 0xFFFF_FFFF) >> 24) & 0xFF) as bv8) ^ ((((c >> 24) ^ 0x9F9B5C7A) & 0xFF) as bv8) == 0x85
  {
  }

  lemma {:induction false} Shift1(c: bv32)
    ensures (((c >> 8) ^ 0xAD7D5351) >> 8) ^ 0x0E330A81 == (c >> 16) ^ 0x0E9E77D2
  {
  }

  lemma {:induction false} Shift2(c: bv32)
    ensures (((c >> 16) ^ 0x0E9E77D2) >> 8) ^ 0x9F95C20D == (c >> 24) ^ 0x9F9B5C7A
  {
  }

  lemma {:induction false} Shift3(c: bv32)
    ensures (((c >> 24) ^ 0x9F9B5C7A) >> 8) ^ 0xB7072F64 == 0xB798B438
  {
  }

  lemma {:induction false} Byte0(c: bv32)
    ensures AddByte(c, ((c ^ 0xFFFF_FFFF) & 0xFF) as Byte) == (c >> 8) ^ 0xAD7D5351
  {
    FourEntries();
    Index0(c);
    hide Remainder;
  }

  lemma {:induction false} Byte1(c: bv32)
    ensures AddByte((c >> 8) ^ 0xAD7D5351, (((c ^ 0xFFFF_FFFF) >> 8) & 0xFF) as Byte) == (c >> 16) ^ 0x0E9E77D2
  {
    FourEntries();
    Index1(c);
    Shift1(c);
    hide Remainder;
  }

  lemma {:induction false} Byte2(c: bv32)
    ensures AddByte((c >> 16) ^ 0x0E9E77D2, (((c ^ 0xFFFF_FFFF) >> 16) & 0xFF) as Byte) == (c >> 24) ^ 0x9F9B5C7A
  {
    FourEntries();
    Index2(c);
    Shift2(c);
    hide Remainder;
  }

  lemma {:induction false} Byte3(c: bv32)
    ensures AddByte((c >> 24) ^ 0x9F9B5C7A, (((c ^ 0xFFFF_FFFF) >> 24) & 0xFF) as Byte) == 0xB798B438
  {
    FourEntries();
    Index3(c);
    Shift3(c);
    hide Remainder;
  }

  lemma {:induction false} RegisterOfFour(c: bv32, s: seq<Byte>)
    requires |s| == 4
    ensures Register(c, s) == AddByte(AddByte(AddByte(AddByte(c, s[0]), s[1]), s[2]), s[3])
  {
    hide AddByte;
    var c1 := AddByte(c, s[0]);
    var c2 := AddByte(c1, s[1]);
    var c3 := AddByte(c2, s[2]);
    assert s[1..][1..] == s[2..] && s[2..][1..] == s[3..] && s[3..][1..] == [];
    assert Register(c3, s[3..]) == Register(AddByte(c3, s[3]), []) == AddByte(c3, s[3]);
    assert Register(c2, s[2..]) == Register(c3, s[3..]);
    assert Register(c1, s[1..]) == Register(c2, s[2..]);
  }

  lemma CheckBytes(c: bv32)
    ensures var s, i := CrcBytes(Inverse(c)), c ^ 0xFFFF_FFFF;
            && s[0] == (i & 0xFF) as Byte && s[1] == ((i >> 8) & 0xFF) as Byte
            && s[2] == ((i >> 16) & 0xFF) as Byte && s[3] == ((i >> 24) & 0xFF) as Byte
  {
  }

  /** Whatever the register holds, its own bytes, inverted, bring it to a constant. */
  lemma {:induction false} RegisterOfCheck(c: bv32)
    ensures Register(c, CrcBytes(Inverse(c))) == 0xB798B438
  {
    hide AddByte, Register, CrcBytes, Inverse;
    CheckBytes(c);
    RegisterOfFour(c, CrcBytes(Inverse(c)));
    Byte0(c);
    Byte1(c);
    Byte2(c);
    Byte3(c);
  }

  lemma InverseOfResidue()
    ensures Inverse(0xB798B438) == 0x48674BC7
  {
  }

  /** Data followed by its own checksum always leaves the same residue. */
  lemma {:induction false} Residue(data: seq<Byte>)
    ensures Crc32c(data + CrcBytes(Crc32c(data))) == 0x48674BC7
  {
    hide AddByte, Register, CrcBytes, Inverse;
    var c := Register(0xFFFF_FFFF, data);
    RegisterConcat(0xFFFF_FFFF, data, CrcBytes(Inverse(c)));
    RegisterOfCheck(c);
    InverseOfResidue();
  }

  // ---------------------------------------------------------------- a changed byte changes the checksum

  lemma TopTells(i: Byte, j: Byte)
    requires Remainder(i) >> 24 == Remainder(j) >> 24
    ensures i == j
  {
  }

  lemma ShiftedTop(c: bv32, r: bv32)
    ensures Shifted(c, r) >> 24 == r >> 24
  {
  }

  lemma ShiftedRest(c: bv32, d: bv32, r: bv32)
    requires Shifted(c, r) == Shifted(d, r)
    ensures c >> 8 == d >> 8
  {
  }

  lemma IndexLow(c: bv32, d: bv32, b: Byte)
    requires Index(c, b) == Index(d, b) && c >> 8 == d >> 8
    ensures c == d
  {
  }

  lemma IndexByte(c: bv32, x: Byte, y: Byte)
    requires Index(c, x) == Index(c, y)
    ensures x == y
  {
  }

  /** The top byte of the new register tells the entry, the others tell the rest of the old register. */
  lemma SameIndex(c: bv32, x: Byte, d: bv32, y: Byte)
    requires AddByte(c, x) == AddByte(d, y)
    ensures Index(c, x) == Index(d, y) && c >> 8 == d >> 8
  {
    hide Remainder, Index, Shifted;
    ShiftedTop(c, Remainder(Index(c, x)));
    ShiftedTop(d, Remainder(Index(d, y)));
    TopTells(Index(c, x), Index(d, y));
    ShiftedRest(c, d, Remainder(Index(c, x)));
  }

  lemma StepInjective(c: bv32, d: bv32, b: Byte)
    requires AddByte(c, b) == AddByte(d, b)
    ensures c == d
  {
    hide AddByte, Index;
    SameIndex(c, b, d, b);
    IndexLow(c, d, b);
  }

  lemma StepDetects(c: bv32, x: Byte, y: Byte)
    requires AddByte(c, x) == AddByte(c, y)
    ensures x == y
  {
    hide AddByte, Index;
    SameIndex(c, x, c, y);
    IndexByte(c, x, y);
  }

  lemma {:induction false} RegisterInjective(c: bv32, d: bv32, data: seq<Byte>)
    requires Register(c, data) == Register(d, data)
    ensures c == d
    decreases |data|
  {
    hide AddByte;
    if data != [] {
      RegisterInjective(AddByte(c, data[0]), AddByte(d, data[0]), data[1..]);
      StepInjective(c, d, data[0]);
    }
  }

  lemma {:induction false} RegisterAround(data: seq<Byte>, at: nat, c: bv32)
    requires at < |data|
    ensures Register(c, data) == Register(AddByte(Register(c, data[..at]), data[at]), data[at + 1..])
  {
    hide AddByte;
    assert data == data[..at] + data[at..];
    RegisterConcat(c, data[..at], data[at..]);
    assert data[at..][0] == data[at] && data[at..][1..] == data[at + 1..];
  }

  lemma InverseInjective(c: bv32, d: bv32)
    requires Inverse(c) == Inverse(d)
    ensures c == d
  {
  }

  /** A single changed byte is always detected. */
  lemma {:induction false} ByteDetected(data: seq<Byte>, at: nat, b: Byte)
    requires at < |data| && b != data[at]
    ensures Crc32c(data[at := b]) != Crc32c(data)
  {
    hide AddByte, Register, Inverse;
    var wrong, c := data[at := b], Register(0xFFFF_FFFF, data[..at]);
    RegisterAround(data, at, 0xFFFF_FFFF);
    RegisterAround(wrong, at, 0xFFFF_FFFF);
    assert wrong[..at] == data[..at] && wrong[at + 1..] == data[at + 1..];
    if Crc32c(wrong) == Crc32c(data) {
      InverseInjective(Register(0xFFFF_FFFF, wrong), Register(0xFFFF_FFFF, data));
      RegisterInjective(AddByte(c, b), AddByte(c, data[at]), data[at + 1..]);
      StepDetects(c, b, data[at]);
    }
  }

  // ---------------------------------------------------------------- a check can be met in one way only

  /** A register without its n low bits. */
  function Upper(c: bv32, n: nat): bv32 { if n == 8 then c >> 8 else if n == 16 then c >> 16 else c >> 24 }

  function Xor(c: bv32, d: bv32): bv32 { c ^ d }

  lemma {:induction false} TopOfShifted(c: bv32, r: bv32, d: bv32, q: bv32, n: nat)
    requires Upper(Shifted(c, r), n) == Upper(Shifted(d, q), n)
    ensures r >> 24 == q >> 24
  {
  }

  lemma {:induction false} XorCancels(c: bv32, d: bv32, r: bv32)
    requires Xor(c, r) == Xor(d, r)
    ensures c == d
  {
  }

  lemma {:induction false} RestOf8(c: bv32, r: bv32)
    ensures Upper(Shifted(c, r), 8) == Xor(Upper(c, 16), Upper(r, 8))
  {
  }

  lemma {:induction false} RestOf16(c: bv32, r: bv32)
    ensures Upper(Shifted(c, r), 16) == Xor(Upper(c, 24), Upper(r, 16))
  {
  }

  lemma {:induction false} RestOfShifted(c: bv32, d: bv32, r: bv32, n: nat)
    requires Upper(Shifted(c, r), n) == Upper(Shifted(d, r), n) && (n == 8 || n == 16)
    ensures Upper(c, n + 8) == Upper(d, n + 8)
  {
    hide Shifted, Upper, Xor;
    if n == 8 {
      RestOf8(c, r);
      RestOf8(d, r);
    } else {
      RestOf16(c, r);
      RestOf16(d, r);
    }
    XorCancels(Upper(c, n + 8), Upper(d, n + 8), Upper(r, n));
  }

  /** Such registers were made with the same entry. */
  lemma SameEntry(c: bv32, x: Byte, d: bv32, y: Byte, n: nat)
    requires Upper(AddByte(c, x), n) == Upper(AddByte(d, y), n)
    ensures Index(c, x) == Index(d, y)
    ensures n == 8 || n == 16 ==> Upper(c, n + 8) == Upper(d, n + 8)
  {
    hide Remainder, Index, Shifted, Upper;
    var i, j := Index(c, x), Index(d, y);
    TopOfShifted(c, Remainder(i), d, Remainder(j), n);
    TopTells(i, j);
    if n == 8 || n == 16 {
      RestOfShifted(c, d, Remainder(i), n);
    }
  }

  lemma LastEntry(c: bv32, x: Byte, d: bv32, y: Byte)
    requires AddByte(c, x) == AddByte(d, y)
    ensures Index(c, x) == Index(d, y) && Upper(c, 8) == Upper(d, 8)
  {
    SameIndex(c, x, d, y);
    hide AddByte, Index;
  }

  /** Four bytes are determined by the registers around them. */
  lemma {:induction false} WordInjective(c: bv32, s: seq<Byte>, t: seq<Byte>)
    requires |s| == |t| == 4 && Register(c, s) == Register(c, t)
    ensures s == t
  {
    hide AddByte, Index, Register, Upper;
    RegisterOfFour(c, s);
    RegisterOfFour(c, t);
    var c1, d1 := AddByte(c, s[0]), AddByte(c, t[0]);
    var c2, d2 := AddByte(c1, s[1]), AddByte(d1, t[1]);
    var c3, d3 := AddByte(c2, s[2]), AddByte(d2, t[2]);
    LastEntry(c3, s[3], d3, t[3]);
    SameEntry(c2, s[2], d2, t[2], 8);
    SameEntry(c1, s[1], d1, t[1], 16);
    SameEntry(c, s[0], c, t[0], 24);
    IndexByte(c, s[0], t[0]);
    IndexByte(c1, s[1], t[1]);
    IndexByte(c2, s[2], t[2]);
    IndexByte(c3, s[3], t[3]);
  }

  /** The residue is left by nothing but the checksum. */
  lemma {:induction false} ResidueIff(data: seq<Byte>, check: seq<Byte>)
    requires |check| == 4
    ensures Crc32c(data + check) == 0x48674BC7 <==> check == CrcBytes(Crc32c(data))
  {
    hide AddByte, Register, CrcBytes, Inverse;
    Residue(data);
    var c, own := Register(0xFFFF_FFFF, data), CrcBytes(Crc32c(data));
    RegisterConcat(0xFFFF_FFFF, data, check);
    RegisterConcat(0xFFFF_FFFF, data, own);
    if Crc32c(data + check) == 0x48674BC7 {
      InverseInjective(Register(c, check), Register(c, own));
      WordInjective(c, check, own);
    }
  }
}
