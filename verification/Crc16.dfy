/** The transfer CRC of Cyphal/CAN: CRC-16/CCITT-FALSE, polynomial 0x1021, table driven. */
module Crc16 {
  import opened Wire

  const CRC_INITIAL: bv16 := 0xFFFF
  const CRC_RESIDUE: bv16 := 0
  const CRC_BYTES := 2

  function High(crc: bv16): Byte { (crc >> 8) as Byte }
  function Low(crc: bv16): Byte { (crc & 0xFF) as Byte }

  /** One step of the polynomial division: the definition the table is measured against. */
  function Divide(c: bv16): bv16 {
    if c & 0x8000 != 0 then (c << 1) ^ 0x1021 else c << 1
  }

  lemma DivideCases(c: bv16)
    ensures c & 0x8000 != 0 ==> Divide(c) == (c << 1) ^ 0x1021
    ensures c & 0x8000 == 0 ==> Divide(c) == c << 1
  {
  }

  /** The remainder register after n division steps. */
  function DivideBits(c: bv16, n: nat): bv16 {
    if n == 0 then c else Divide(DivideBits(c, n - 1))
  }

  function DivideByte(c: bv16): bv16 {
    var half := Divide(Divide(Divide(Divide(c))));
    Divide(Divide(Divide(Divide(half))))
  }

  lemma DivideByteIsEightSteps(c: bv16)
    ensures DivideBits(c, 8) == DivideByte(c)
  {
    hide Divide;
    assert DivideBits(c, 1) == Divide(c) by { assert DivideBits(c, 0) == c; }
    assert DivideBits(c, 3) == Divide(Divide(DivideBits(c, 1)));
    assert DivideBits(c, 5) == Divide(Divide(DivideBits(c, 3)));
    assert DivideBits(c, 7) == Divide(Divide(DivideBits(c, 5)));
  }

  /** The entry of the lookup table for the given index. */
  function Table(i: Byte): bv16 { DivideByte((i as bv16) << 8) }

  /** The table as the package initializer builds it: eight division steps for every index. */
  method BuildTable() returns (table: seq<bv16>)
    ensures |table| == 256
    ensures forall i: nat :: i < 256 ==> table[i] == Table(i as Byte)
  {
    table := [];
    for i := 0 to 256
      invariant |table| == i
      invariant forall j: nat :: j < i ==> table[j] == Table(j as Byte)
    {
      var entry := BuildEntry(i as Byte);
      table := table + [entry];
    }
  }

  /** The inner loop of the initializer. */
  method BuildEntry(i: Byte) returns (c: bv16)
    ensures c == Table(i)
  {
    hide Divide, DivideByte;
    c := (i as bv16) << 8;
    ghost var start := c;
    for k := 0 to 8
      invariant c == DivideBits(start, k)
    {
      DivideCases(c);
      if c & 0x8000 != 0 {
        c := (c << 1) ^ 0x1021;
      } else {
        c := c << 1;
      }
    }
    DivideByteIsEightSteps(start);
  }

  /** The table index a step uses, and how the entry enters the register. */
  function Index(crc: bv16, b: Byte): Byte { High(crc) ^ b }
  function Mix(crc: bv16, entry: bv16): bv16 { (crc << 8) ^ entry }

  function AddByte(crc: bv16, b: Byte): bv16 { Mix(crc, Table(Index(crc, b))) }

  function Add(crc: bv16, data: seq<Byte>): bv16
    decreases |data|
  {
    if data == [] then crc else Add(AddByte(crc, data[0]), data[1..])
  }

  method AddLoop(crc: bv16, data: seq<Byte>) returns (out: bv16)
    ensures out == Add(crc, data)
  {
    hide AddByte;
    out := crc;
    for i := 0 to |data|
      invariant Add(out, data[i..]) == Add(crc, data)
    {
      out := AddByte(out, data[i]);
    }
  }

  lemma {:induction false} AddConcat(crc: bv16, a: seq<Byte>, b: seq<Byte>)
    ensures Add(crc, a + b) == Add(Add(crc, a), b)
    decreases |a|
  {
    hide AddByte;
    if a == [] {
      assert a + b == b;
    } else {
      AddConcat(AddByte(crc, a[0]), a[1..], b);
      assert (a + b)[1..] == a[1..] + b;
    }
  }

  lemma AddTwo(crc: bv16, a: Byte, b: Byte)
    ensures Add(crc, [a, b]) == AddByte(AddByte(crc, a), b)
  {
    hide AddByte;
    assert [a, b][1..] == [b];
    assert [b][1..] == [];
    assert Add(AddByte(crc, a), [b]) == Add(AddByte(AddByte(crc, a), b), []);
  }

  // ---------------------------------------------------------------- eight division steps in closed form

  /** The table entries in closed form. */
  function Entry(i: Byte): bv16 {
    var x := (i ^ (i >> 4)) as bv16;
    (x << 12) ^ (x << 5) ^ x
  }

  lemma TableIsEntry(i: Byte)
    ensures Table(i) == Entry(i)
  {
  }

  // ---------------------------------------------------------------- the residue

  lemma IndexOfHigh(crc: bv16)
    ensures Index(crc, High(crc)) == 0
  {
  }

  lemma MixZero(crc: bv16)
    ensures Index(Mix(crc, 0), Low(crc)) == 0
    ensures Mix(Mix(crc, 0), 0) == 0
  {
  }

  lemma TableZero()
    ensures Table(0) == 0
  {
    TableIsEntry(0);
  }

  lemma ResidueStep(crc: bv16)
    ensures AddByte(AddByte(crc, High(crc)), Low(crc)) == CRC_RESIDUE
  {
    hide Mix, Index, Table, High, Low;
    IndexOfHigh(crc);
    MixZero(crc);
    TableZero();
  }

  /** A stream followed by its own big-endian CRC always leaves the residue. */
  lemma Residue(seed: bv16, data: seq<Byte>)
    ensures Add(seed, data + [High(Add(seed, data)), Low(Add(seed, data))]) == CRC_RESIDUE
  {
    hide AddByte, High, Low;
    var c := Add(seed, data);
    AddConcat(seed, data, [High(c), Low(c)]);
    AddTwo(c, High(c), Low(c));
    ResidueStep(c);
  }

  // ---------------------------------------------------------------- error detection

  /** Recovers a table index from the low byte of its entry. */
  function IndexFrom(low: Byte): Byte {
    var x := low ^ (low << 5);
    x ^ (x >> 4)
  }

  lemma IndexFromEntry(i: Byte)
    ensures IndexFrom(Low(Entry(i))) == i
  {
  }

  lemma LowOfMix(crc: bv16, entry: bv16)
    ensures Low(Mix(crc, entry)) == Low(entry)
  {
  }

  /** The low byte of the register after a step identifies the table entry that was used. */
  lemma StepRevealsIndex(crc: bv16, b: Byte)
    ensures IndexFrom(Low(AddByte(crc, b))) == Index(crc, b)
  {
    hide Mix, Index, Table, Low, IndexFrom, Entry;
    var i := Index(crc, b);
    TableIsEntry(i);
    LowOfMix(crc, Table(i));
    IndexFromEntry(i);
  }

  lemma IndexInjective(c1: bv16, b1: Byte, c2: bv16, b2: Byte)
    requires Index(c1, b1) == Index(c2, b2)
    ensures b1 == b2 ==> High(c1) == High(c2)
    ensures High(c1) == High(c2) ==> b1 == b2
  {
  }

  lemma MixInjective(a: bv16, b: bv16, entry: bv16)
    requires Mix(a, entry) == Mix(b, entry)
    ensures Low(a) == Low(b)
    ensures High(a) == High(b) ==> a == b
  {
  }

  /** For a fixed byte the step is injective in the register: a difference is never forgotten. */
  lemma AddByteInjectiveInCrc(c1: bv16, c2: bv16, b: Byte)
    requires AddByte(c1, b) == AddByte(c2, b)
    ensures c1 == c2
  {
    hide Mix, Index, Table, Low, High, IndexFrom;
    StepRevealsIndex(c1, b);
    StepRevealsIndex(c2, b);
    IndexInjective(c1, b, c2, b);
    MixInjective(c1, c2, Table(Index(c1, b)));
  }

  lemma {:induction false} AddInjectiveInCrc(c1: bv16, c2: bv16, data: seq<Byte>)
    requires Add(c1, data) == Add(c2, data)
    ensures c1 == c2
    decreases |data|
  {
    hide AddByte;
    if data != [] {
      AddInjectiveInCrc(AddByte(c1, data[0]), AddByte(c2, data[0]), data[1..]);
      AddByteInjectiveInCrc(c1, c2, data[0]);
    }
  }

  /** Two consecutive bytes are determined by the registers around them. */
  lemma PairInjective(c: bv16, a1: Byte, b1: Byte, a2: Byte, b2: Byte)
    requires AddByte(AddByte(c, a1), b1) == AddByte(AddByte(c, a2), b2)
    ensures a1 == a2 && b1 == b2
  {
    hide Mix, Index, Table, Low, High, IndexFrom;
    var r1, r2 := AddByte(c, a1), AddByte(c, a2);
    StepRevealsIndex(r1, b1);
    StepRevealsIndex(r2, b2);
    MixInjective(r1, r2, Table(Index(r1, b1)));
    StepRevealsIndex(c, a1);
    StepRevealsIndex(c, a2);
    IndexInjective(c, a1, c, a2);
    IndexInjective(r1, b1, r2, b2);
  }

  /** a and b agree everywhere except possibly in the two bytes at k and k + 1. */
  ghost predicate DifferOnlyInPair(a: seq<Byte>, b: seq<Byte>, k: nat)
  {
    && |a| == |b| && k + 2 <= |a|
    && a[..k] == b[..k] && a[k + 2..] == b[k + 2..]
  }

  /** No error burst confined to two adjacent bytes leaves the CRC unchanged. */
  lemma BurstDetected(seed: bv16, a: seq<Byte>, b: seq<Byte>, k: nat)
    requires DifferOnlyInPair(a, b, k)
    requires Add(seed, a) == Add(seed, b)
    ensures a == b
  {
    hide AddByte, Add;
    var c := Add(seed, a[..k]);
    assert a == a[..k] + [a[k], a[k + 1]] + a[k + 2..];
    assert b == a[..k] + [b[k], b[k + 1]] + a[k + 2..];
    AddConcat(seed, a[..k] + [a[k], a[k + 1]], a[k + 2..]);
    AddConcat(seed, a[..k] + [b[k], b[k + 1]], a[k + 2..]);
    AddConcat(seed, a[..k], [a[k], a[k + 1]]);
    AddConcat(seed, a[..k], [b[k], b[k + 1]]);
    AddTwo(c, a[k], a[k + 1]);
    AddTwo(c, b[k], b[k + 1]);
    AddInjectiveInCrc(AddByte(AddByte(c, a[k]), a[k + 1]), AddByte(AddByte(c, b[k]), b[k + 1]), a[k + 2..]);
    PairInjective(c, a[k], a[k + 1], b[k], b[k + 1]);
  }

  // ---------------------------------------------------------------- linearity

  /** z is the difference of x and y, bit by bit. */
  predicate IsXor(z: bv16, x: bv16, y: bv16) { z == x ^ y }

  predicate IsByteXor(z: Byte, x: Byte, y: Byte) { z == x ^ y }

  // The pieces a step is made of, a byte each.

  function XorByte(a: Byte, b: Byte): Byte { a ^ b }

  function Pair(high: Byte, low: Byte): bv16 { ((high as bv16) << 8) | (low as bv16) }

  function Down3(x: Byte): Byte { x >> 3 }

  function Down4(x: Byte): Byte { x >> 4 }

  function Up4(x: Byte): Byte { x << 4 }

  function Up5(x: Byte): Byte { x << 5 }

  lemma ByteXorOfXors(x: Byte, y: Byte, z: Byte, p: Byte, q: Byte, r: Byte)
    requires IsByteXor(z, x, y) && IsByteXor(r, p, q)
    ensures IsByteXor(XorByte(z, r), XorByte(x, p), XorByte(y, q))
  {
  }

  lemma ShiftsOfXors(x: Byte, y: Byte, z: Byte)
    requires IsByteXor(z, x, y)
    ensures IsByteXor(Down3(z), Down3(x), Down3(y)) && IsByteXor(Down4(z), Down4(x), Down4(y))
    ensures IsByteXor(Up4(z), Up4(x), Up4(y)) && IsByteXor(Up5(z), Up5(x), Up5(y))
  {
  }

  lemma PairOfXors(x: Byte, y: Byte, z: Byte, p: Byte, q: Byte, r: Byte)
    requires IsByteXor(z, x, y) && IsByteXor(r, p, q)
    ensures IsXor(Pair(z, r), Pair(x, p), Pair(y, q))
  {
  }

  lemma HighOfXors(x: bv16, y: bv16, z: bv16)
    requires IsXor(z, x, y)
    ensures IsByteXor(High(z), High(x), High(y))
  {
  }

  lemma LowOfXors(x: bv16, y: bv16, z: bv16)
    requires IsXor(z, x, y)
    ensures IsByteXor(Low(z), Low(x), Low(y))
  {
  }

  lemma Halves(x: bv16, y: bv16)
    requires High(x) == High(y) && Low(x) == Low(y)
    ensures x == y
  {
  }

  lemma ByteDifference(c: Byte, x: Byte, d: Byte)
    requires IsByteXor(x, c, d)
    ensures x == XorByte(c, d) && d == XorByte(c, x)
  {
  }

  /** Equal differences from one register lead to equal registers, and the other way round. */
  lemma SameDifference(c: bv16, x: bv16, d: bv16, y: bv16, e: bv16)
    requires IsXor(x, c, d) && IsXor(y, c, e)
    ensures x == y <==> d == e
  {
    hide IsXor, IsByteXor, XorByte, High, Low;
    HighOfXors(c, d, x);
    HighOfXors(c, e, y);
    LowOfXors(c, d, x);
    LowOfXors(c, e, y);
    ByteDifference(High(c), High(x), High(d));
    ByteDifference(High(c), High(y), High(e));
    ByteDifference(Low(c), Low(x), Low(d));
    ByteDifference(Low(c), Low(y), Low(e));
    if High(x) == High(y) && Low(x) == Low(y) {
      Halves(x, y);
      Halves(d, e);
    }
  }

  lemma IndexIsXor(c: bv16, b: Byte)
    ensures Index(c, b) == XorByte(High(c), b)
  {
  }

  function Folded(i: Byte): Byte { XorByte(i, Down4(i)) }

  lemma FoldedOfXors(i: Byte, j: Byte, k: Byte)
    requires IsByteXor(k, i, j)
    ensures IsByteXor(Folded(k), Folded(i), Folded(j))
  {
    hide IsByteXor, XorByte, Down3, Down4, Up4, Up5;
    ShiftsOfXors(i, j, k);
    ByteXorOfXors(i, j, k, Down4(i), Down4(j), Down4(k));
  }

  function EntryOf(x: Byte): bv16 { Pair(XorByte(Up4(x), Down3(x)), XorByte(Up5(x), x)) }

  lemma EntryOfXors(x: Byte, y: Byte, z: Byte)
    requires IsByteXor(z, x, y)
    ensures IsXor(EntryOf(z), EntryOf(x), EntryOf(y))
  {
    hide IsXor, IsByteXor, XorByte, Pair, Down3, Down4, Up4, Up5;
    ShiftsOfXors(x, y, z);
    ByteXorOfXors(Up4(x), Up4(y), Up4(z), Down3(x), Down3(y), Down3(z));
    ByteXorOfXors(Up5(x), Up5(y), Up5(z), x, y, z);
    PairOfXors(XorByte(Up4(x), Down3(x)), XorByte(Up4(y), Down3(y)), XorByte(Up4(z), Down3(z)),
               XorByte(Up5(x), x), XorByte(Up5(y), y), XorByte(Up5(z), z));
  }

  lemma TableIsEntryOf(i: Byte)
    ensures Table(i) == EntryOf(Folded(i))
  {
    TableIsEntry(i);
    hide Table;
  }

  lemma TableOfXors(i: Byte, j: Byte, k: Byte)
    requires IsByteXor(k, i, j)
    ensures IsXor(Table(k), Table(i), Table(j))
  {
    hide IsXor, IsByteXor, Table, Folded, EntryOf;
    FoldedOfXors(i, j, k);
    EntryOfXors(Folded(i), Folded(j), Folded(k));
    TableIsEntryOf(i);
    TableIsEntryOf(j);
    TableIsEntryOf(k);
  }

  lemma MixOfXors(c: bv16, e: bv16, f: bv16, x: bv16, y: bv16, z: bv16)
    requires IsXor(f, c, e) && IsXor(z, x, y)
    ensures IsXor(Mix(f, z), Mix(c, x), Mix(e, y))
  {
  }

  /** A step is linear: differences go their own way. */
  lemma AddByteOfXors(c: bv16, e: bv16, f: bv16, b: Byte, d: Byte, g: Byte)
    requires IsXor(f, c, e) && IsByteXor(g, b, d)
    ensures IsXor(AddByte(f, g), AddByte(c, b), AddByte(e, d))
  {
    hide IsXor, IsByteXor, XorByte, Index, Mix, Table, High;
    HighOfXors(c, e, f);
    ByteXorOfXors(High(c), High(e), High(f), b, d, g);
    IndexIsXor(c, b);
    IndexIsXor(e, d);
    IndexIsXor(f, g);
    TableOfXors(Index(c, b), Index(e, d), Index(f, g));
    MixOfXors(c, e, f, Table(Index(c, b)), Table(Index(e, d)), Table(Index(f, g)));
  }

  function Zeros(n: nat): (z: seq<Byte>)
    ensures |z| == n
  {
    if n == 0 then [] else [0] + Zeros(n - 1)
  }

  lemma XorZero(b: Byte, c: bv16)
    ensures IsByteXor(b, b, 0) && IsByteXor(b, 0, b) && IsXor(c, c, 0)
  {
  }

  /** What a difference in the register becomes does not depend on the data. */
  lemma {:induction false} AddOfDifference(c: bv16, e: bv16, f: bv16, data: seq<Byte>)
    requires IsXor(f, c, e)
    ensures IsXor(Add(f, data), Add(c, data), Add(e, Zeros(|data|)))
    decreases |data|
  {
    hide AddByte, IsXor, IsByteXor;
    if data != [] {
      XorZero(data[0], c);
      AddByteOfXors(c, e, f, data[0], 0, data[0]);
      assert Zeros(|data|)[1..] == Zeros(|data| - 1);
      AddOfDifference(AddByte(c, data[0]), AddByte(e, 0), AddByte(f, data[0]), data[1..]);
    }
  }

  /** Nor does what a difference in the first byte becomes. */
  lemma {:induction false} AddOfFirstDifference(seed: bv16, a: seq<Byte>, b: seq<Byte>, d: Byte)
    requires |a| == |b| > 0 && a[1..] == b[1..] && IsByteXor(b[0], a[0], d)
    ensures IsXor(Add(seed, b), Add(seed, a), Add(0, [d] + Zeros(|a| - 1)))
  {
    hide AddByte, IsXor, IsByteXor;
    XorZero(d, seed);
    AddByteOfXors(seed, 0, seed, a[0], d, b[0]);
    var error := [d] + Zeros(|a| - 1);
    assert error[1..] == Zeros(|a| - 1);
    AddOfDifference(AddByte(seed, a[0]), AddByte(0, d), AddByte(seed, b[0]), a[1..]);
  }
}
