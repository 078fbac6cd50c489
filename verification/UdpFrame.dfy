/** Datagrams of the UDP transport: the 32-byte header, fragmentation and parsing. */
module UdpFrame {
  import opened Arith
  import opened Crc32
  import opened Wire

  const HEADER_SIZE: nat := 32
  const MTU: nat := 1400

  datatype Header = Header(priority: Byte, transferID: nat, senderUID: nat, offset: nat, transferSize: nat,
                           prefixCRC: bv32)

  /** The fields fit the widths the sender gives them. */
  predicate Fits(h: Header) {
    && h.priority < 8
    && h.transferID < 0x1_0000_0000_0000
    && h.senderUID < 0x1_0000_0000_0000_0000
    && h.offset < 0x1_0000_0000
    && h.transferSize < 0x1_0000_0000
  }

  // ---------------------------------------------------------------- integers as bytes

  function LittleEndian(x: nat, n: nat): (s: seq<Byte>)
    ensures |s| == n
  {
    if n == 0 then [] else [(x % 256) as Byte] + LittleEndian(x / 256, n - 1)
  }

  function FromLittleEndian(s: seq<Byte>): nat {
    if s == [] then 0 else s[0] as nat + 256 * FromLittleEndian(s[1..])
  }

  function Power256(n: nat): nat { if n == 0 then 1 else 256 * Power256(n - 1) }

  lemma {:induction false} NextByte(b: bv8)
    requires b != 0xFF
    ensures (b + 1) as int == b as int + 1
  {
  }

  lemma {:induction false} ThereAndBack(b: bv8)
    ensures (b as int) as bv8 == b && (b as int == 255 ==> b == 0xFF)
  {
  }

  lemma {:induction false} ByteOf(x: nat) returns (b: bv8)
    requires x < 256
    ensures b as int == x
  {
    b := 0;
    if x > 0 {
      var a := ByteOf(x - 1);
      ThereAndBack(a);
      NextByte(a);
      b := a + 1;
    }
  }

  lemma {:induction false} ByteRoundTrip(x: nat)
    requires x < 256
    ensures (x as Byte) as nat == x
  {
    var b := ByteOf(x);
    ThereAndBack(b);
  }

  lemma {:induction false} LittleEndianRoundTrip(x: nat, n: nat)
    requires x < Power256(n)
    ensures FromLittleEndian(LittleEndian(x, n)) == x
  {
    if n > 0 {
      LittleEndianRoundTrip(x / 256, n - 1);
      assert LittleEndian(x, n)[1..] == LittleEndian(x / 256, n - 1);
      ByteRoundTrip(x % 256);
    }
  }

  function FromCrcBytes(s: seq<Byte>): bv32
    requires |s| == 4
  {
    (s[0] as bv32) | ((s[1] as bv32) << 8) | ((s[2] as bv32) << 16) | ((s[3] as bv32) << 24)
  }

  lemma {:induction false} CrcBytesRoundTrip(crc: bv32)
    ensures FromCrcBytes(CrcBytes(crc)) == crc
  {
  }

  // ---------------------------------------------------------------- serialization

  /** The part of the header that its checksum covers. */
  function Covered(h: Header): (s: seq<Byte>)
    ensures |s| == 28
  {
    [2 | (h.priority << 5), 0] + LittleEndian(h.transferID % 0x1_0000_0000_0000, 6) + LittleEndian(h.senderUID, 8)
    + LittleEndian(h.offset, 4) + LittleEndian(h.transferSize, 4) + CrcBytes(h.prefixCRC)
  }

  function Serialized(h: Header): (s: seq<Byte>)
    ensures |s| == HEADER_SIZE
  {
    Covered(h) + CrcBytes(Crc32c(Covered(h)))
  }

  /** Writes the n low bytes of x. */
  method Put(buf: array<Byte>, at: nat, x: nat, n: nat)
    requires at + n <= buf.Length
    modifies buf
    ensures buf[..at + n] == old(buf[..at]) + LittleEndian(x, n) && buf[at + n..] == old(buf[at + n..])
  {
    var i, rest := 0, x;
    while i < n
      invariant 0 <= i <= n
      invariant buf[at..at + i] + LittleEndian(rest, n - i) == LittleEndian(x, n)
      invariant buf[..at] == old(buf[..at]) && buf[at + n..] == old(buf[at + n..])
    {
      ghost var was := buf[at..at + i];
      buf[at + i] := (rest % 256) as Byte;
      assert LittleEndian(rest, n - i) == [buf[at + i]] + LittleEndian(rest / 256, n - i - 1);
      assert buf[at..at + i + 1] == was + [buf[at + i]];
      rest := rest / 256;
      i := i + 1;
    }
    assert buf[..at + n] == buf[..at] + buf[at..at + n];
  }

  method PutCrc(buf: array<Byte>, at: nat, crc: bv32)
    requires at + 4 <= buf.Length
    modifies buf
    ensures buf[..at + 4] == old(buf[..at]) + CrcBytes(crc) && buf[at + 4..] == old(buf[at + 4..])
  {
    var s := CrcBytes(crc);
    buf[at], buf[at + 1], buf[at + 2], buf[at + 3] := s[0], s[1], s[2], s[3];
  }

  lemma {:induction false} HighBytesAreZero(x: nat)
    requires x < 0x1_0000_0000_0000
    ensures LittleEndian(x, 8)[..6] == LittleEndian(x, 6)
  {
    PrefixOfLittleEndian(x, 8, 6);
  }

  lemma {:induction false} PrefixOfLittleEndian(x: nat, n: nat, m: nat)
    requires m <= n
    ensures LittleEndian(x, n)[..m] == LittleEndian(x, m)
  {
    if m > 0 {
      PrefixOfLittleEndian(x / 256, n - 1, m - 1);
    }
  }

  /** The eight bytes of the transfer number run into the sender's field, which is written after them. */
  method SerializeHeader(buf: array<Byte>, h: Header)
    requires buf.Length == HEADER_SIZE
    modifies buf
    ensures buf[..] == Serialized(h)
  {
    hide LittleEndian, CrcBytes, Crc32c;
    var tid := h.transferID % 0x1_0000_0000_0000;
    buf[0] := 2 | (h.priority << 5);
    buf[1] := 0;
    assert buf[..2] == [2 | (h.priority << 5), 0];
    Put(buf, 2, tid, 8);
    HighBytesAreZero(tid);
    assert buf[..8] == buf[..10][..8] == [2 | (h.priority << 5), 0] + LittleEndian(tid, 6);
    Put(buf, 8, h.senderUID, 8);
    Put(buf, 16, h.offset, 4);
    Put(buf, 20, h.transferSize, 4);
    PutCrc(buf, 24, h.prefixCRC);
    assert buf[..28] == Covered(h);
    var crc := Compute(buf[..28]);
    hide Covered;
    PutCrc(buf, 28, crc);
    assert buf[..] == buf[..32];
  }

  // ---------------------------------------------------------------- parsing

  datatype Frame = Frame(header: Header, payload: seq<Byte>)

  function HeaderOf(data: seq<Byte>): Header
    requires |data| >= HEADER_SIZE
  {
    Header((data[0] >> 5) & 7, FromLittleEndian(data[2..10]) % 0x1_0000_0000_0000, FromLittleEndian(data[8..16]),
           FromLittleEndian(data[16..20]), FromLittleEndian(data[20..24]), FromCrcBytes(data[24..28]))
  }

  function Deserialize(data: seq<Byte>): Option<Frame> {
    if |data| < HEADER_SIZE then None
    else if Crc32c(data[..HEADER_SIZE]) != 0x48674BC7 then None
    else if data[0] & 0x1F != 2 then None
    else if data[1] >> 5 != 0 then None
    else
      var h, payload := HeaderOf(data), data[HEADER_SIZE..];
      if h.offset + |payload| > h.transferSize then None
      else if h.offset == 0 && Crc32c(payload) != h.prefixCRC then None
      else Some(Frame(h, payload))
  }

  lemma {:induction false} HeadByte(priority: bv8)
    requires priority < 8
    ensures ((2 | (priority << 5)) >> 5) & 7 == priority && (2 | (priority << 5)) & 0x1F == 2
  {
  }

  lemma {:induction false} FieldsOf(h: Header, payload: seq<Byte>)
    ensures var d := Serialized(h) + payload;
            && d[0] == 2 | (h.priority << 5) && d[1] == 0
            && d[2..8] == LittleEndian(h.transferID % 0x1_0000_0000_0000, 6)
            && d[8..16] == LittleEndian(h.senderUID, 8)
            && d[16..20] == LittleEndian(h.offset, 4) && d[20..24] == LittleEndian(h.transferSize, 4)
            && d[24..28] == CrcBytes(h.prefixCRC) && d[..HEADER_SIZE] == Serialized(h) && d[HEADER_SIZE..] == payload
  {
    hide LittleEndian, CrcBytes, Crc32c;
  }

  /** The two bytes after the transfer number do not reach its 48 bits. */
  lemma {:induction false} LowSixBytes(s: seq<Byte>)
    requires |s| == 8
    ensures FromLittleEndian(s) % 0x1_0000_0000_0000 == FromLittleEndian(s[..6])
  {
    SplitLittleEndian(s, 6);
    BelowPower(s[..6]);
    assert Power256(6) == 0x1_0000_0000_0000;
    DivUnique(FromLittleEndian(s), Power256(6), FromLittleEndian(s[6..]), FromLittleEndian(s[..6]));
  }

  lemma {:induction false} Distribute(a: nat, b: nat, p: nat)
    ensures 256 * (a + b * p) == 256 * a + b * (256 * p)
  {
  }

  lemma {:induction false} SplitLittleEndian(s: seq<Byte>, k: nat)
    requires k <= |s|
    ensures FromLittleEndian(s) == FromLittleEndian(s[..k]) + FromLittleEndian(s[k..]) * Power256(k)
  {
    if k > 0 {
      SplitLittleEndian(s[1..], k - 1);
      assert s[..k][1..] == s[1..][..k - 1] && s[1..][k - 1..] == s[k..];
      var a, b, p := FromLittleEndian(s[1..][..k - 1]), FromLittleEndian(s[k..]), Power256(k - 1);
      Distribute(a, b, p);
    } else {
      assert s[0..] == s;
    }
  }

  lemma {:induction false} BelowPower(s: seq<Byte>)
    ensures FromLittleEndian(s) < Power256(|s|)
  {
    if s != [] {
      BelowPower(s[1..]);
    }
  }

  lemma {:induction false} Powers()
    ensures Power256(4) == 0x1_0000_0000 && Power256(6) == 0x1_0000_0000_0000 && Power256(8) == 0x1_0000_0000_0000_0000
  {
    assert Power256(3) == 0x100_0000;
    assert Power256(5) == 0x100_0000_0000;
    assert Power256(7) == 0x100_0000_0000_0000;
  }

  lemma {:induction false} HeaderRoundTrip(h: Header, payload: seq<Byte>)
    requires Fits(h)
    ensures HeaderOf(Serialized(h) + payload) == h
  {
    hide LittleEndian, FromLittleEndian, CrcBytes, FromCrcBytes, Serialized, Power256;
    var d := Serialized(h) + payload;
    FieldsOf(h, payload);
    HeadByte(h.priority);
    Powers();
    DivSmall(h.transferID, 0x1_0000_0000_0000);
    LittleEndianRoundTrip(h.transferID, 6);
    LowSixBytes(d[2..10]);
    assert d[2..10][..6] == d[2..8];
    LittleEndianRoundTrip(h.senderUID, 8);
    LittleEndianRoundTrip(h.offset, 4);
    LittleEndianRoundTrip(h.transferSize, 4);
    CrcBytesRoundTrip(h.prefixCRC);
  }

  lemma {:induction false} TopBitsClear(b: bv8)
    ensures b == 0 ==> b >> 5 == 0
  {
  }

  /** Behind an intact header a payload is refused only at offset 0, and only by its checksum. */
  lemma {:induction false} PayloadCheck(h: Header, payload: seq<Byte>)
    requires Fits(h) && h.offset + |payload| <= h.transferSize
    ensures Deserialize(Serialized(h) + payload)
            == if h.offset == 0 && Crc32c(payload) != h.prefixCRC then None else Some(Frame(h, payload))
  {
    var d := Serialized(h) + payload;
    FieldsOf(h, payload);
    HeaderRoundTrip(h, payload);
    Residue(Covered(h));
    HeadByte(h.priority);
    TopBitsClear(d[1]);
    assert Crc32c(Serialized(h)) == 0x48674BC7;
    hide Serialized, HeaderOf, LittleEndian, CrcBytes, Crc32c, Covered;
  }

  /** A frame the sender makes is read back exactly. */
  lemma {:induction false} FrameRoundTrip(h: Header, payload: seq<Byte>)
    requires Fits(h) && h.offset + |payload| <= h.transferSize
    requires h.offset == 0 ==> h.prefixCRC == Crc32c(payload)
    ensures Deserialize(Serialized(h) + payload) == Some(Frame(h, payload))
  {
    hide Deserialize, Serialized, Crc32c;
    PayloadCheck(h, payload);
  }

  // ---------------------------------------------------------------- what is read at all

  /** A header as other senders may make it: with any flags in the five bits that nobody looks at. */
  function Flagged(h: Header, flags: Byte): (s: seq<Byte>)
    ensures |s| == HEADER_SIZE && (flags == 0 ==> s == Serialized(h))
  {
    assert flags == 0 ==> Covered(h)[1 := flags] == Covered(h);
    Covered(h)[1 := flags] + CrcBytes(Crc32c(Covered(h)[1 := flags]))
  }

  lemma {:induction false} LowByte(x: nat, rest: nat)
    requires x < 256
    ensures (x + 256 * rest) % 256 == x && (x + 256 * rest) / 256 == rest
  {
  }

  lemma {:induction false} BytesRoundTrip(s: seq<Byte>)
    ensures LittleEndian(FromLittleEndian(s), |s|) == s
  {
    if s != [] {
      BytesRoundTrip(s[1..]);
      LowByte(s[0] as nat, FromLittleEndian(s[1..]));
      ThereAndBack(s[0]);
    }
  }

  lemma {:induction false} BytesOfCrc(a: bv8, b: bv8, c: bv8, d: bv8)
    ensures var x := (a as bv32) | ((b as bv32) << 8) | ((c as bv32) << 16) | ((d as bv32) << 24);
            && (x & 0xFF) as bv8 == a && ((x >> 8) & 0xFF) as bv8 == b
            && ((x >> 16) & 0xFF) as bv8 == c && ((x >> 24) & 0xFF) as bv8 == d
  {
  }

  lemma {:induction false} CrcOfBytes(s: seq<Byte>)
    requires |s| == 4
    ensures CrcBytes(FromCrcBytes(s)) == s
  {
    BytesOfCrc(s[0], s[1], s[2], s[3]);
  }

  lemma {:induction false} HeadOfByte(b: bv8)
    requires b & 0x1F == 2
    ensures 2 | (((b >> 5) & 7) << 5) == b && (b >> 5) & 7 < 8
  {
  }

  lemma {:induction false} FlagsFit(b: bv8)
    ensures b >> 5 == 0 <==> b < 32
  {
  }

  /** Every bit of the first 28 bytes is in a field, but for the flags. */
  lemma {:induction false} HeaderTells(data: seq<Byte>)
    requires |data| >= HEADER_SIZE && data[0] & 0x1F == 2
    ensures Fits(HeaderOf(data)) && data[..28] == Covered(HeaderOf(data))[1 := data[1]]
  {
    hide LittleEndian, FromLittleEndian, CrcBytes, FromCrcBytes, Power256;
    var h := HeaderOf(data);
    HeadOfByte(data[0]);
    Powers();
    LowSixBytes(data[2..10]);
    assert data[2..10][..6] == data[2..8];
    BelowPower(data[2..8]);
    BelowPower(data[8..16]);
    BelowPower(data[16..20]);
    BelowPower(data[20..24]);
    BytesRoundTrip(data[2..8]);
    BytesRoundTrip(data[8..16]);
    BytesRoundTrip(data[16..20]);
    BytesRoundTrip(data[20..24]);
    CrcOfBytes(data[24..28]);
    DivSmall(h.transferID, 0x1_0000_0000_0000);
    JoinFields(data);
  }

  lemma {:induction false} JoinFields(data: seq<Byte>)
    requires |data| >= HEADER_SIZE
    ensures data[..28] == ([data[0], 0] + data[2..8] + data[8..16] + data[16..20] + data[20..24] + data[24..28])
                          [1 := data[1]]
  {
  }

  lemma {:induction false} HeaderIgnoresFlags(h: Header, flags: Byte, payload: seq<Byte>)
    requires Fits(h)
    ensures HeaderOf(Flagged(h, flags) + payload) == h
  {
    hide LittleEndian, FromLittleEndian, CrcBytes, FromCrcBytes, Covered;
    HeaderRoundTrip(h, payload);
    HeadByte(h.priority);
    FieldsOf(h, payload);
    var d, e := Flagged(h, flags) + payload, Serialized(h) + payload;
    assert d[0] == e[0] && d[2..10] == e[2..10] && d[8..16] == e[8..16] && d[16..20] == e[16..20]
           && d[20..24] == e[20..24] && d[24..28] == e[24..28];
  }

  /**
   * What is read: a header with its own checksum, of this version and without flags that ask for more, before a payload
   * that stays inside the transfer and, at its beginning, has the announced checksum. Nothing else is.
   */
  lemma {:induction false} ReadIff(data: seq<Byte>, h: Header, payload: seq<Byte>)
    ensures Deserialize(data) == Some(Frame(h, payload)) <==>
            && |data| >= 32 && data[1] < 32 && Fits(h) && data == Flagged(h, data[1]) + payload
            && h.offset + |payload| <= h.transferSize && (h.offset == 0 ==> h.prefixCRC == Crc32c(payload))
  {
    if |data| >= 32 {
      hide Crc32c, CrcBytes, HeaderOf, LittleEndian;
      FlagsFit(data[1]);
      ResidueIff(data[..28], data[28..32]);
      assert data[..32] == data[..28] + data[28..32] && data == data[..32] + data[32..];
      if Deserialize(data) == Some(Frame(h, payload)) {
        HeaderTells(data);
        assert data == Flagged(h, data[1]) + payload;
      }
      if data[1] < 32 && Fits(h) && data == Flagged(h, data[1]) + payload {
        FlaggedPasses(data, h, payload);
      }
    }
  }

  lemma {:induction false} FlaggedPasses(data: seq<Byte>, h: Header, payload: seq<Byte>)
    requires |data| >= 32 && data[1] < 32 && Fits(h) && data == Flagged(h, data[1]) + payload
    ensures HeaderOf(data) == h && data[32..] == payload && data[0] & 0x1F == 2
    ensures data[28..32] == CrcBytes(Crc32c(data[..28]))
  {
    hide Crc32c, CrcBytes, HeaderOf, LittleEndian;
    HeaderIgnoresFlags(h, data[1], payload);
    HeadByte(h.priority);
    assert data[..28] == Covered(h)[1 := data[1]];
    assert data[0] == Covered(h)[0] == 2 | (h.priority << 5);
  }

  /** With its payload changed, a frame is refused exactly if it is the first one and the checksum tells. */
  lemma {:induction false} CorruptionRefused(h: Header, payload: seq<Byte>, wrong: seq<Byte>)
    requires Fits(h) && h.offset + |payload| <= h.transferSize && |wrong| == |payload|
    requires h.offset == 0 ==> h.prefixCRC == Crc32c(payload)
    ensures Deserialize(Serialized(h) + wrong) == None <==> h.offset == 0 && Crc32c(wrong) != Crc32c(payload)
    ensures Deserialize(Serialized(h) + wrong) != None ==> Deserialize(Serialized(h) + wrong) == Some(Frame(h, wrong))
  {
    hide Deserialize, Serialized, Crc32c;
    PayloadCheck(h, wrong);
  }

  /** A datagram with a wrong byte in its header is not read. */
  lemma {:induction false} HeaderByteRefused(h: Header, payload: seq<Byte>, at: nat, b: Byte)
    requires at < HEADER_SIZE && b != (Serialized(h) + payload)[at]
    ensures Deserialize((Serialized(h) + payload)[at := b]) == None
  {
    hide HeaderOf, Covered, CrcBytes, Crc32c;
    var d := (Serialized(h) + payload)[at := b];
    Residue(Covered(h));
    ByteDetected(Serialized(h), at, b);
    assert d[..HEADER_SIZE] == Serialized(h)[at := b];
  }

  /** One wrong byte in a datagram is noticed exactly if it is in the header or the datagram is the first one. */
  lemma {:induction false} ByteRefusedIff(h: Header, payload: seq<Byte>, at: nat, b: Byte)
    requires Fits(h) && h.offset + |payload| <= h.transferSize
    requires h.offset == 0 ==> h.prefixCRC == Crc32c(payload)
    requires at < HEADER_SIZE + |payload| && b != (Serialized(h) + payload)[at]
    ensures Deserialize((Serialized(h) + payload)[at := b]) == None <==> at < HEADER_SIZE || h.offset == 0
  {
    hide Deserialize, Serialized, Crc32c;
    if at < HEADER_SIZE {
      HeaderByteRefused(h, payload, at, b);
    } else {
      var wrong := payload[at - HEADER_SIZE := b];
      assert (Serialized(h) + payload)[at := b] == Serialized(h) + wrong;
      CorruptionRefused(h, payload, wrong);
      ByteDetected(payload, at - HEADER_SIZE, b);
    }
  }
}
