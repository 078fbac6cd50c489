/** The header of responses and their acknowledgements: the number of a response travels in six bytes. */
module ResponseHeader {
  import opened Arith
  import opened UdpFrame
  import opened Wire
  import R = ResponseAck

  const SIZE: nat := 24

  datatype Kind = BestEffort | Reliable | Positive | Negative

  datatype Fields = Fields(kind: Kind, tag: Byte, seqno: nat, hash: nat, messageTag: nat)
  {
    predicate Fits() { seqno < Power256(8) && hash < Power256(8) && messageTag < Power256(8) }
  }

  function Code(kind: Kind): Byte {
    match kind
    case BestEffort => 4
    case Reliable => 5
    case Positive => 6
    case Negative => 7
  }

  function Marshalled(f: Fields): (s: seq<Byte>)
    ensures |s| == SIZE
  {
    [Code(f.kind), f.tag] + LittleEndian(f.seqno, 6) + LittleEndian(f.hash, 8) + LittleEndian(f.messageTag, 8)
  }

  /** The eight bytes of the number run into the hash, which is written after them. */
  method Marshal(f: Fields) returns (buf: array<Byte>)
    ensures buf[..] == Marshalled(f)
  {
    hide LittleEndian, Code;
    buf := new Byte[SIZE];
    buf[0] := Code(f.kind);
    buf[1] := f.tag;
    assert buf[..2] == [Code(f.kind), f.tag];
    Put(buf, 2, f.seqno, 8);
    PrefixOfLittleEndian(f.seqno, 8, 6);
    assert buf[..8] == buf[..10][..8] == [Code(f.kind), f.tag] + LittleEndian(f.seqno, 6);
    buf[8] := 0;
    buf[9] := 0;
    Put(buf, 8, f.hash, 8);
    Put(buf, 16, f.messageTag, 8);
    assert buf[..] == buf[..24];
  }

  function Parse(data: seq<Byte>): (f: Option<Fields>)
    ensures f.Some? ==> f.value.seqno < R.SEQNO_MOD
  {
    if |data| < SIZE || data[0] < 4 || data[0] > 7 then None
    else
      SixBytes(data[2..8]);
      var kind := if data[0] == 4 then BestEffort else if data[0] == 5 then Reliable
                  else if data[0] == 6 then Positive else Negative;
      Some(Fields(kind, data[1], FromLittleEndian(data[2..8]), FromLittleEndian(data[8..16]),
                  FromLittleEndian(data[16..24])))
  }

  lemma SixBytes(s: seq<Byte>)
    requires |s| == 6
    ensures FromLittleEndian(s) < R.SEQNO_MOD
  {
    BelowPower(s);
    Powers();
    hide FromLittleEndian, Power256;
  }

  /** The low bytes of a number are its remainder. */
  lemma {:induction false} LowBytes(x: nat, n: nat)
    ensures Power256(n) > 0 && FromLittleEndian(LittleEndian(x, n)) == x % Power256(n)
  {
    if n > 0 {
      var y, p := x / 256, Power256(n - 1);
      LowBytes(y, n - 1);
      assert LittleEndian(x, n)[1..] == LittleEndian(y, n - 1);
      ByteRoundTrip(x % 256);
      SplitDivision(x, p);
    }
  }

  lemma SplitDivision(x: nat, p: nat)
    requires p > 0
    ensures x % 256 + 256 * (x / 256 % p) == x % (256 * p)
  {
    var y := x / 256;
    var q, r := y / p, y % p;
    assert y == q * p + r;
    Distribute(r, q, p);
    DivUnique(x, 256 * p, q, x % 256 + 256 * r);
  }

  /** What is sent is read back, but for the bits of the number beyond the 48th. */
  lemma {:induction false} HeaderRoundTrip(f: Fields, payload: seq<Byte>)
    requires f.Fits()
    ensures Parse(Marshalled(f) + payload) == Some(f.(seqno := f.seqno % R.SEQNO_MOD))
  {
    var d := Marshalled(f) + payload;
    FieldsAt(f, payload);
    Powers();
    LowBytes(f.seqno, 6);
    LittleEndianRoundTrip(f.hash, 8);
    LittleEndianRoundTrip(f.messageTag, 8);
    hide LittleEndian, FromLittleEndian, Power256, Marshalled;
  }

  lemma FieldsAt(f: Fields, payload: seq<Byte>)
    ensures var d := Marshalled(f) + payload;
            && d[0] == Code(f.kind) && d[1] == f.tag && d[2..8] == LittleEndian(f.seqno, 6)
            && d[8..16] == LittleEndian(f.hash, 8) && d[16..24] == LittleEndian(f.messageTag, 8)
  {
    hide LittleEndian, Code;
  }
}
