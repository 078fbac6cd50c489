/** Fragmentation of a transfer into CAN frames: the chains the two spoolers build. */
module CanSpool {
  import opened Wire
  import opened CanFrame
  import opened Arith
  import Crc16

  // ---------------------------------------------------------------- frame sizes

  /** The DLC tables, written as the step functions they tabulate. */
  function LenToDlc(len: nat): nat
    requires len <= 64
  {
    if len <= 8 then len else if len <= 12 then 9 else if len <= 16 then 10 else if len <= 20 then 11
    else if len <= 24 then 12 else if len <= 32 then 13 else if len <= 48 then 14 else 15
  }

  function DlcToLen(dlc: nat): nat
    requires dlc <= 15
  {
    if dlc <= 8 then dlc else if dlc <= 12 then 12 + 4 * (dlc - 9)
    else if dlc == 13 then 32 else if dlc == 14 then 48 else 64
  }

  function CeilFramePayloadSize(x: nat): nat {
    if x >= 65 then DlcToLen(LenToDlc(64)) else DlcToLen(LenToDlc(x))
  }

  /** The spoolers only ever round sizes that fit a classic frame, where every length has its own DLC. */
  lemma ClassicSizesAreExact(x: nat)
    ensures x <= MTU_CLASSIC ==> CeilFramePayloadSize(x) == x
    ensures x <= 64 ==> CeilFramePayloadSize(x) >= x
  {
  }

  function PredictFrameCount(size: nat, mtu: nat): nat
    requires mtu >= 2
  {
    var bytesPerFrame := mtu - 1;
    if size <= bytesPerFrame then 1 else (size + Crc16.CRC_BYTES + bytesPerFrame - 1) / bytesPerFrame
  }

  // ---------------------------------------------------------------- the chain, declaratively

  /** Cuts a stream into frames of at most cap data bytes: only the last may be shorter, the toggle alternates. */
  function Chunks(stream: seq<Byte>, cap: nat, first: bool, toggle: bool, tid: TransferId): (chain: seq<seq<Byte>>)
    requires cap >= 1
    ensures |chain| >= 1
    decreases |stream|
  {
    if |stream| <= cap then [stream + [MakeTail(first, true, toggle, tid)]]
    else [stream[..cap] + [MakeTail(first, false, toggle, tid)]] + Chunks(stream[cap..], cap, false, !toggle, tid)
  }

  /** Big-endian CRC after the payload. */
  function StreamV1(seed: bv16, payload: seq<Byte>): seq<Byte> {
    payload + [Crc16.High(Crc16.Add(seed, payload)), Crc16.Low(Crc16.Add(seed, payload))]
  }

  /** Little-endian CRC before the payload. */
  function StreamV0(seed: bv16, payload: seq<Byte>): seq<Byte> {
    [Crc16.Low(Crc16.Add(seed, payload)), Crc16.High(Crc16.Add(seed, payload))] + payload
  }

  function Stream(v1: bool, seed: bv16, payload: seq<Byte>): seq<Byte> {
    if v1 then StreamV1(seed, payload) else StreamV0(seed, payload)
  }

  /** The chain of a transfer. A payload that fits one frame travels without a CRC. */
  function Chain(v1: bool, seed: bv16, mtu: nat, tid: TransferId, payload: seq<Byte>): seq<seq<Byte>>
    requires mtu >= 2
  {
    if |payload| < mtu then [payload + [MakeTail(true, true, v1, tid)]]
    else Chunks(Stream(v1, seed, payload), mtu - 1, true, v1, tid)
  }

  // ---------------------------------------------------------------- the spoolers

  method Read(payload: seq<Byte>, pos: nat, n: nat, dst: array<Byte>)
    requires pos + n <= |payload| && n <= dst.Length
    modifies dst
    ensures dst[..n] == payload[pos..pos + n]
    ensures dst[n..] == old(dst[n..])
  {
    forall i | 0 <= i < n { dst[i] := payload[pos + i]; }
  }

  lemma CrcBytes(crc: bv16)
    ensures (crc >> 8) as Byte == ((crc >> 8) & 0xFF) as Byte == Crc16.High(crc)
    ensures (crc & 0xFF) as Byte == Crc16.Low(crc)
  {
  }

  lemma StreamByte(seed: bv16, payload: seq<Byte>, k: nat)
    requires k < |payload| + Crc16.CRC_BYTES
    ensures k < |payload| ==> StreamV1(seed, payload)[k] == payload[k]
    ensures k == |payload| ==> StreamV1(seed, payload)[k] == Crc16.High(Crc16.Add(seed, payload))
    ensures k == |payload| + 1 ==> StreamV1(seed, payload)[k] == Crc16.Low(Crc16.Add(seed, payload))
  {
    hide Crc16.Add, Crc16.High, Crc16.Low;
  }

  /** The payload part of a frame, with the running CRC brought up to date. */
  method FillPayload(payload: seq<Byte>, seed: bv16, start: nat, crcIn: bv16, buffer: array<Byte>)
    returns (moved: nat, crc: bv16)
    requires crcIn == Crc16.Add(seed, payload[..Min(start, |payload|)])
    modifies buffer
    ensures moved == Max(0, Min(|payload| - start, buffer.Length))
    ensures start < |payload| ==> buffer[..moved] == payload[start..start + moved]
    ensures crc == Crc16.Add(seed, payload[..Min(Max(start, start + moved), |payload|)])
  {
    hide Crc16.Add, Crc16.AddByte;
    moved, crc := 0, crcIn;
    if start < |payload| {
      moved := Min(|payload| - start, buffer.Length);
      Read(payload, start, moved, buffer);
      ghost var head, next := payload[..start], payload[start..start + moved];
      assert buffer[..moved] == next && crc == Crc16.Add(seed, head);
      crc := Crc16.AddLoop(crc, buffer[..moved]);
      Crc16.AddConcat(seed, head, next);
      assert head + next == payload[..start + moved];
      assert Min(Max(start, start + moved), |payload|) == start + moved;
    }
  }

  /** A whole transfer in one frame. */
  method FillSingle(payload: seq<Byte>, frameSize: nat, tail: Byte) returns (frame: seq<Byte>)
    requires frameSize == |payload| + 1
    ensures frame == payload + [tail]
  {
    var data := new Byte[frameSize];
    Read(payload, 0, |payload|, data);
    data[frameSize - 1] := tail;
    assert data[..] == data[..|payload|] + [data[|payload|]];
    return data[..];
  }

  /**
   * The CRC part of a frame, high byte first. The padding loop of the source has no room to run: at most the CRC is
   * left.
   */
  method FillCrc(size: nat, crc: bv16, offsetIn: nat, moved: nat, buffer: array<Byte>) returns (offset: nat)
    requires moved <= buffer.Length && size <= offsetIn && offsetIn + (buffer.Length - moved) <= size + Crc16.CRC_BYTES
    modifies buffer
    ensures offset == offsetIn + (buffer.Length - moved)
    ensures buffer[..moved] == old(buffer[..moved])
    ensures forall k :: moved <= k < buffer.Length ==>
                          buffer[k] == if offsetIn + k - moved == size then Crc16.High(crc) else Crc16.Low(crc)
  {
    CrcBytes(crc);
    offset := offsetIn;
    var frameOffset := moved;
    if frameOffset < buffer.Length && offset == size {
      buffer[frameOffset] := (crc >> 8) as Byte;
      frameOffset := frameOffset + 1;
      offset := offset + 1;
    }
    if frameOffset < buffer.Length && offset > size {
      buffer[frameOffset] := (crc & 0xFF) as Byte;
      frameOffset := frameOffset + 1;
      offset := offset + 1;
    }
  }

  /** Payload bytes and then CRC bytes are a piece of the stream. */
  lemma {:induction false} FrameIsSlice(payload: seq<Byte>, seed: bv16, start: nat, moved: nat, data: seq<Byte>)
    requires moved <= |data| && start + |data| <= |payload| + Crc16.CRC_BYTES
    requires forall k :: 0 <= k < moved ==> start + k < |payload| && data[k] == payload[start + k]
    requires var crc := Crc16.Add(seed, payload);
             forall k :: moved <= k < |data| ==>
                           && start + k >= |payload|
                           && data[k] == if start + k == |payload| then Crc16.High(crc) else Crc16.Low(crc)
    ensures start + |data| <= |StreamV1(seed, payload)|
    ensures data == StreamV1(seed, payload)[start..start + |data|]
  {
    hide Crc16.Add, Crc16.High, Crc16.Low, StreamV1;
    StreamLength(seed, payload);
    var piece := StreamV1(seed, payload)[start..start + |data|];
    forall k | 0 <= k < |data| ensures data[k] == piece[k] {
      StreamByte(seed, payload, start + k);
    }
  }

  /** One frame of a multi-frame v1 transfer; returns the stream position and the running CRC after it. */
  method FillFrame(payload: seq<Byte>, seed: bv16, start: nat, crcIn: bv16, frameSize: nat)
    returns (data: seq<Byte>, offset: nat, crc: bv16)
    requires start < |payload| + Crc16.CRC_BYTES
    requires 0 < frameSize <= |payload| + Crc16.CRC_BYTES - start
    requires crcIn == Crc16.Add(seed, payload[..Min(start, |payload|)])
    ensures offset == start + frameSize <= |StreamV1(seed, payload)|
    ensures data == StreamV1(seed, payload)[start..offset]
    ensures crc == Crc16.Add(seed, payload[..Min(offset, |payload|)])
  {
    hide Crc16.Add, Crc16.High, Crc16.Low, StreamV1;
    var size := |payload|;
    var buffer := new Byte[frameSize];
    var moved;
    moved, crc := FillPayload(payload, seed, start, crcIn, buffer);
    offset := start + moved;
    ghost var head := buffer[..moved];
    if offset >= size {
      assert payload[..size] == payload;
      offset := FillCrc(size, crc, offset, moved, buffer);
    }
    data := buffer[..];
    assert data[..moved] == head;
    FrameIsSlice(payload, seed, start, moved, data);
  }

  lemma StreamLength(seed: bv16, payload: seq<Byte>)
    ensures |StreamV1(seed, payload)| == |payload| + Crc16.CRC_BYTES
  {
  }

  /** Taking the next frame off the stream that is still to be cut. */
  lemma ChunkStep(
      done: seq<seq<Byte>>, rest: seq<Byte>, cap: nat, toggle: bool, tid: TransferId, target: seq<seq<Byte>>)
    requires cap >= 1
    requires done + Chunks(rest, cap, done == [], toggle, tid) == target
    ensures |rest| <= cap ==> done + [rest + [MakeTail(done == [], true, toggle, tid)]] == target
    ensures |rest| > cap ==>
      done + [rest[..cap] + [MakeTail(done == [], false, toggle, tid)]] + Chunks(rest[cap..], cap, false, !toggle, tid)
        == target
  {
    hide MakeTail;
    if |rest| > cap {
      var frame := rest[..cap] + [MakeTail(done == [], false, toggle, tid)];
      assert done + ([frame] + Chunks(rest[cap..], cap, false, !toggle, tid))
        == done + [frame] + Chunks(rest[cap..], cap, false, !toggle, tid);
    }
  }

  /** The v1 spooler. */
  method Spool(seed: bv16, mtu: nat, tid: TransferId, payload: seq<Byte>) returns (chain: seq<seq<Byte>>)
    requires mtu == MTU_CLASSIC || mtu == MTU_FD
    ensures chain == Chain(true, seed, mtu, tid, payload)
  {
    hide Crc16.Add, MakeTail, Chunks;
    var toggle := true;
    var size := |payload|;
    if size < mtu {
      var frameSize := if mtu == MTU_CLASSIC then CeilFramePayloadSize(size + 1) else size + 1;
      ClassicSizesAreExact(size + 1);
      var frame := FillSingle(payload, frameSize, MakeTail(true, true, toggle, tid));
      return [frame];
    }
    var sizeWithCrc := size + Crc16.CRC_BYTES;
    var offset := 0;
    var crc := seed;
    chain := [];
    assert payload[..0] == [];
    assert crc == Crc16.Add(seed, payload[..0]) by { EmptyCrc(seed); }
    ghost var stream := StreamV1(seed, payload);
    assert stream[0..] == stream;
    while offset < sizeWithCrc
      invariant offset <= sizeWithCrc == |stream|
      invariant crc == Crc16.Add(seed, payload[..Min(offset, size)])
      invariant chain == [] <==> offset == 0
      invariant offset < sizeWithCrc ==>
        chain + Chunks(stream[offset..], mtu - 1, chain == [], toggle, tid) == Chain(true, seed, mtu, tid, payload)
      invariant offset == sizeWithCrc ==> chain == Chain(true, seed, mtu, tid, payload)
    {
      var frameSizeWithTail := mtu;
      if sizeWithCrc - offset < mtu - 1 {
        ClassicSizesAreExact(sizeWithCrc - offset + 1);
        frameSizeWithTail :=
          if mtu == MTU_CLASSIC then CeilFramePayloadSize(sizeWithCrc - offset + 1) else sizeWithCrc - offset + 1;
      }
      ghost var rest, from := stream[offset..], offset;
      var data;
      data, offset, crc := FillFrame(payload, seed, offset, crc, frameSizeWithTail - 1);
      var frame := data + [MakeTail(chain == [], offset >= sizeWithCrc, toggle, tid)];
      ChunkStep(chain, rest, mtu - 1, toggle, tid, Chain(true, seed, mtu, tid, payload));
      assert data == stream[from..offset] == rest[..frameSizeWithTail - 1];
      assert offset < sizeWithCrc ==> stream[offset..] == rest[mtu - 1..];
      assert offset == sizeWithCrc ==> data == rest;
      chain := chain + [frame];
      toggle := !toggle;
    }
  }

  lemma EmptyCrc(seed: bv16)
    ensures Crc16.Add(seed, []) == seed
  {
  }

  /** The legacy spooler: always classic frames, the CRC goes first. */
  method SpoolV0(seed: bv16, tid: TransferId, payload: seq<Byte>) returns (chain: seq<seq<Byte>>)
    ensures chain == Chain(false, seed, MTU_CLASSIC, tid, payload)
  {
    hide Crc16.Add, MakeTail, Chunks;
    var toggle := false;
    var size := |payload|;
    if size < MTU_CLASSIC {
      var frame := FillSingle(payload, size + 1, MakeTail(true, true, toggle, tid));
      return [frame];
    }
    var crc := Crc16.AddLoop(seed, payload);
    var sizeTotal := size + Crc16.CRC_BYTES;
    var full := [(crc & 0xFF) as Byte, ((crc >> 8) & 0xFF) as Byte] + payload;
    CrcBytes(crc);
    assert full == StreamV0(seed, payload);
    chain := [];
    var offset := 0;
    assert full[0..] == full;
    while offset < sizeTotal
      invariant offset <= sizeTotal == |full|
      invariant chain == [] <==> offset == 0
      invariant offset < sizeTotal ==>
        chain + Chunks(full[offset..], MTU_CLASSIC - 1, chain == [], toggle, tid)
          == Chain(false, seed, MTU_CLASSIC, tid, payload)
      invariant offset == sizeTotal ==> chain == Chain(false, seed, MTU_CLASSIC, tid, payload)
    {
      var frameDataSize := Min(sizeTotal - offset + 1, MTU_CLASSIC);
      var item := new Byte[frameDataSize];
      var progress := Min(sizeTotal - offset, DlcToLen(LenToDlc(frameDataSize)) - 1);
      ghost var rest := full[offset..];
      Read(full, offset, progress, item);
      offset := offset + progress;
      item[progress] := MakeTail(chain == [], offset == sizeTotal, toggle, tid);
      ChunkStep(chain, rest, MTU_CLASSIC - 1, toggle, tid, Chain(false, seed, MTU_CLASSIC, tid, payload));
      assert item[..] == item[..progress] + [item[progress]];
      assert offset == sizeTotal ==> rest[..progress] == rest;
      assert item[..progress] == rest[..progress];
      assert offset < sizeTotal ==> full[offset..] == rest[MTU_CLASSIC - 1..];
      chain := chain + [item[..]];
      toggle := !toggle;
    }
  }

  // ---------------------------------------------------------------- properties of the chain

  lemma {:induction false} ChunkCount(stream: seq<Byte>, cap: nat, first: bool, toggle: bool, tid: TransferId)
    requires cap >= 1 && |stream| >= 1
    ensures |Chunks(stream, cap, first, toggle, tid)| == (|stream| + cap - 1) / cap
    decreases |stream|
  {
    DivPlus(|stream| - 1, cap);
    if |stream| > cap {
      ChunkCount(stream[cap..], cap, false, !toggle, tid);
    } else {
      DivSmall(|stream| - 1, cap);
    }
  }

  /** The frame count reserved in the queue is the length of the chain both spoolers build,
      and it exceeds one exactly when the payload does not fit a single frame. */
  lemma PredictionIsExact(v1: bool, seed: bv16, mtu: nat, tid: TransferId, payload: seq<Byte>)
    requires mtu >= 2
    ensures |Chain(v1, seed, mtu, tid, payload)| == PredictFrameCount(|payload|, mtu)
    ensures PredictFrameCount(|payload|, mtu) > 1 <==> |payload| >= mtu
  {
    hide Crc16.Add;
    if |payload| >= mtu {
      var cap := mtu - 1;
      var stream := Stream(v1, seed, payload);
      ChunkCount(stream, cap, true, v1, tid);
      assert |stream| > cap;
      assert |Chunks(stream, cap, true, v1, tid)| == 1 + |Chunks(stream[cap..], cap, false, !v1, tid)|;
    }
  }
}
