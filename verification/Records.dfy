/** Frame headers, records and the split of a frame into record payloads. */
module Records {
  import opened Common
  import opened BigEndian

  const FRAME_HEADER_LEN := 24
  const RECORD_MTU := 1200
  const CHUNK := RECORD_MTU - FRAME_HEADER_LEN
  const U16 := 0x1_0000

  datatype FrameHeader = FrameHeader(
    version: Byte, keyframe: bool, payloadType: Byte,
    sequence: nat, frameSequence: nat, timestamp: nat,
    payloadLen: nat, fragIndex: nat, fragCount: nat)
  {
    /** Every field within its width. */
    predicate Fits() {
      && sequence < U32 && frameSequence < U32 && timestamp < U32
      && payloadLen < U16 && fragIndex < U16 && fragCount < U16
    }
  }

  datatype TransportError = PayloadTooLarge(n: nat) | MalformedRecord | Dropped(why: string)

  /** The six numbers of a header, big-endian. */
  function Numbers(h: FrameHeader): (b: seq<Byte>)
    ensures |b| == 18
  {
    ToBe(h.sequence, 4) + ToBe(h.frameSequence, 4) + ToBe(h.timestamp, 4)
    + ToBe(h.payloadLen, 2) + ToBe(h.fragIndex, 2) + ToBe(h.fragCount, 2)
  }

  function ToBytes(h: FrameHeader): (b: seq<Byte>)
    ensures |b| == FRAME_HEADER_LEN
  {
    [h.version, if h.keyframe then 1 else 0, h.payloadType, 0] + Numbers(h) + [0, 0]
  }

  function FromBytes(b: seq<Byte>): Option<FrameHeader> {
    if |b| < FRAME_HEADER_LEN || b[0] != 1 then None
    else
      var index, count := FromBe(b[18..20]), FromBe(b[20..22]);
      if count == 0 || index >= count then None
      else Some(FrameHeader(b[0], b[1] % 2 == 1, b[2], FromBe(b[4..8]), FromBe(b[8..12]), FromBe(b[12..16]),
                            FromBe(b[16..18]), index, count))
  }

  lemma NumberPlaces(h: FrameHeader)
    ensures var b := Numbers(h);
            && b[0..4] == ToBe(h.sequence, 4) && b[4..8] == ToBe(h.frameSequence, 4) && b[8..12] == ToBe(h.timestamp, 4)
            && b[12..14] == ToBe(h.payloadLen, 2) && b[14..16] == ToBe(h.fragIndex, 2) && b[16..18] == ToBe(h.fragCount, 2)
  {
  }

  lemma NumbersInside(h: FrameHeader, tail: seq<Byte>, i: nat, j: nat)
    requires i <= j <= 18
    ensures (ToBytes(h) + tail)[4 + i..4 + j] == Numbers(h)[i..j]
  {
  }

  /** The six numbers of a header at their places. */
  lemma FieldPlaces(h: FrameHeader, tail: seq<Byte>)
    ensures var b := ToBytes(h) + tail;
            && b[4..8] == ToBe(h.sequence, 4) && b[8..12] == ToBe(h.frameSequence, 4) && b[12..16] == ToBe(h.timestamp, 4)
            && b[16..18] == ToBe(h.payloadLen, 2) && b[18..20] == ToBe(h.fragIndex, 2) && b[20..22] == ToBe(h.fragCount, 2)
  {
    NumberPlaces(h);
    NumbersInside(h, tail, 0, 4);
    NumbersInside(h, tail, 4, 8);
    NumbersInside(h, tail, 8, 12);
    NumbersInside(h, tail, 12, 14);
    NumbersInside(h, tail, 14, 16);
    NumbersInside(h, tail, 16, 18);
  }

  lemma FieldsRead(h: FrameHeader)
    requires h.Fits()
    ensures FromBe(ToBe(h.sequence, 4)) == h.sequence && FromBe(ToBe(h.frameSequence, 4)) == h.frameSequence
    ensures FromBe(ToBe(h.timestamp, 4)) == h.timestamp && FromBe(ToBe(h.payloadLen, 2)) == h.payloadLen
    ensures FromBe(ToBe(h.fragIndex, 2)) == h.fragIndex && FromBe(ToBe(h.fragCount, 2)) == h.fragCount
  {
    Widths();
    FromTo(h.sequence, 4);
    FromTo(h.frameSequence, 4);
    FromTo(h.timestamp, 4);
    FromTo(h.payloadLen, 2);
    FromTo(h.fragIndex, 2);
    FromTo(h.fragCount, 2);
  }

  lemma FirstBytes(h: FrameHeader, tail: seq<Byte>)
    ensures var b := ToBytes(h) + tail;
            b[0] == h.version && b[1] == (if h.keyframe then 1 else 0) && b[2] == h.payloadType
  {
  }

  /** What `from_bytes` makes of bytes that hold the fields of `h`. */
  lemma ReadsFields(h: FrameHeader, b: seq<Byte>)
    requires |b| >= FRAME_HEADER_LEN
    requires b[0] == h.version && b[1] == (if h.keyframe then 1 else 0) && b[2] == h.payloadType
    requires FromBe(b[4..8]) == h.sequence && FromBe(b[8..12]) == h.frameSequence && FromBe(b[12..16]) == h.timestamp
    requires FromBe(b[16..18]) == h.payloadLen && FromBe(b[18..20]) == h.fragIndex && FromBe(b[20..22]) == h.fragCount
    ensures FromBytes(b) == if h.version == 1 && h.fragIndex < h.fragCount then Some(h) else None
  {
  }

  /** A header reads back exactly when it is version 1 with a possible fragment index. */
  lemma HeaderRoundTrip(h: FrameHeader, tail: seq<Byte>)
    requires h.Fits()
    ensures FromBytes(ToBytes(h) + tail) == Some(h) <==> h.version == 1 && h.fragIndex < h.fragCount
    ensures FromBytes(ToBytes(h) + tail).Some? <==> h.version == 1 && h.fragIndex < h.fragCount
  {
    FieldPlaces(h, tail);
    FieldsRead(h);
    FirstBytes(h, tail);
    ReadsFields(h, ToBytes(h) + tail);
  }

  /** Conversely, accepted bytes are those of their header, up to the reserved ones. */
  lemma BytesRoundTrip(b: seq<Byte>)
    requires FromBytes(b).Some?
    ensures ToBytes(FromBytes(b).value) == b[..FRAME_HEADER_LEN] <==>
            b[1] <= 1 && b[3] == 0 && b[22] == 0 && b[23] == 0
  {
    RebuiltNumbers(b);
    Framed(b, [b[0], b[1] % 2, b[2], 0], [0, 0]);
  }

  /** Replacing the first four and the last two bytes of a header. */
  lemma Framed(b: seq<Byte>, head: seq<Byte>, end: seq<Byte>)
    requires |b| >= FRAME_HEADER_LEN && |head| == 4 && |end| == 2
    ensures head + b[4..22] + end == b[..FRAME_HEADER_LEN] <==>
            && head[0] == b[0] && head[1] == b[1] && head[2] == b[2] && head[3] == b[3]
            && end[0] == b[22] && end[1] == b[23]
  {
    var r, c := head + b[4..22] + end, b[..FRAME_HEADER_LEN];
    if r == c {
      assert r[0] == c[0] && r[1] == c[1] && r[2] == c[2] && r[3] == c[3] && r[22] == c[22] && r[23] == c[23];
    }
  }

  lemma RebuiltNumbers(b: seq<Byte>)
    requires FromBytes(b).Some?
    ensures Numbers(FromBytes(b).value) == b[4..22]
  {
    ToFrom(b[4..8]);
    ToFrom(b[8..12]);
    ToFrom(b[12..16]);
    ToFrom(b[16..18]);
    ToFrom(b[18..20]);
    ToFrom(b[20..22]);
    SixSlices(b);
  }

  lemma SixSlices(b: seq<Byte>)
    requires |b| >= FRAME_HEADER_LEN
    ensures b[4..8] + b[8..12] + b[12..16] + b[16..18] + b[18..20] + b[20..22] == b[4..22]
  {
    SliceJoin(b, 4, 8, 12);
    SliceJoin(b, 4, 12, 16);
    SliceJoin(b, 4, 16, 18);
    SliceJoin(b, 4, 18, 20);
    SliceJoin(b, 4, 20, 22);
  }

  function BuildRecord(h: FrameHeader, payload: seq<Byte>): Result<seq<Byte>, TransportError> {
    if |payload| >= U16 then Err(PayloadTooLarge(|payload|))
    else Ok(ToBytes(h.(version := 1, payloadLen := |payload|)) + payload)
  }

  datatype Record = Record(header: FrameHeader, payload: seq<Byte>)

  function ParseRecord(record: seq<Byte>): Result<Record, TransportError> {
    var h := FromBytes(record);
    if h.None? || |record| < FRAME_HEADER_LEN + h.value.payloadLen then Err(MalformedRecord)
    else Ok(Record(h.value, record[FRAME_HEADER_LEN..FRAME_HEADER_LEN + h.value.payloadLen]))
  }

  /** A built record parses back to its header and payload. */
  lemma RecordRoundTrip(h: FrameHeader, payload: seq<Byte>)
    requires h.Fits() && h.fragIndex < h.fragCount && |payload| < U16
    ensures BuildRecord(h, payload).Ok?
    ensures ParseRecord(BuildRecord(h, payload).value) ==
            Ok(Record(h.(version := 1, payloadLen := |payload|), payload))
  {
    var full := h.(version := 1, payloadLen := |payload|);
    HeaderRoundTrip(full, payload);
    assert (ToBytes(full) + payload)[FRAME_HEADER_LEN..FRAME_HEADER_LEN + |payload|] == payload;
  }

  /** Bytes after the payload are ignored; a payload cut short makes the record malformed. */
  lemma RecordLength(h: FrameHeader, body: seq<Byte>)
    requires h.Fits() && h.version == 1 && h.fragIndex < h.fragCount
    ensures ParseRecord(ToBytes(h) + body) ==
            if |body| >= h.payloadLen then Ok(Record(h, body[..h.payloadLen])) else Err(MalformedRecord)
  {
    HeaderRoundTrip(h, body);
    if |body| >= h.payloadLen {
      assert (ToBytes(h) + body)[FRAME_HEADER_LEN..FRAME_HEADER_LEN + h.payloadLen] == body[..h.payloadLen];
    }
  }

  /** A payload that does not fit the 16-bit length is refused, with its size. */
  lemma OversizedRefused(h: FrameHeader, payload: seq<Byte>)
    ensures BuildRecord(h, payload).Err? <==> |payload| > 65_535
    ensures |payload| > 65_535 ==> BuildRecord(h, payload) == Err(PayloadTooLarge(|payload|))
  {
  }

  // ----- Splitting a frame -----

  /** `slice::chunks`: pieces of `CHUNK` bytes, the last one shorter; none of an empty slice. */
  function Chop(payload: seq<Byte>): (chunks: seq<seq<Byte>>)
    ensures Concat(chunks) == payload
    ensures forall k :: 0 <= k < |chunks| ==> 0 < |chunks[k]| <= CHUNK
    ensures forall k :: 0 <= k < |chunks| - 1 ==> |chunks[k]| == CHUNK
    ensures CHUNK * (|chunks| - 1) < |payload| <= CHUNK * |chunks| || (payload == [] && chunks == [])
  {
    if payload == [] then []
    else if |payload| <= CHUNK then
      assert [payload][1..] == [];
      [payload]
    else
      var rest := Chop(payload[CHUNK..]);
      assert ([payload[..CHUNK]] + rest)[1..] == rest;
      [payload[..CHUNK]] + rest
  }

  /** `payload_chunks`: as few records as hold the frame, and one even for an empty frame. */
  function PayloadChunks(payload: seq<Byte>): (chunks: seq<seq<Byte>>)
    ensures Concat(chunks) == payload
    ensures |chunks| >= 1 && |payload| <= CHUNK * |chunks|
    ensures |chunks| > 1 ==> CHUNK * (|chunks| - 1) < |payload|
    ensures forall k :: 0 <= k < |chunks| ==> |chunks[k]| <= CHUNK
    ensures forall k :: 0 <= k < |chunks| - 1 ==> |chunks[k]| == 1176
  {
    if |payload| <= CHUNK then
      assert [payload][1..] == [];
      [payload]
    else Chop(payload)
  }
}
