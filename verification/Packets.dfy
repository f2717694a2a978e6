/** Data packets on the wire, and the frames a host sends as records. */
module Packets {
  import opened Common
  import opened BigEndian
  import opened Crypto
  import opened Records
  import RW = ReplayWindow

  const DATA: Byte := 0x10

  /** The bytes in the clear (type and sequence, five of them when whole), then the box. */
  datatype Datagram = Datagram(clear: seq<Byte>, box: Box)

  function SealPacket(session: Session, direction: Direction, sequence: nat, record: seq<Byte>): Datagram {
    Datagram([DATA] + ToBe(sequence, 4), Seal(session, direction, sequence, record))
  }

  datatype Opened = Opened(window: RW.Window, result: Result<Record, TransportError>)

  function OpenPacket(session: Session, direction: Direction, w: RW.Window, packet: Datagram): Opened
    requires w.Valid()
  {
    if packet.clear == [] || packet.clear[0] != DATA then Opened(w, Err(Dropped("not a data packet")))
    else if |packet.clear| < 5 then Opened(w, Err(Dropped("packet too short")))
    else
      Widths();
      var sequence := FromBe(packet.clear[1..5]);
      if !RW.Check(w, sequence) then Opened(w, Err(Dropped("replayed or too old")))
      else
        var plaintext := Open(session, direction, sequence, packet.box);
        if plaintext.None? then Opened(w, Err(Dropped("authentication failed")))
        else
          var record := ParseRecord(plaintext.value);
          if record.Err? then Opened(w, record)
          else if record.value.header.sequence != sequence then Opened(w, Err(MalformedRecord))
          else Opened(RW.Commit(w, sequence), record)
  }

  method OpenDatagram(session: Session, direction: Direction, window: RW.ReplayWindow, packet: Datagram)
    returns (result: Result<Record, TransportError>)
    requires window.State().Valid()
    modifies window
    ensures OpenPacket(session, direction, old(window.State()), packet) == Opened(window.State(), result)
  {
    if packet.clear == [] || packet.clear[0] != DATA {
      return Err(Dropped("not a data packet"));
    }
    if |packet.clear| < 5 {
      return Err(Dropped("packet too short"));
    }
    Widths();
    var sequence := FromBe(packet.clear[1..5]);
    var unseen := window.CheckSequence(sequence);
    if !unseen {
      return Err(Dropped("replayed or too old"));
    }
    var plaintext := Open(session, direction, sequence, packet.box);
    if plaintext.None? {
      return Err(Dropped("authentication failed"));
    }
    result := ParseRecord(plaintext.value);
    if result.Err? {
      return;
    }
    if result.value.header.sequence != sequence {
      return Err(MalformedRecord);
    }
    var ok := window.CommitSequence(sequence);
    if !ok {
      return Err(Dropped("replayed or too old"));
    }
  }

  /** Why a packet is refused, by its bytes: the first of these that applies. */
  lemma RefusedBecause(session: Session, direction: Direction, w: RW.Window, packet: Datagram)
    requires w.Valid()
    ensures var result := OpenPacket(session, direction, w, packet).result;
            && (packet.clear == [] || packet.clear[0] != 0x10 ==> result == Err(Dropped("not a data packet")))
            && (1 <= |packet.clear| < 5 && packet.clear[0] == 0x10 ==> result == Err(Dropped("packet too short")))
            && (|packet.clear| >= 5 && packet.clear[0] == 0x10 ==>
                  Range(4) == U32 &&
                  var sequence := FromBe(packet.clear[1..5]);
                  && (!RW.Check(w, sequence) ==> result == Err(Dropped("replayed or too old")))
                  && (RW.Check(w, sequence) && packet.box.Noise? ==> result == Err(Dropped("authentication failed"))))
  {
    Widths();
  }

  /** What is refused although it authenticates: bytes that are no record, or a record with another number inside. */
  lemma RefusedInside(session: Session, direction: Direction, w: RW.Window, sequence: nat, plaintext: seq<Byte>)
    requires w.Valid() && sequence < U32 && RW.Check(w, sequence)
    ensures var o := OpenPacket(session, direction, w, SealPacket(session, direction, sequence, plaintext));
            var record := ParseRecord(plaintext);
            o == if record.Err? || record.value.header.sequence != sequence then Opened(w, Err(MalformedRecord))
                 else Opened(RW.Commit(w, sequence), record)
  {
    ClearSequence(sequence);
  }

  /** Committing a sequence that passed the check always changes the window. */
  lemma CommitChanges(w: RW.Window, sequence: nat)
    requires w.Valid() && sequence < U32
    ensures RW.Commit(w, sequence) != w <==> RW.Check(w, sequence)
  {
    if RW.Check(w, sequence) && w.highest.Some? {
      var behind := RW.WrapSub(w.highest.value, sequence);
      RW.OrBitSets(w.bitmap, behind, behind);
    }
  }

  /** The window changes exactly on the packets that open, so nothing forged can move it. */
  lemma WindowMovesOnlyOnOk(session: Session, direction: Direction, w: RW.Window, packet: Datagram)
    requires w.Valid()
    ensures OpenPacket(session, direction, w, packet).window.Valid()
    ensures OpenPacket(session, direction, w, packet).window != w <==>
            OpenPacket(session, direction, w, packet).result.Ok?
  {
    if |packet.clear| >= 5 {
      Widths();
      CommitChanges(w, FromBe(packet.clear[1..5]));
      RW.CommitValid(w, FromBe(packet.clear[1..5]));
    }
  }

  // ----- Frames -----

  /**
   * One `send_frame` call that found its peer: `base` is the counter at the start,
   * unbounded, `chunks` the record payloads, and `sent` how many datagrams the socket
   * took before it failed, if it did.
   */
  datatype SentFrame = SentFrame(
    session: Session, base: nat, timestamp: nat, keyframe: bool, payloadType: Byte,
    payload: seq<Byte>, chunks: seq<seq<Byte>>, sent: nat)
  {
    predicate Proper() {
      && timestamp < U32
      && Concat(chunks) == payload && 1 <= |chunks| < U16 && sent <= |chunks|
      && forall k :: 0 <= k < |chunks| ==> |chunks[k]| <= CHUNK
    }

    /** Counter values the call consumed: one for the frame, one per record attempted. */
    function Used(): nat {
      1 + if sent < |chunks| then sent + 1 else sent
    }

    /** The unbounded record number of fragment `k`. */
    function Index(k: nat): nat {
      base + 1 + k
    }

    function Header(k: nat): FrameHeader
      requires k < |chunks|
    {
      FrameHeader(1, keyframe, payloadType, Index(k) % U32, base % U32, timestamp, |chunks[k]|, k, |chunks|)
    }

    function RecordBytes(k: nat): seq<Byte>
      requires k < |chunks|
    {
      ToBytes(Header(k)) + chunks[k]
    }

    function Packet(k: nat): Datagram
      requires k < |chunks|
    {
      SealPacket(session, HostToDevice, Index(k) % U32, RecordBytes(k))
    }
  }

  /** A `send_frame` call: the session of its peer, if there is one, and how many datagrams the socket takes. */
  datatype Call = Call(
    session: Option<Session>, timestamp: nat, keyframe: bool, payloadType: Byte, payload: seq<Byte>, takes: nat)
  {
    /** It gets as far as taking counter values. */
    predicate Goes() {
      session.Some? && |PayloadChunks(payload)| < U16
    }

    function Frame(base: nat): (f: SentFrame)
      requires Goes()
      ensures timestamp < U32 ==> f.Proper()
    {
      var chunks := PayloadChunks(payload);
      SentFrame(session.value, base, timestamp, keyframe, payloadType, payload, chunks,
                if takes < |chunks| then takes else |chunks|)
    }

    /** The datagrams it sends when the counter stands at `counter`. */
    function Sends(counter: nat): seq<Datagram> {
      if Goes() then FirstPackets(Frame(counter), Frame(counter).sent) else []
    }

    /** Where it leaves the counter. */
    function CounterAfter(counter: nat): nat {
      if Goes() then (counter + Frame(counter).Used()) % U32 else counter
    }
  }

  /** `build_record`, then `seal_packet`, as the loop of `send_frame` does. */
  function RecordPacket(session: Session, header: FrameHeader, chunk: seq<Byte>): Datagram
    requires |chunk| <= CHUNK
  {
    SealPacket(session, HostToDevice, header.sequence, BuildRecord(header, chunk).value)
  }

  lemma RecordPacketIs(f: SentFrame, k: nat)
    requires f.Proper() && k < |f.chunks|
    ensures RecordPacket(f.session, f.Header(k), f.chunks[k]) == f.Packet(k)
  {
  }

  /** The first `n` datagrams of a frame. */
  function FirstPackets(f: SentFrame, n: nat): seq<Datagram>
    requires n <= |f.chunks|
  {
    if n == 0 then [] else FirstPackets(f, n - 1) + [f.Packet(n - 1)]
  }

  /** The wire shows only the counter modulo 2^32. */
  lemma WireSeesWrappedCounter(f: SentFrame, k: nat)
    requires k < |f.chunks|
    ensures f.Packet(k) == f.(base := f.base % U32).Packet(k)
  {
    WrapAdd(f.base, 1 + k);
    WrapAdd(f.base, 0);
    SamePacket(f, f.(base := f.base % U32), k);
  }

  lemma SamePacket(f: SentFrame, g: SentFrame, k: nat)
    requires k < |f.chunks| && g == f.(base := g.base)
    requires f.Index(k) % U32 == g.Index(k) % U32 && f.base % U32 == g.base % U32
    ensures f.Packet(k) == g.Packet(k)
  {
    assert f.Header(k) == g.Header(k);
  }

  lemma WrapAdd(a: nat, b: nat)
    ensures (a % U32 + b) % U32 == (a + b) % U32
  {
  }

  /** The receiver of a packet reads its header and its chunk. */
  lemma PacketReads(f: SentFrame, k: nat)
    requires f.Proper() && k < |f.chunks|
    ensures ParseRecord(f.RecordBytes(k)) == Ok(Record(f.Header(k), f.chunks[k]))
  {
    RecordRoundTrip(f.Header(k), f.chunks[k]);
  }

  lemma ClearSequence(sequence: nat)
    requires sequence < U32
    ensures var clear := [DATA] + ToBe(sequence, 4);
            |clear| == 5 && FromBe(clear[1..5]) == sequence
  {
    Widths();
    FromTo(sequence, 4);
    assert ([DATA] + ToBe(sequence, 4))[1..5] == ToBe(sequence, 4);
  }

  /** Sealing a record under its own sequence and opening it are inverse, to a window that allows it. */
  lemma PacketOpens(f: SentFrame, k: nat, w: RW.Window)
    requires f.Proper() && k < |f.chunks| && w.Valid()
    ensures OpenPacket(f.session, HostToDevice, w, f.Packet(k)) ==
            if RW.Check(w, f.Index(k) % U32)
            then Opened(RW.Commit(w, f.Index(k) % U32), Ok(Record(f.Header(k), f.chunks[k])))
            else Opened(w, Err(Dropped("replayed or too old")))
  {
    ClearSequence(f.Index(k) % U32);
    PacketReads(f, k);
  }
}
