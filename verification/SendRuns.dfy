/**
 * Whole runs of `send_frame` calls, to any peers and with any failures, on the wrapping
 * counter of the code; and what a device can make of the datagrams they put on the wire.
 */
module SendRuns {
  import opened Common
  import opened BigEndian
  import opened Crypto
  import opened Packets
  import opened Records
  import opened EndToEnd
  import opened OrderlyDelivery
  import RW = ReplayWindow

  predicate Timed(calls: seq<Call>) {
    forall i :: 0 <= i < |calls| ==> calls[i].timestamp < U32
  }

  /** `next_sequence` after the calls. */
  function Counter(start: nat, calls: seq<Call>): nat {
    if calls == [] then start
    else calls[|calls| - 1].CounterAfter(Counter(start, calls[..|calls| - 1]))
  }

  /** Every datagram the calls handed to the socket. */
  function OnWire(start: nat, calls: seq<Call>): seq<Datagram> {
    if calls == [] then []
    else
      var init := calls[..|calls| - 1];
      OnWire(start, init) + calls[|calls| - 1].Sends(Counter(start, init))
  }

  /** The frames sent, numbered by a counter that never wraps. */
  function Frames(start: nat, calls: seq<Call>): seq<SentFrame> {
    if calls == [] then []
    else
      var before, last := Frames(start, calls[..|calls| - 1]), calls[|calls| - 1];
      if last.Goes() then before + [last.Frame(End(before, start))] else before
  }

  lemma {:induction false} FramesChain(start: nat, calls: seq<Call>)
    requires Timed(calls)
    ensures Chained(Frames(start, calls), start)
    decreases |calls|
  {
    if calls != [] {
      FramesChain(start, calls[..|calls| - 1]);
    }
  }

  /** The code's counter is the unbounded one modulo 2^32. */
  lemma {:induction false} CounterWraps(start: nat, calls: seq<Call>)
    requires start < U32
    ensures Counter(start, calls) == End(Frames(start, calls), start) % U32
    decreases |calls|
  {
    if calls != [] {
      var init, last := calls[..|calls| - 1], calls[|calls| - 1];
      CounterWraps(start, init);
      if last.Goes() {
        WrapAdd(End(Frames(start, init), start), last.Frame(0).Used());
      }
    }
  }

  lemma {:induction false} FirstPacketsWrap(f: SentFrame, n: nat)
    requires n <= |f.chunks|
    ensures FirstPackets(f, n) == FirstPackets(f.(base := f.base % U32), n)
    decreases n
  {
    if n > 0 {
      FirstPacketsWrap(f, n - 1);
      WireSeesWrappedCounter(f, n - 1);
    }
  }

  lemma PacketIsSent(f: SentFrame, n: nat, d: Datagram) returns (k: nat)
    requires n <= |f.chunks| && d in FirstPackets(f, n)
    ensures k < n && d == f.Packet(k)
  {
    k := 0;
    if d == f.Packet(n - 1) {
      k := n - 1;
    } else {
      k := PacketIsSent(f, n - 1, d);
    }
  }

  /** The datagrams of the last call are those of its frame. */
  lemma LastSends(start: nat, init: seq<Call>, last: Call, d: Datagram) returns (k: nat)
    requires start < U32 && d in last.Sends(Counter(start, init))
    ensures last.Goes()
    ensures var f := last.Frame(End(Frames(start, init), start));
            k < f.sent <= |f.chunks| && d == f.Packet(k)
  {
    CounterWraps(start, init);
    var f := last.Frame(End(Frames(start, init), start));
    FirstPacketsWrap(f, f.sent);
    k := PacketIsSent(f, f.sent, d);
  }

  /** Whatever is on the wire is a record of a frame sent. */
  lemma {:induction false} WireWasSent(start: nat, calls: seq<Call>, d: Datagram) returns (f: nat, k: nat)
    requires start < U32 && d in OnWire(start, calls)
    ensures var frames := Frames(start, calls);
            f < |frames| && k < frames[f].sent <= |frames[f].chunks| && d == frames[f].Packet(k)
    decreases |calls|
  {
    var init, last := calls[..|calls| - 1], calls[|calls| - 1];
    if d in OnWire(start, init) {
      f, k := WireWasSent(start, init, d);
    } else {
      k := LastSends(start, init, last, d);
      f := |Frames(start, init)|;
    }
  }

  /** The network: boxes of this session come off the wire; anything else may be made up. */
  predicate Offered(wire: seq<Datagram>, session: Session, d: Datagram) {
    d.box.Sealed? && d.box.session == session && d.box.direction == HostToDevice ==>
      exists i :: 0 <= i < |wire| && wire[i].box == d.box
  }

  /**
   * For every run of calls that takes fewer than 2^31 counter values, from any value of
   * the wrapping counter, and every such network: the device gets only exact payloads of
   * frames sent to it, each at most once.
   */
  lemma DeviceGetsOnlySentFrames(start: nat, calls: seq<Call>, session: Session, ds: seq<Datagram>)
    requires start < U32 && Timed(calls) && End(Frames(start, calls), start) - start < RW.HALF
    requires forall d :: d in ds ==> Offered(OnWire(start, calls), session, d)
    ensures exists ids :: Accounted(Frames(start, calls), session, ReceiveAll(NEW_RECEIVER, session, ds).frames, ids)
  {
    var frames, wire := Frames(start, calls), OnWire(start, calls);
    FramesChain(start, calls);
    forall d | d in ds
      ensures Deliverable(frames, session, d)
    {
      if d.box.Sealed? && d.box.session == session && d.box.direction == HostToDevice {
        var i :| 0 <= i < |wire| && wire[i].box == d.box;
        var f, k := WireWasSent(start, calls, wire[i]);
        assert frames[f].Packet(k).box == d.box;
      }
    }
    OnlySentFramesOnce(frames, start, session, ds);
  }

  lemma {:induction false} PacketAmongFirst(f: SentFrame, n: nat, k: nat)
    requires k < n <= |f.chunks|
    ensures f.Packet(k) in FirstPackets(f, n)
    decreases n
  {
    if k < n - 1 {
      PacketAmongFirst(f, n - 1, k);
    }
  }

  lemma LastOnWire(start: nat, init: seq<Call>, last: Call, k: nat)
    requires start < U32 && last.Goes() && k < last.Frame(End(Frames(start, init), start)).sent
    ensures last.Frame(End(Frames(start, init), start)).Packet(k) in last.Sends(Counter(start, init))
  {
    CounterWraps(start, init);
    var f := last.Frame(End(Frames(start, init), start));
    FirstPacketsWrap(f, f.sent);
    PacketAmongFirst(f, f.sent, k);
  }

  /** Conversely, every record a frame got to send is on the wire. */
  lemma {:induction false} SentIsOnWire(start: nat, calls: seq<Call>, f: nat, k: nat)
    requires start < U32 && f < |Frames(start, calls)|
    requires k < Frames(start, calls)[f].sent <= |Frames(start, calls)[f].chunks|
    ensures Frames(start, calls)[f].Packet(k) in OnWire(start, calls)
    decreases |calls|
  {
    var init, last := calls[..|calls| - 1], calls[|calls| - 1];
    if f < |Frames(start, init)| {
      SentIsOnWire(start, init, f, k);
    } else {
      LastOnWire(start, init, last, k);
    }
  }

  /** The payloads of the calls that went to the session, in order. */
  function Sent(calls: seq<Call>, session: Session): seq<seq<Byte>> {
    if calls == [] then []
    else
      var last := calls[|calls| - 1];
      Sent(calls[..|calls| - 1], session) +
      if last.Goes() && last.session.value == session then [last.payload] else []
  }

  lemma {:induction false} PayloadsPrefix(frames: seq<SentFrame>, f: SentFrame, session: Session, n: nat)
    requires n <= |frames|
    ensures Payloads(frames + [f], session, n) == Payloads(frames, session, n)
    decreases n
  {
    if n > 0 {
      PayloadsPrefix(frames, f, session, n - 1);
    }
  }

  lemma {:induction false} PayloadsAreSent(start: nat, calls: seq<Call>, session: Session)
    ensures var frames := Frames(start, calls);
            Payloads(frames, session, |frames|) == Sent(calls, session)
    decreases |calls|
  {
    if calls != [] {
      var init, last := calls[..|calls| - 1], calls[|calls| - 1];
      var before := Frames(start, init);
      PayloadsAreSent(start, init, session);
      if last.Goes() {
        PayloadsPrefix(before, last.Frame(End(before, start)), session, |before|);
      }
    }
  }

  /** Every send to the session went through to its last record. */
  predicate AllTaken(calls: seq<Call>, session: Session) {
    forall i :: 0 <= i < |calls| && calls[i].session == Some(session) ==>
      |PayloadChunks(calls[i].payload)| <= calls[i].takes
  }

  lemma {:induction false} AllSent(start: nat, calls: seq<Call>, session: Session, f: nat)
    requires AllTaken(calls, session) && f < |Frames(start, calls)|
    ensures var frames := Frames(start, calls);
            frames[f].session == session ==> frames[f].sent == |frames[f].chunks|
    decreases |calls|
  {
    var init := calls[..|calls| - 1];
    if f < |Frames(start, init)| {
      AllSent(start, init, session, f);
    }
  }

  /**
   * When every send succeeded, nothing is lost, and fragments overtake each other only
   * inside their frame and by fewer than 64 places, the device gets exactly the payloads
   * of the calls to it, in the order of the calls.
   */
  lemma DeviceGetsExactlyTheCalls(start: nat, calls: seq<Call>, session: Session, batches: seq<seq<Delivery>>)
    requires Timed(calls) && AllTaken(calls, session) && End(Frames(start, calls), start) - start < RW.HALF
    requires Orderly(Frames(start, calls), session, batches)
    ensures var frames := Frames(start, calls);
            ReceiveAll(NEW_RECEIVER, session, Stream(frames, session, batches, |frames|)).frames == Sent(calls, session)
  {
    var frames := Frames(start, calls);
    FramesChain(start, calls);
    forall f | 0 <= f < |frames| && frames[f].session == session
      ensures frames[f].sent == |frames[f].chunks|
    {
      AllSent(start, calls, session, f);
    }
    ExactlyTheFramesSent(frames, start, session, batches);
    PayloadsAreSent(start, calls, session);
  }

  // ----- What the records say -----

  lemma {:induction false} FirstPacketAt(f: SentFrame, n: nat, k: nat)
    requires k < n <= |f.chunks|
    ensures |FirstPackets(f, n)| == n && FirstPackets(f, n)[k] == f.Packet(k)
    decreases n
  {
    if k < n - 1 {
      FirstPacketAt(f, n - 1, k);
    } else if n > 1 {
      FirstPacketAt(f, n - 1, 0);
    }
  }

  /** The header of record `k` of `n` of a frame, by the arguments of the call. */
  function HeaderFor(c: Call, counter: nat, k: nat, n: nat, len: nat): FrameHeader {
    FrameHeader(1, c.keyframe, c.payloadType, (counter + 1 + k) % U32, counter, c.timestamp, len, k, n)
  }

  /** Datagram `k` of a call, in terms of its arguments and the counter. */
  lemma CallSends(c: Call, counter: nat, k: nat)
    requires c.Goes() && counter < U32 && k < |PayloadChunks(c.payload)| && k < c.takes
    ensures k < |c.Sends(counter)|
    ensures var n, chunk := |PayloadChunks(c.payload)|, PayloadChunks(c.payload)[k];
            var sequence := (counter + 1 + k) % U32;
            c.Sends(counter)[k] == Datagram(
                                     [DATA] + ToBe(sequence, 4),
                                     Seal(c.session.value, HostToDevice, sequence,
                                          ToBytes(HeaderFor(c, counter, k, n, |chunk|)) + chunk))
  {
    var f := c.Frame(counter);
    FirstPacketAt(f, f.sent, k);
    HeaderForIs(c, counter, k);
    PacketBytes(f, k);
  }

  lemma HeaderForIs(c: Call, counter: nat, k: nat)
    requires c.Goes() && counter < U32 && k < |PayloadChunks(c.payload)|
    ensures c.Frame(counter).Header(k) ==
            HeaderFor(c, counter, k, |PayloadChunks(c.payload)|, |PayloadChunks(c.payload)[k]|)
  {
    assert counter % U32 == counter;
  }

  lemma PacketBytes(f: SentFrame, k: nat)
    requires k < |f.chunks|
    ensures var sequence := f.Index(k) % U32;
            f.Packet(k) == Datagram([DATA] + ToBe(sequence, 4),
                                    Seal(f.session, HostToDevice, sequence, ToBytes(f.Header(k)) + f.chunks[k]))
  {
  }

  lemma CallSendsCount(c: Call, counter: nat)
    requires c.Goes()
    ensures |c.Sends(counter)| == if c.takes < |PayloadChunks(c.payload)| then c.takes else |PayloadChunks(c.payload)|
  {
    var f := c.Frame(counter);
    if f.sent > 0 {
      FirstPacketAt(f, f.sent, 0);
    }
  }

  /** A call takes one counter value for the frame and one for each record attempted, the failing one included. */
  lemma CounterAdvances(c: Call, counter: nat)
    requires c.Goes()
    ensures var n := |PayloadChunks(c.payload)|;
            c.CounterAfter(counter) == (counter + 1 + if c.takes < n then c.takes + 1 else n) % U32
  {
  }

  lemma CounterFits(start: nat, calls: seq<Call>)
    requires start < U32
    ensures Counter(start, calls) < U32
  {
    CounterWraps(start, calls);
  }

  /** Which call put a datagram on the wire. */
  lemma {:induction false} WireOfCall(start: nat, calls: seq<Call>, d: Datagram) returns (i: nat, k: nat)
    requires d in OnWire(start, calls)
    ensures i < |calls| && calls[i].Goes()
    ensures k < |calls[i].Sends(Counter(start, calls[..i]))| && calls[i].Sends(Counter(start, calls[..i]))[k] == d
    decreases |calls|
  {
    var n := |calls| - 1;
    var init := calls[..n];
    if d in OnWire(start, init) {
      i, k := WireOfCall(start, init, d);
      assert init[..i] == calls[..i];
    } else {
      i := n;
      k :| 0 <= k < |calls[n].Sends(Counter(start, init))| && calls[n].Sends(Counter(start, init))[k] == d;
    }
  }

  /** What a device reads in a record of a call. */
  predicate ReadFrom(record: Record, c: Call, counter: nat) {
    var h, chunks := record.header, PayloadChunks(c.payload);
    && h.timestamp == c.timestamp && h.keyframe == c.keyframe && h.payloadType == c.payloadType
    && h.fragCount == |chunks| && h.fragIndex < |chunks| && record.payload == chunks[h.fragIndex]
    && h.payloadLen == |record.payload|
    && h.frameSequence == counter && h.sequence == (counter + 1 + h.fragIndex) % U32
  }

  /** A record opens as the one its call made, whatever stands in front of its box. */
  lemma OpensAsCalled(c: Call, counter: nat, k: nat, w: RW.Window, d: Datagram)
    requires c.Goes() && c.timestamp < U32 && counter < U32 && k < |c.Sends(counter)| && w.Valid()
    requires d.box == c.Sends(counter)[k].box
    requires OpenPacket(c.session.value, HostToDevice, w, d).result.Ok?
    ensures ReadFrom(OpenPacket(c.session.value, HostToDevice, w, d).result.value, c, counter)
  {
    CallSendsCount(c, counter);
    CallSends(c, counter, k);
    OpenedIsSealed(c.session.value, w, d);
    ParsesAsCalled(c, counter, k);
  }

  lemma ParsesAsCalled(c: Call, counter: nat, k: nat)
    requires c.Goes() && c.timestamp < U32 && counter < U32 && k < |PayloadChunks(c.payload)|
    ensures var n, chunk := |PayloadChunks(c.payload)|, PayloadChunks(c.payload)[k];
            var r := ParseRecord(ToBytes(HeaderFor(c, counter, k, n, |chunk|)) + chunk);
            r.Ok? && ReadFrom(r.value, c, counter)
  {
    var n, chunk := |PayloadChunks(c.payload)|, PayloadChunks(c.payload)[k];
    RecordRoundTrip(HeaderFor(c, counter, k, n, |chunk|), chunk);
  }

  /**
   * For every run of calls, every network and every state of the window: a record the
   * device accepts carries the timestamp, keyframe flag and payload type of the very call
   * whose chunk it holds, the place of that chunk, and the counter at the call.
   */
  lemma AcceptedRecordsNameTheirCall(start: nat, calls: seq<Call>, session: Session, w: RW.Window, d: Datagram)
    returns (i: nat)
    requires start < U32 && Timed(calls) && w.Valid() && Offered(OnWire(start, calls), session, d)
    requires OpenPacket(session, HostToDevice, w, d).result.Ok?
    ensures i < |calls| && calls[i].session == Some(session)
    ensures ReadFrom(OpenPacket(session, HostToDevice, w, d).result.value, calls[i], Counter(start, calls[..i]))
  {
    var wire := OnWire(start, calls);
    OpenedIsSealed(session, w, d);
    var j :| 0 <= j < |wire| && wire[j].box == d.box;
    var k;
    i, k := WireOfCall(start, calls, wire[j]);
    var counter := Counter(start, calls[..i]);
    CounterFits(start, calls[..i]);
    SealedByCall(calls[i], counter, k);
    OpensAsCalled(calls[i], counter, k, w, d);
  }

  lemma OpenedIsSealed(session: Session, w: RW.Window, d: Datagram)
    requires w.Valid() && OpenPacket(session, HostToDevice, w, d).result.Ok?
    ensures d.box.Sealed? && d.box.session == session && d.box.direction == HostToDevice
    ensures OpenPacket(session, HostToDevice, w, d).result == ParseRecord(d.box.plaintext)
  {
  }

  lemma SealedByCall(c: Call, counter: nat, k: nat)
    requires c.Goes() && counter < U32 && k < |c.Sends(counter)|
    ensures c.Sends(counter)[k].box.Sealed? && c.Sends(counter)[k].box.session == c.session.value
  {
    CallSendsCount(c, counter);
    CallSends(c, counter, k);
  }
}
