/**
 * The host's UDP endpoint: pending handshakes, confirmed peers and the outbound
 * counter. Times, the authorizer, the fresh ephemeral and the socket are inputs.
 */
module HostEndpoint {
  import opened Common
  import opened Crypto
  import opened Packets
  import opened Handshake
  import R = Records
  import RW = ReplayWindow

  type Addr = nat
  type Authorizer = (DeviceId, PublicKey) -> bool

  /** Milliseconds. */
  const PENDING_TTL := 10_000
  const MAX_PENDING := 64
  const MAX_PENDING_PER_DEVICE := 4

  datatype Pending = Pending(deviceId: DeviceId, deviceStatic: PublicKey, session: Session, createdAt: nat)
  datatype Peer = Peer(addr: Addr, session: Session, window: RW.Window)

  datatype Endpoint = Endpoint(pending: map<Addr, Pending>, peers: map<DeviceId, Peer>) {
    predicate Sound() {
      forall id :: id in peers ==> peers[id].window.Valid()
    }
  }

  const EMPTY := Endpoint(map[], map[])

  /** Some id, for calls that choose no peer. */
  const NOBODY: DeviceId := [0, 0, 0, 0, 0, 0, 0, 0]

  /** The clock readings of one `handle_packet`, in the order they are taken. */
  datatype Clock = Clock(first: nat, second: nat, third: nat) {
    predicate Forward() {
      first <= second <= third
    }
  }

  /** What one call did: the new state, a reply, and the device it made a peer. */
  datatype Handled = Handled(endpoint: Endpoint, reply: Option<Packet>, inserted: Option<DeviceId>)

  predicate Young(p: Pending, now: nat) {
    p.createdAt <= now && now - p.createdAt < PENDING_TTL
  }

  function Prune(e: Endpoint, now: nat): (r: Endpoint) {
    e.(pending := map a | a in e.pending && Young(e.pending[a], now) :: e.pending[a])
  }

  function AddrsOf(pending: map<Addr, Pending>, id: DeviceId): (s: set<Addr>)
    ensures forall a :: a in s <==> a in pending && pending[a].deviceId == id
  {
    set a | a in pending && pending[a].deviceId == id
  }

  /** A source without an entry finds the table or its device's share full. */
  predicate Refused(pending: map<Addr, Pending>, from: Addr, id: DeviceId) {
    from !in pending && (|pending| >= MAX_PENDING || |AddrsOf(pending, id)| >= MAX_PENDING_PER_DEVICE)
  }

  function HandleInit(
    e: Endpoint, host: Scalar, packet: Packet, from: Addr, auth: Authorizer, clock: Clock, eph: Scalar): Handled
  {
    var p := Prune(e, clock.second);
    if !packet.Init? || !auth(packet.deviceId, packet.deviceStatic) || Refused(p.pending, from, packet.deviceId)
    then Handled(p, None, None)
    else Answer(p, packet.deviceStatic, from, clock.third, AcceptInit(host, packet, eph))
  }

  /** The end of `handle_init`, once the handshake server has spoken. */
  function Answer(
    p: Endpoint, key: PublicKey, from: Addr, now: nat, outcome: Result<InitOutcome, HandshakeError>): Handled
  {
    match outcome
    case Err(_) => Handled(p, None, None)
    case Ok(o) =>
      Handled(p.(pending := p.pending[from := Pending(o.deviceId, key, o.session, now)]), Some(o.response), None)
  }

  function HandleConfirm(e: Endpoint, packet: Packet, from: Addr, auth: Authorizer, clock: Clock): Handled {
    var p := Prune(e, clock.second);
    if from !in p.pending then Handled(p, None, None)
    else
      var entry := p.pending[from];
      var left := p.(pending := p.pending - {from});
      if !auth(entry.deviceId, entry.deviceStatic)
      then Handled(left.(peers := left.peers - {entry.deviceId}), None, None)
      else if !VerifyConfirm(entry.session, packet) then Handled(left, None, None)
      else Handled(left.(peers := left.peers[entry.deviceId := Peer(from, entry.session, RW.FRESH)]),
                   None, Some(entry.deviceId))
  }

  /** A peer at that address, if any, opens the packet; `pick` resolves the map's order. */
  function HandleData(e: Endpoint, datagram: Datagram, from: Addr, pick: DeviceId): Endpoint
    requires e.Sound()
  {
    if pick in e.peers && e.peers[pick].addr == from then
      var peer := e.peers[pick];
      e.(peers := e.peers[pick := peer.(window := OpenPacket(peer.session, DeviceToHost, peer.window, datagram).window)])
    else e
  }

  function HandlePacket(
    e: Endpoint, host: Scalar, packet: Packet, from: Addr, auth: Authorizer, clock: Clock, eph: Scalar, pick: DeviceId)
    : Handled
    requires e.Sound()
  {
    var p := Prune(e, clock.first);
    match packet
    case Init(_, _, _, _) => HandleInit(p, host, packet, from, auth, clock, eph)
    case ShortInit => HandleInit(p, host, packet, from, auth, clock, eph)
    case Confirm(_) => HandleConfirm(p, packet, from, auth, clock)
    case Data(d) => Handled(HandleData(p, d, from, pick), None, None)
    case _ => Handled(p, None, None)
  }

  function Disconnect(e: Endpoint, id: DeviceId): Endpoint {
    Endpoint(map a | a in e.pending && e.pending[a].deviceId != id :: e.pending[a], e.peers - {id})
  }

  // ----- The imperative endpoint -----

  class HostEndpoint {
    const hostIdentity: Scalar
    var pending: map<Addr, Pending>
    var peers: map<DeviceId, Peer>
    var nextSequence: nat

    ghost function State(): Endpoint
      reads this
    {
      Endpoint(pending, peers)
    }

    ghost predicate Valid()
      reads this
    {
      State().Sound() && nextSequence < U32
    }

    constructor (hostIdentity: Scalar)
      ensures Valid() && State() == EMPTY && nextSequence == 0 && this.hostIdentity == hostIdentity
    {
      this.hostIdentity := hostIdentity;
      pending, peers, nextSequence := map[], map[], 0;
    }

    method PrunePending(now: nat)
      modifies this`pending
      ensures State() == Prune(old(State()), now)
    {
      pending := map a | a in pending && Young(pending[a], now) :: pending[a];
    }

    method Handle(packet: Packet, from: Addr, auth: Authorizer, clock: Clock, eph: Scalar)
      returns (reply: Option<Packet>, ghost pick: DeviceId)
      requires Valid()
      modifies this`pending, this`peers
      ensures Valid()
      ensures var h := HandlePacket(old(State()), hostIdentity, packet, from, auth, clock, eph, pick);
              State() == h.endpoint && reply == h.reply
      ensures packet.Data? && (exists id :: id in old(peers) && old(peers)[id].addr == from) ==>
                pick in old(peers) && old(peers)[pick].addr == from
    {
      pick := NOBODY;
      reply := None;
      PrunePending(clock.first);
      match packet {
        case Init(_, _, _, _) =>
          reply := OnInit(packet, from, auth, clock, eph);
        case ShortInit =>
          reply := OnInit(packet, from, auth, clock, eph);
        case Confirm(_) =>
          OnConfirm(packet, from, auth, clock);
        case Data(d) =>
          if id :| id in peers && peers[id].addr == from {
            pick := id;
            OnData(d, id);
          }
        case _ =>
      }
    }

    method OnInit(packet: Packet, from: Addr, auth: Authorizer, clock: Clock, eph: Scalar) returns (reply: Option<Packet>)
      modifies this`pending
      ensures var h := HandleInit(old(State()), hostIdentity, packet, from, auth, clock, eph);
              State() == h.endpoint && reply == h.reply
    {
      PrunePending(clock.second);
      if !packet.Init? || !auth(packet.deviceId, packet.deviceStatic) {
        return None;
      }
      if from !in pending &&
         (|pending| >= MAX_PENDING || |AddrsOf(pending, packet.deviceId)| >= MAX_PENDING_PER_DEVICE) {
        return None;
      }
      reply := Enter(packet.deviceStatic, from, clock.third, AcceptInit(hostIdentity, packet, eph));
    }

    /** The end of `handle_init`: an accepted init leaves its entry and is answered. */
    method Enter(key: PublicKey, from: Addr, now: nat, outcome: Result<InitOutcome, HandshakeError>)
      returns (reply: Option<Packet>)
      modifies this`pending
      ensures var h := Answer(old(State()), key, from, now, outcome);
              State() == h.endpoint && reply == h.reply
    {
      if outcome.Err? {
        return None;
      }
      var o := outcome.value;
      pending := pending[from := Pending(o.deviceId, key, o.session, now)];
      reply := Some(o.response);
    }

    method OnConfirm(packet: Packet, from: Addr, auth: Authorizer, clock: Clock)
      modifies this`pending, this`peers
      ensures State() == HandleConfirm(old(State()), packet, from, auth, clock).endpoint
    {
      PrunePending(clock.second);
      if from !in pending {
        return;
      }
      var entry := pending[from];
      if !auth(entry.deviceId, entry.deviceStatic) {
        pending := pending - {from};
        peers := peers - {entry.deviceId};
        return;
      }
      if !VerifyConfirm(entry.session, packet) {
        pending := pending - {from};
        return;
      }
      pending := pending - {from};
      peers := peers[entry.deviceId := Peer(from, entry.session, RW.FRESH)];
    }

    method OnData(datagram: Datagram, id: DeviceId)
      requires Valid() && id in peers
      modifies this`peers
      ensures Valid() && State() == HandleData(old(State()), datagram, old(peers[id].addr), id)
    {
      var peer := peers[id];
      var o := OpenPacket(peer.session, DeviceToHost, peer.window, datagram);
      WindowMovesOnlyOnOk(peer.session, DeviceToHost, peer.window, datagram);
      peers := peers[id := peer.(window := o.window)];
    }

    method DisconnectDevice(id: DeviceId) returns (existed: bool)
      modifies this`pending, this`peers
      ensures State() == Disconnect(old(State()), id)
      ensures existed <==> id in old(peers) || AddrsOf(old(pending), id) != {}
    {
      var before := pending;
      existed := id in peers;
      peers := peers - {id};
      pending := map a | a in pending && pending[a].deviceId != id :: pending[a];
      RetainedSize(before, pending, id);
      existed := existed || |before| != |pending|;
    }

    /** `send_frame`; `takes` datagrams fit before the socket fails. */
    method SendFrame(
      id: DeviceId, timestamp: nat, keyframe: bool, payloadType: Byte, payload: seq<Byte>, takes: nat)
      returns (packets: seq<Datagram>, result: Result<nat, R.TransportError>)
      requires Valid() && timestamp < U32
      modifies this`nextSequence
      ensures Valid()
      ensures var session := if id in peers then Some(peers[id].session) else None;
              var c := Call(session, timestamp, keyframe, payloadType, payload, takes);
              && packets == c.Sends(old(nextSequence))
              && nextSequence == c.CounterAfter(old(nextSequence))
      ensures id !in peers ==> result == Err(R.Dropped("no such peer"))
      ensures id in peers && |R.PayloadChunks(payload)| >= R.U16 ==> result == Err(R.PayloadTooLarge(|payload|))
      ensures id in peers && |R.PayloadChunks(payload)| < R.U16 ==>
                var n := |R.PayloadChunks(payload)|;
                result == if takes < n then Err(R.Dropped("send failed")) else Ok(n)
    {
      if id !in peers {
        return [], Err(R.Dropped("no such peer"));
      }
      var chunks := R.PayloadChunks(payload);
      if |chunks| >= R.U16 {
        return [], Err(R.PayloadTooLarge(|payload|));
      }
      ghost var f := Call(Some(peers[id].session), timestamp, keyframe, payloadType, payload, takes).Frame(nextSequence);
      var frameSequence := nextSequence;
      nextSequence := (nextSequence + 1) % U32;
      packets, result := SendChunks(peers[id].session, frameSequence, timestamp, keyframe, payloadType, chunks, takes, f);
    }

    /** One record: takes the next counter value, builds the header and seals. */
    method NextRecord(
      session: Session, frameSequence: nat, timestamp: nat, keyframe: bool, payloadType: Byte,
      chunks: seq<seq<Byte>>, index: nat, ghost f: SentFrame)
      returns (packet: Datagram)
      requires f.Proper() && frameSequence == f.base < U32 && nextSequence == f.Index(index) % U32
      requires f == SentFrame(session, frameSequence, timestamp, keyframe, payloadType, f.payload, chunks, f.sent)
      requires index < |chunks|
      modifies this`nextSequence
      ensures packet == f.Packet(index) && nextSequence == f.Index(index + 1) % U32
    {
      var header := R.FrameHeader(
        1, keyframe, payloadType, nextSequence, frameSequence, timestamp, |chunks[index]|, index, |chunks|);
      HeaderIs(f, index, header);
      nextSequence := NextCounter(nextSequence, f.Index(index));
      packet := RecordPacket(session, header, chunks[index]);
      RecordPacketIs(f, index);
    }

    /** The loop over the chunks of one frame. */
    method SendChunks(
      session: Session, frameSequence: nat, timestamp: nat, keyframe: bool, payloadType: Byte,
      chunks: seq<seq<Byte>>, takes: nat, ghost f: SentFrame)
      returns (packets: seq<Datagram>, result: Result<nat, R.TransportError>)
      requires Valid() && f.Proper() && frameSequence == f.base < U32 && nextSequence == f.Index(0) % U32
      requires f == SentFrame(session, frameSequence, timestamp, keyframe, payloadType, f.payload, chunks,
                              if takes < |chunks| then takes else |chunks|)
      modifies this`nextSequence
      ensures Valid()
      ensures packets == FirstPackets(f, f.sent)
      ensures nextSequence == (f.base + f.Used()) % U32
      ensures result == if f.sent < |chunks| then Err(R.Dropped("send failed")) else Ok(|chunks|)
    {
      packets := [];
      for index := 0 to |chunks|
        invariant Valid() && index <= f.sent
        invariant nextSequence == f.Index(index) % U32
        invariant packets == FirstPackets(f, index)
      {
        var packet := NextRecord(session, frameSequence, timestamp, keyframe, payloadType, chunks, index, f);
        if index == takes {
          assert f.base + f.Used() == f.Index(index + 1);
          return packets, Err(R.Dropped("send failed"));
        }
        packets := packets + [packet];
      }
      assert f.base + f.Used() == f.Index(|chunks|);
      result := Ok(|chunks|);
    }
  }

  lemma HeaderIs(f: SentFrame, k: nat, header: R.FrameHeader)
    requires k < |f.chunks| && f.base < U32
    requires header == R.FrameHeader(
                         1, f.keyframe, f.payloadType, f.Index(k) % U32, f.base, f.timestamp, |f.chunks[k]|, k, |f.chunks|)
    ensures header == f.Header(k)
  {
  }

  /** The counter's wrapping increment; it stays the unbounded count modulo 2^32. */
  function NextCounter(counter: nat, ghost count: nat): (next: nat)
    requires counter == count % U32
    ensures next == (count + 1) % U32 && next < U32
  {
    WrapAdd(count, 1);
    (counter + 1) % U32
  }

  lemma RetainedSize(before: map<Addr, Pending>, after: map<Addr, Pending>, id: DeviceId)
    requires after == map a | a in before && before[a].deviceId != id :: before[a]
    ensures |before| != |after| <==> AddrsOf(before, id) != {}
  {
    var gone := AddrsOf(before, id);
    assert before.Keys == after.Keys + gone;
    assert after.Keys !! gone;
  }
}
