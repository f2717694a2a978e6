/** What the endpoint does for a device that keeps to the protocol, and to one that is cut off. */
module EndpointOutcomes {
  import opened Common
  import opened Crypto
  import opened Packets
  import opened Handshake
  import opened HostEndpoint
  import opened EndpointRuns
  import R = Records
  import RW = ReplayWindow

  // ----- A handshake in time succeeds -----

  /** The ten seconds after `t0`. */
  predicate InTime(now: nat, t0: nat) {
    t0 <= now < t0 + 10_000
  }

  /** An event that concerns neither the address nor the device, within ten seconds. */
  predicate Elsewhere(ev: Event, a: Addr, id: DeviceId, t0: nat) {
    match ev
    case Drops(x) => x != id
    case Arrives(_, from, _, clock, _, _) => from != a && InTime(clock.first, t0) && InTime(clock.second, t0)
  }

  lemma StaysLive(e: Endpoint, clock: Clock, a: Addr, p: Pending)
    requires a in e.pending && e.pending[a] == p && InTime(clock.first, p.createdAt) && InTime(clock.second, p.createdAt)
    ensures a in Prune(e, clock.first).pending && Prune(e, clock.first).pending[a] == p
    ensures a in Live(e, clock) && Live(e, clock)[a] == p
  {
  }

  /** An entry outlives every event that does not concern it. */
  lemma EntryStays(e: Endpoint, host: Scalar, ev: Event, a: Addr, p: Pending)
    requires e.Sound() && a in e.pending && e.pending[a] == p && Elsewhere(ev, a, p.deviceId, p.createdAt)
    ensures a in Step(e, host, ev).endpoint.pending && Step(e, host, ev).endpoint.pending[a] == p
  {
    if ev.Arrives? {
      StaysLive(e, ev.clock, a, p);
    }
  }

  lemma {:induction false} EntrySurvives(host: Scalar, events: seq<Event>, a: Addr, p: Pending, i: nat, j: nat)
    requires i <= j <= |events|
    requires a in After(host, events[..i]).pending && After(host, events[..i]).pending[a] == p
    requires forall k :: i <= k < j ==> Elsewhere(events[k], a, p.deviceId, p.createdAt)
    ensures a in After(host, events[..j]).pending && After(host, events[..j]).pending[a] == p
    decreases j
  {
    if i < j {
      EntrySurvives(host, events, a, p, i, j - 1);
      AfterNext(host, events, j - 1);
      EntryStays(After(host, events[..j - 1]), host, events[j - 1], a, p);
    }
  }

  /** What a CONFIRM does from an address with a live entry: the entry goes, in every case. */
  lemma ConfirmOutcome(e: Endpoint, host: Scalar, ev: Event, p: Pending)
    requires e.Sound() && ev.Arrives? && ev.packet.Confirm?
    requires ev.from in Live(e, ev.clock) && Live(e, ev.clock)[ev.from] == p
    ensures var t := Step(e, host, ev).endpoint;
            && ev.from !in t.pending
            && t.peers == if !ev.auth(p.deviceId, p.deviceStatic) then e.peers - {p.deviceId}
                          else if VerifyConfirm(p.session, ev.packet)
                          then e.peers[p.deviceId := Peer(ev.from, p.session, RW.FRESH)]
                          else e.peers
  {
  }

  /** The INIT `init` was answered from `a`, and `confirm` closes that handshake in time. */
  predicate Closes(host: Scalar, init: Event, confirm: Event) {
    && init.Arrives? && init.packet.Init? && AcceptInit(host, init.packet, init.eph).Ok?
    && confirm.Arrives? && confirm.packet.Confirm? && confirm.from == init.from
    && InTime(confirm.clock.first, init.clock.third) && InTime(confirm.clock.second, init.clock.third)
    && VerifyConfirm(AcceptInit(host, init.packet, init.eph).value.session, confirm.packet)
    && confirm.auth(init.packet.deviceId, init.packet.deviceStatic)
  }

  /**
   * A device whose INIT was answered and whose CONFIRM follows within ten seconds, still
   * authorized, becomes a peer with the session of that INIT, whatever others do meanwhile.
   */
  lemma ConfirmSucceeds(host: Scalar, events: seq<Event>, i: nat, j: nat)
    requires i < j < |events| && Closes(host, events[i], events[j])
    requires Step(After(host, events[..i]), host, events[i]).reply.Some?
    requires forall k :: i < k < j ==>
               Elsewhere(events[k], events[i].from, events[i].packet.deviceId, events[i].clock.third)
    ensures var init, t := events[i], After(host, events[..j + 1]);
            && init.packet.deviceId in t.peers
            && t.peers[init.packet.deviceId] ==
               Peer(init.from, AcceptInit(host, init.packet, init.eph).value.session, RW.FRESH)
  {
    var init, a := events[i], events[i].from;
    AnswerMeans(After(host, events[..i]), host, init);
    AfterNext(host, events, i);
    var p := After(host, events[..i + 1]).pending[a];
    EntrySurvives(host, events, a, p, i + 1, j);
    StaysLive(After(host, events[..j]), events[j].clock, a, p);
    ConfirmOutcome(After(host, events[..j]), host, events[j], p);
    AfterNext(host, events, j);
  }

  // ----- Data -----

  /** A datagram the device sealed moves its window, to the committed number, and nothing else. */
  lemma DeviceDataMoves(e: Endpoint, host: Scalar, ev: Event, id: DeviceId, sequence: nat, record: seq<Byte>)
    requires e.Sound() && id in e.peers && sequence < U32 && RW.Check(e.peers[id].window, sequence)
    requires R.ParseRecord(record).Ok? && R.ParseRecord(record).value.header.sequence == sequence
    requires ev.Arrives? && ev.pick == id && ev.from == e.peers[id].addr
    requires ev.packet == Data(SealPacket(e.peers[id].session, DeviceToHost, sequence, record))
    ensures var t := Step(e, host, ev).endpoint;
            && t.peers == e.peers[id := e.peers[id].(window := RW.Commit(e.peers[id].window, sequence))]
            && t.peers != e.peers
  {
    ClearSequence(sequence);
    CommitChanges(e.peers[id].window, sequence);
    DataOpens(e.peers[id], sequence, record);
  }

  lemma DataOpens(peer: Peer, sequence: nat, record: seq<Byte>)
    requires peer.window.Valid() && sequence < U32 && RW.Check(peer.window, sequence)
    requires R.ParseRecord(record).Ok? && R.ParseRecord(record).value.header.sequence == sequence
    ensures OpenPacket(peer.session, DeviceToHost, peer.window, SealPacket(peer.session, DeviceToHost, sequence, record))
            == Opened(RW.Commit(peer.window, sequence), R.ParseRecord(record))
  {
    ClearSequence(sequence);
  }

  /** A data packet changes no peer at another address. */
  lemma DataElsewhere(e: Endpoint, host: Scalar, ev: Event, id: DeviceId)
    requires e.Sound() && ev.Arrives? && ev.packet.Data? && id in e.peers && e.peers[id].addr != ev.from
    ensures id in Step(e, host, ev).endpoint.peers && Step(e, host, ev).endpoint.peers[id] == e.peers[id]
  {
  }

  // ----- Disconnecting -----

  /** Nothing of the device is left, and nothing of any other is touched. */
  lemma DisconnectPurges(e: Endpoint, id: DeviceId, other: DeviceId, a: Addr)
    requires other != id
    ensures var t := Disconnect(e, id);
            && id !in t.peers && AddrsOf(t.pending, id) == {}
            && (other in t.peers <==> other in e.peers) && (other in e.peers ==> t.peers[other] == e.peers[other])
            && (a in e.pending && e.pending[a].deviceId != id ==> a in t.pending && t.pending[a] == e.pending[a])
  {
  }
}
