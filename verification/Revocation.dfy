/**
 * Control threads and the engine thread interleaving over the trust store, the queue of
 * revoked ids and the endpoint. Each move is one critical section or one step of the
 * engine between two of them; a revoke is two moves, and so is a CONFIRM.
 */
module Revocation {
  import opened Common
  import opened Crypto
  import opened Handshake
  import Hex
  import P = Pairing
  import H = HostEndpoint
  import E = EndpointRuns
  import RW = ReplayWindow

  /** Whether a stored hex key names a public key. */
  type KeyMatch = (string, PublicKey) -> bool

  /** A CONFIRM between reading the trust store and acting on it. */
  datatype Engine =
    | Idle
    | Confirming(packet: Packet, from: H.Addr, clock: H.Clock, entry: H.Pending, allowed: bool)

  datatype State = State(
    db: P.Db,
    inFlight: multiset<DeviceId>,
    queue: seq<DeviceId>,
    drain: seq<DeviceId>,
    engine: Engine,
    endpoint: H.Endpoint)

  const START := State(P.EMPTY, multiset{}, [], [], Idle, H.EMPTY)

  datatype Move =
    | RevokeInStore(key: string, now: nat, works: bool)
    | QueueRevoked(id: DeviceId)
    | Mint(code: string, salt: nat, now: nat)
    | Redeem(request: P.Request, id: DeviceId, now: nat)
    | TakeRevoked
    | DropNext
    | ConfirmRead(packet: Packet, from: H.Addr, clock: H.Clock)
    | ConfirmAct
    | OtherPacket(ev: E.Event)

  /** The authorizer: some stored device with that id and key is not revoked. */
  predicate Allowed(db: P.Db, same: KeyMatch, id: DeviceId, key: PublicKey) {
    exists d :: d in db.devices.Values && d.id == Hex.Encode(id) && same(d.publicKey, key) && !d.revoked
  }

  function LiveEntry(e: H.Endpoint, from: H.Addr, clock: H.Clock): Option<H.Pending> {
    var live := E.Live(e, clock);
    if from in live then Some(live[from]) else None
  }

  /** Which moves can happen: the engine runs its own steps in program order. */
  predicate Enabled(s: State, m: Move) {
    match m
    case RevokeInStore(_, _, _) => true
    case QueueRevoked(id) => id in s.inFlight
    case Mint(_, _, _) => true
    case Redeem(_, _, _) => true
    case TakeRevoked => s.engine.Idle? && s.drain == []
    case DropNext => s.engine.Idle? && s.drain != []
    case ConfirmRead(packet, from, clock) =>
      s.engine.Idle? && s.drain == [] && packet.Confirm? && LiveEntry(s.endpoint, from, clock).Some?
    case ConfirmAct => s.engine.Confirming?
    case OtherPacket(ev) => s.engine.Idle? && s.drain == [] && ev.Arrives? && !ev.packet.Confirm?
  }

  /** The id to queue, when the stored text decodes. */
  function Decoded(key: string): multiset<DeviceId> {
    match Hex.DecodeDeviceId(key)
    case None => multiset{}
    case Some(id) => var back: DeviceId := id; multiset{back}
  }

  function Next(s: State, host: Scalar, same: KeyMatch, m: Move): State
    requires Enabled(s, m) && s.endpoint.Sound()
  {
    match m
    case RevokeInStore(key, now, works) =>
      s.(db := P.Revoke(s.db, key, now),
         inFlight := if P.Active(s.db, key) && works then s.inFlight + Decoded(key) else s.inFlight)
    case QueueRevoked(id) => s.(inFlight := s.inFlight - multiset{id}, queue := s.queue + [id])
    case Mint(code, salt, now) => s.(db := P.Mint(s.db, code, salt, now))
    case Redeem(request, id, now) => s.(db := P.Redeem(s.db, request, Hex.Encode(id), now))
    case TakeRevoked => s.(drain := s.queue, queue := [])
    case DropNext => s.(endpoint := H.Disconnect(s.endpoint, s.drain[0]), drain := s.drain[1..])
    case ConfirmRead(packet, from, clock) =>
      var entry := LiveEntry(s.endpoint, from, clock).value;
      s.(engine := Confirming(packet, from, clock, entry, Allowed(s.db, same, entry.deviceId, entry.deviceStatic)))
    case ConfirmAct =>
      var c := s.engine;
      s.(engine := Idle, endpoint := Act(s.endpoint, c.packet, c.from, c.clock, c.allowed))
    case OtherPacket(ev) => s.(endpoint := E.Step(s.endpoint, host, ev).endpoint)
  }

  /** `handle_packet` on a CONFIRM whose authorizer answered `allowed`. */
  function Act(e: H.Endpoint, packet: Packet, from: H.Addr, clock: H.Clock, allowed: bool): H.Endpoint {
    H.HandleConfirm(H.Prune(e, clock.first), packet, from, (_, _) => allowed, clock).endpoint
  }

  // ----- The invariant -----

  /** Every key of the store is the hex text of an eight-byte id, and its device's own id. */
  ghost predicate Keyed(db: P.Db) {
    forall k :: k in db.devices ==> db.devices[k].id == k && exists id: DeviceId :: k == Hex.Encode(id)
  }

  predicate Trusted(s: State, id: DeviceId) {
    P.Active(s.db, Hex.Encode(id))
  }

  /** The id is on its way to being disconnected. */
  predicate OnItsWay(s: State, id: DeviceId) {
    id in s.inFlight || id in s.queue || id in s.drain
  }

  ghost predicate Covered(s: State) {
    && s.endpoint.Sound() && Keyed(s.db)
    && (forall id :: id in s.endpoint.peers ==> Trusted(s, id) || OnItsWay(s, id))
    && (s.engine.Confirming? ==>
          && s.drain == []
          && LiveEntry(s.endpoint, s.engine.from, s.engine.clock) == Some(s.engine.entry)
          && (s.engine.allowed ==> Trusted(s, s.engine.entry.deviceId) || OnItsWay(s, s.engine.entry.deviceId)))
  }

  /** The id is a peer, or about to become one. */
  predicate Connected(s: State, id: DeviceId) {
    id in s.endpoint.peers || (s.engine.Confirming? && s.engine.allowed && s.engine.entry.deviceId == id)
  }

  /**
   * A revoke whose save fails: the record in memory is revoked, but the error keeps the
   * id from being queued, while the device is connected and nothing else will drop it.
   */
  ghost predicate LosesRevocation(s: State, m: Move) {
    && m.RevokeInStore? && !m.works && P.Active(s.db, m.key)
    && exists id: DeviceId :: Connected(s, id) && Hex.Encode(id) == m.key && !OnItsWay(s, id)
  }

  lemma EncodeInjective(a: DeviceId, b: DeviceId)
    requires Hex.Encode(a) == Hex.Encode(b)
    ensures a == b
  {
    Hex.DecodeEncode(a);
    Hex.DecodeEncode(b);
  }

  lemma AllowedIsActive(db: P.Db, same: KeyMatch, id: DeviceId, key: PublicKey)
    requires Keyed(db) && Allowed(db, same, id, key)
    ensures P.Active(db, Hex.Encode(id))
  {
  }

  /** What a CONFIRM does to the peers once the authorizer has answered. */
  lemma ActPeers(e: H.Endpoint, packet: Packet, from: H.Addr, clock: H.Clock, allowed: bool, id: DeviceId)
    requires e.Sound() && LiveEntry(e, from, clock).Some?
    ensures Act(e, packet, from, clock, allowed).Sound()
    ensures id in Act(e, packet, from, clock, allowed).peers ==>
              id in e.peers || (allowed && id == LiveEntry(e, from, clock).value.deviceId)
  {
  }

  /** A packet other than a CONFIRM makes no peer. */
  lemma OtherPeers(e: H.Endpoint, host: Scalar, ev: E.Event, id: DeviceId)
    requires e.Sound() && ev.Arrives? && !ev.packet.Confirm?
    ensures id in E.Step(e, host, ev).endpoint.peers ==> id in e.peers
  {
  }

  lemma RedeemKeyed(db: P.Db, request: P.Request, id: DeviceId, now: nat)
    requires Keyed(db)
    ensures Keyed(P.Redeem(db, request, Hex.Encode(id), now))
  {
    var after := P.Redeem(db, request, Hex.Encode(id), now);
    if P.Judge(db, request, now) == P.Right {
      forall k | k in after.devices
        ensures after.devices[k].id == k && exists id: DeviceId :: k == Hex.Encode(id)
      {
        if k == Hex.Encode(id) { assert exists i: DeviceId :: k == Hex.Encode(i); }
      }
    }
  }

  lemma RevokeKeyed(db: P.Db, key: string, now: nat)
    requires Keyed(db)
    ensures Keyed(P.Revoke(db, key, now))
  {
  }

  lemma KeyedKept(s: State, host: Scalar, same: KeyMatch, m: Move)
    requires Keyed(s.db) && s.endpoint.Sound() && Enabled(s, m)
    ensures Keyed(Next(s, host, same, m).db)
  {
    match m {
      case RevokeInStore(key, now, _) => RevokeKeyed(s.db, key, now);
      case Redeem(request, id, now) => RedeemKeyed(s.db, request, id, now);
      case _ =>
    }
  }

  /** Moves of the control threads, other than a revoke, take no trust away. */
  lemma TrustKept(s: State, host: Scalar, same: KeyMatch, m: Move, id: DeviceId)
    requires Covered(s) && Enabled(s, m) && !m.RevokeInStore? && Trusted(s, id)
    ensures Trusted(Next(s, host, same, m), id)
  {
  }

  /** A saved revoke puts the id in flight the moment it loses trust. */
  lemma RevokeCovers(s: State, host: Scalar, same: KeyMatch, m: Move, id: DeviceId)
    requires Covered(s) && m.RevokeInStore? && (m.works || Hex.Encode(id) != m.key) && Trusted(s, id)
    ensures Trusted(Next(s, host, same, m), id) || OnItsWay(Next(s, host, same, m), id)
  {
    if Hex.Encode(id) == m.key {
      var b: DeviceId :| m.key == Hex.Encode(b);
      EncodeInjective(id, b);
      Hex.DeviceIdRoundTrip(b);
    }
  }

  /** What every move does to one connected id. */
  lemma IdKept(s: State, host: Scalar, same: KeyMatch, m: Move, id: DeviceId)
    requires Covered(s) && Enabled(s, m) && (Trusted(s, id) || OnItsWay(s, id))
    requires !(m.DropNext? && s.drain[0] == id)
    requires m.RevokeInStore? && !m.works && Hex.Encode(id) == m.key ==> OnItsWay(s, id)
    ensures Trusted(Next(s, host, same, m), id) || OnItsWay(Next(s, host, same, m), id)
  {
    if OnItsWay(s, id) {
    } else if m.RevokeInStore? {
      RevokeCovers(s, host, same, m, id);
    } else {
      TrustKept(s, host, same, m, id);
    }
  }

  /** Unless it loses a revocation, a move leaves every connected id trusted or on its way. */
  lemma ConnectedKept(s: State, host: Scalar, same: KeyMatch, m: Move, id: DeviceId)
    requires Covered(s) && Enabled(s, m) && !LosesRevocation(s, m)
    requires Connected(s, id) && !(m.DropNext? && s.drain[0] == id)
    ensures Trusted(Next(s, host, same, m), id) || OnItsWay(Next(s, host, same, m), id)
  {
    IdKept(s, host, same, m, id);
  }

  lemma PeersKept(s: State, host: Scalar, same: KeyMatch, m: Move, id: DeviceId)
    requires Covered(s) && Enabled(s, m) && id in Next(s, host, same, m).endpoint.peers
    ensures Connected(s, id) && !(m.DropNext? && s.drain[0] == id)
  {
    match m {
      case ConfirmAct =>
        ActPeers(s.endpoint, s.engine.packet, s.engine.from, s.engine.clock, s.engine.allowed, id);
      case OtherPacket(ev) =>
        OtherPeers(s.endpoint, host, ev, id);
      case _ =>
    }
  }

  lemma SoundKept(s: State, host: Scalar, same: KeyMatch, m: Move)
    requires Covered(s) && Enabled(s, m)
    ensures Next(s, host, same, m).endpoint.Sound()
  {
  }

  /** The engine's half-done CONFIRM stays covered too. */
  lemma ConfirmingKept(s: State, host: Scalar, same: KeyMatch, m: Move)
    requires Covered(s) && Enabled(s, m) && !LosesRevocation(s, m) && Next(s, host, same, m).engine.Confirming?
    ensures var t := Next(s, host, same, m);
            && t.drain == []
            && LiveEntry(t.endpoint, t.engine.from, t.engine.clock) == Some(t.engine.entry)
            && (t.engine.allowed ==> Trusted(t, t.engine.entry.deviceId) || OnItsWay(t, t.engine.entry.deviceId))
  {
    if m.ConfirmRead? {
      var entry := LiveEntry(s.endpoint, m.from, m.clock).value;
      if Allowed(s.db, same, entry.deviceId, entry.deviceStatic) {
        AllowedIsActive(s.db, same, entry.deviceId, entry.deviceStatic);
      }
    } else if s.engine.allowed {
      ConnectedKept(s, host, same, m, s.engine.entry.deviceId);
    }
  }

  /**
   * From a covered state, a move leads to a covered state exactly when it is not a revoke
   * of a connected device whose save failed.
   */
  lemma CoveredExactly(s: State, host: Scalar, same: KeyMatch, m: Move)
    requires Covered(s) && Enabled(s, m)
    ensures Covered(Next(s, host, same, m)) <==> !LosesRevocation(s, m)
  {
    var t := Next(s, host, same, m);
    if LosesRevocation(s, m) {
      var id: DeviceId :| Connected(s, id) && Hex.Encode(id) == m.key && !OnItsWay(s, id);
      assert !Trusted(t, id) && !OnItsWay(t, id);
    } else {
      SoundKept(s, host, same, m);
      KeyedKept(s, host, same, m);
      forall id | id in t.endpoint.peers
        ensures Trusted(t, id) || OnItsWay(t, id)
      {
        PeersKept(s, host, same, m, id);
        ConnectedKept(s, host, same, m, id);
      }
      if t.engine.Confirming? {
        ConfirmingKept(s, host, same, m);
      }
    }
  }

  // ----- Whole runs -----

  /** States and moves of a run under any interleaving, in which no revocation is lost. */
  ghost predicate Run(states: seq<State>, moves: seq<Move>, host: Scalar, same: KeyMatch) {
    && |states| == |moves| + 1
    && (forall k :: 0 <= k < |states| ==> states[k].endpoint.Sound())
    && forall k :: 0 <= k < |moves| ==>
         Enabled(states[k], moves[k]) && states[k + 1] == Next(states[k], host, same, moves[k])
         && !LosesRevocation(states[k], moves[k])
  }

  /** A daemon just started on any stored devices. */
  lemma LoadedIsCovered(db: P.Db)
    requires Keyed(db)
    ensures Covered(START.(db := db))
  {
  }

  lemma {:induction false} AlwaysCovered(states: seq<State>, moves: seq<Move>, host: Scalar, same: KeyMatch, n: nat)
    requires Run(states, moves, host, same) && Covered(states[0]) && n < |states|
    ensures Covered(states[n])
  {
    if n > 0 {
      AlwaysCovered(states, moves, host, same, n - 1);
      CoveredExactly(states[n - 1], host, same, moves[n - 1]);
    }
  }

  /** With the queue drained and no revoke between its steps, every peer is an active device. */
  lemma DrainedMeansTrusted(states: seq<State>, moves: seq<Move>, host: Scalar, same: KeyMatch, n: nat, id: DeviceId)
    requires Run(states, moves, host, same) && Covered(states[0]) && n < |states|
    requires states[n].inFlight == multiset{} && states[n].queue == [] && states[n].drain == []
    requires id in states[n].endpoint.peers
    ensures Trusted(states[n], id)
  {
    AlwaysCovered(states, moves, host, same, n);
  }

  /** The id was revoked, both steps, and has not been paired again. */
  predicate Revoked(s: State, id: DeviceId) {
    !Trusted(s, id) && id !in s.inFlight
  }

  /** The code is right, so the device is registered anew. */
  predicate PairsAgain(s: State, m: Move, id: DeviceId) {
    m.Redeem? && m.id == id && P.Judge(s.db, m.request, m.now) == P.Right
  }

  /** No other move gives a revoked id its trust back. */
  lemma DistrustStays(s: State, host: Scalar, same: KeyMatch, m: Move, id: DeviceId)
    requires Covered(s) && Enabled(s, m) && !Trusted(s, id) && !PairsAgain(s, m, id)
    ensures !Trusted(Next(s, host, same, m), id)
  {
    if m.Redeem? && Hex.Encode(m.id) == Hex.Encode(id) {
      EncodeInjective(m.id, id);
    }
  }

  /** Nor puts it back in flight, in the queue or on the drain list. */
  lemma NotRequeued(s: State, host: Scalar, same: KeyMatch, m: Move, id: DeviceId)
    requires Covered(s) && Enabled(s, m) && Revoked(s, id)
    ensures var t := Next(s, host, same, m);
            && id !in t.inFlight
            && (id !in s.queue ==> id !in t.queue)
            && (id !in s.queue && id !in s.drain ==> id !in t.drain)
  {
    if m.RevokeInStore? && P.Active(s.db, m.key) {
      var b: DeviceId :| m.key == Hex.Encode(b);
      Hex.DeviceIdRoundTrip(b);
    }
  }

  lemma RevokedStays(s: State, host: Scalar, same: KeyMatch, m: Move, id: DeviceId)
    requires Covered(s) && Enabled(s, m) && Revoked(s, id) && !PairsAgain(s, m, id)
    ensures Revoked(Next(s, host, same, m), id)
    ensures id !in s.queue ==> id !in Next(s, host, same, m).queue
    ensures id !in s.queue && id !in s.drain ==> id !in Next(s, host, same, m).drain
  {
    DistrustStays(s, host, same, m, id);
    NotRequeued(s, host, same, m, id);
  }

  /** Gone from the queue and the drain list as well, so by the invariant not a peer. */
  predicate Gone(s: State, id: DeviceId) {
    Revoked(s, id) && id !in s.queue && id !in s.drain
  }

  lemma {:induction false} StaysGone(
    states: seq<State>, moves: seq<Move>, host: Scalar, same: KeyMatch, id: DeviceId, from: nat, n: nat)
    requires Run(states, moves, host, same) && Covered(states[0]) && from <= n < |states| && Gone(states[from], id)
    requires forall k :: from <= k < |moves| ==> !PairsAgain(states[k], moves[k], id)
    ensures Gone(states[n], id)
    decreases n
  {
    if n > from {
      StaysGone(states, moves, host, same, id, from, n - 1);
      AlwaysCovered(states, moves, host, same, n - 1);
      RevokedStays(states[n - 1], host, same, moves[n - 1], id);
    }
  }

  lemma {:induction false} StaysRevoked(
    states: seq<State>, moves: seq<Move>, host: Scalar, same: KeyMatch, id: DeviceId, from: nat, n: nat)
    requires Run(states, moves, host, same) && Covered(states[0]) && from <= n < |states| && Revoked(states[from], id)
    requires forall k :: from <= k < |moves| ==> !PairsAgain(states[k], moves[k], id)
    ensures Revoked(states[n], id)
    ensures id !in states[from].queue ==> id !in states[n].queue
    decreases n
  {
    if n > from {
      StaysRevoked(states, moves, host, same, id, from, n - 1);
      AlwaysCovered(states, moves, host, same, n - 1);
      RevokedStays(states[n - 1], host, same, moves[n - 1], id);
    }
  }

  /**
   * Revoking kills the session: once both steps of a revoke are done, the engine's next
   * `take_revoked` (move `t`), drained by state `u`, leaves the device disconnected in
   * every state from `u` on, whatever the other threads do, until it is paired again.
   */
  lemma RevokeDisconnects(
    states: seq<State>, moves: seq<Move>, host: Scalar, same: KeyMatch, id: DeviceId, r: nat, t: nat, u: nat, n: nat)
    requires Run(states, moves, host, same) && Covered(states[0])
    requires r <= t < |moves| && t < u <= n < |states|
    requires Revoked(states[r], id) && moves[t].TakeRevoked? && states[u].drain == []
    requires forall k :: r <= k < |moves| ==> !PairsAgain(states[k], moves[k], id)
    ensures id !in states[n].endpoint.peers
  {
    StaysRevoked(states, moves, host, same, id, r, t);
    assert states[t + 1] == Next(states[t], host, same, moves[t]);
    AlwaysCovered(states, moves, host, same, t);
    RevokedStays(states[t], host, same, moves[t], id);
    StaysRevoked(states, moves, host, same, id, t + 1, u);
    StaysGone(states, moves, host, same, id, u, n);
    AlwaysCovered(states, moves, host, same, n);
  }

  // ----- A run that loses a revocation -----

  /** A failing revoke of a connected device: revoked in memory, never queued, and revoking again does nothing. */
  lemma FailedRevoke(s: State, host: Scalar, same: KeyMatch, id: DeviceId, now: nat)
    requires s.endpoint.Sound() && id in s.endpoint.peers && Trusted(s, id) && !OnItsWay(s, id)
    ensures var m := RevokeInStore(Hex.Encode(id), now, false);
            var t := Next(s, host, same, m);
            && Enabled(s, m) && LosesRevocation(s, m)
            && id in t.endpoint.peers && !Trusted(t, id) && !OnItsWay(t, id)
            && P.Revoke(t.db, Hex.Encode(id), now) == t.db
  {
    assert Connected(s, id);
  }

  /** The store after `d` was paired with the code `code`. */
  function PairedDb(d: Device, r: P.Request): P.Db {
    P.Db(map[Hex.Encode(d.id) := P.NewDevice(r, Hex.Encode(d.id), 0)], None)
  }

  lemma Pairs(d: Device, r: P.Request, code: string)
    requires r.Acceptable() && P.ParseCode(r.code) == Some(code)
    ensures P.Redeem(P.Mint(P.EMPTY, code, 0, 0), r, Hex.Encode(d.id), 0) == PairedDb(d, r)
  {
    assert P.Judge(P.Mint(P.EMPTY, code, 0, 0), r, 0) == P.Right;
  }

  lemma PairedIsAllowed(d: Device, r: P.Request, same: KeyMatch)
    requires same(r.key, Pub(d.secret))
    ensures Allowed(PairedDb(d, r), same, d.id, Pub(d.secret))
    ensures P.Active(PairedDb(d, r), Hex.Encode(d.id))
  {
    var key := Hex.Encode(d.id);
    assert PairedDb(d, r).devices[key] in PairedDb(d, r).devices.Values;
  }

  /** The endpoint with one live entry turns it into a peer. */
  lemma Confirms(d: Device, session: Session)
    ensures var e := H.Endpoint(map[0 := H.Pending(d.id, Pub(d.secret), session, 0)], map[]);
            && LiveEntry(e, 0, CLOCK) == Some(H.Pending(d.id, Pub(d.secret), session, 0))
            && Act(e, ConfirmPacket(session), 0, CLOCK, true)
               == H.Endpoint(map[], map[d.id := H.Peer(0, session, RW.FRESH)])
  {
    var e := H.Endpoint(map[0 := H.Pending(d.id, Pub(d.secret), session, 0)], map[]);
    assert H.Prune(e, 0) == e;
  }

  const CLOCK := H.Clock(0, 0, 0)

  /** The five states on the way from an empty store to a connected device. */
  function Minted(code: string): State {
    START.(db := P.Mint(P.EMPTY, code, 0, 0))
  }

  function PairedState(d: Device, r: P.Request): State {
    START.(db := PairedDb(d, r))
  }

  function KnockedState(d: Device, r: P.Request, session: Session): State {
    PairedState(d, r).(endpoint := H.Endpoint(map[0 := H.Pending(d.id, Pub(d.secret), session, 0)], map[]))
  }

  function ReadState(d: Device, r: P.Request, session: Session): State {
    KnockedState(d, r, session).(
      engine := Confirming(ConfirmPacket(session), 0, CLOCK, H.Pending(d.id, Pub(d.secret), session, 0), true))
  }

  function ConnectedState(d: Device, r: P.Request, session: Session): State {
    PairedState(d, r).(endpoint := H.Endpoint(map[], map[d.id := H.Peer(0, session, RW.FRESH)]))
  }

  /** One move that is no revoke. */
  ghost predicate Goes(s: State, host: Scalar, same: KeyMatch, m: Move, t: State) {
    s.endpoint.Sound() && Enabled(s, m) && !m.RevokeInStore? && Next(s, host, same, m) == t
  }

  lemma GoesToPaired(host: Scalar, same: KeyMatch, d: Device, r: P.Request, code: string)
    requires r.Acceptable() && P.ParseCode(r.code) == Some(code)
    ensures Goes(START, host, same, Mint(code, 0, 0), Minted(code))
    ensures Goes(Minted(code), host, same, Redeem(r, d.id, 0), PairedState(d, r))
  {
    Pairs(d, r, code);
  }

  lemma GoesToKnocked(host: Scalar, same: KeyMatch, d: Device, r: P.Request)
    requires d.hostStatic == Pub(host)
    ensures d.K1().Some?
    ensures Goes(PairedState(d, r), host, same, OtherPacket(E.Knock(d, 0)), KnockedState(d, r, HostSession(d, host, 7)))
  {
    E.FirstKnock(host, d);
  }

  lemma GoesToRead(host: Scalar, same: KeyMatch, d: Device, r: P.Request, session: Session)
    requires same(r.key, Pub(d.secret))
    ensures Goes(KnockedState(d, r, session), host, same, ConfirmRead(ConfirmPacket(session), 0, CLOCK),
                 ReadState(d, r, session))
  {
    PairedIsAllowed(d, r, same);
    Confirms(d, session);
  }

  lemma GoesToConnected(host: Scalar, same: KeyMatch, d: Device, r: P.Request, session: Session)
    ensures Goes(ReadState(d, r, session), host, same, ConfirmAct, ConnectedState(d, r, session))
  {
    Confirms(d, session);
  }

  lemma RunExtends(states: seq<State>, moves: seq<Move>, host: Scalar, same: KeyMatch, m: Move, t: State)
    requires Run(states, moves, host, same) && Goes(states[|moves|], host, same, m, t) && t.endpoint.Sound()
    ensures Run(states + [t], moves + [m], host, same)
  {
    var ss, ms := states + [t], moves + [m];
    forall k | 0 <= k < |ms|
      ensures Enabled(ss[k], ms[k]) && ss[k + 1] == Next(ss[k], host, same, ms[k]) && !LosesRevocation(ss[k], ms[k])
    {
      if k < |moves| {
        assert ss[k] == states[k] && ss[k + 1] == states[k + 1] && ms[k] == moves[k];
      } else {
        assert ss[k] == states[|moves|] && ms[k] == m && ss[k + 1] == t;
      }
    }
  }

  /** Minting and redeeming a code. */
  lemma RunToPaired(host: Scalar, same: KeyMatch, d: Device, r: P.Request, code: string)
    returns (states: seq<State>, moves: seq<Move>)
    requires r.Acceptable() && P.ParseCode(r.code) == Some(code)
    ensures Run(states, moves, host, same) && states[0] == START && states[|moves|] == PairedState(d, r)
  {
    GoesToPaired(host, same, d, r, code);
    states, moves := [START], [];
    RunExtends(states, moves, host, same, Mint(code, 0, 0), Minted(code));
    states, moves := states + [Minted(code)], moves + [Mint(code, 0, 0)];
    RunExtends(states, moves, host, same, Redeem(r, d.id, 0), PairedState(d, r));
    states, moves := states + [PairedState(d, r)], moves + [Redeem(r, d.id, 0)];
  }

  /** Then INIT and CONFIRM: five moves from an empty store to a connected device. */
  lemma Connects(host: Scalar, same: KeyMatch, d: Device, r: P.Request, code: string, session: Session)
    returns (states: seq<State>, moves: seq<Move>)
    requires d.hostStatic == Pub(host) && same(r.key, Pub(d.secret)) && session == HostSession(d, host, 7)
    requires r.Acceptable() && P.ParseCode(r.code) == Some(code)
    ensures Run(states, moves, host, same) && states[0] == START
    ensures states[|moves|] == ConnectedState(d, r, session)
  {
    states, moves := RunToPaired(host, same, d, r, code);
    GoesToKnocked(host, same, d, r);
    RunExtends(states, moves, host, same, OtherPacket(E.Knock(d, 0)), KnockedState(d, r, session));
    states, moves := states + [KnockedState(d, r, session)], moves + [OtherPacket(E.Knock(d, 0))];
    GoesToRead(host, same, d, r, session);
    var read := ConfirmRead(ConfirmPacket(session), 0, CLOCK);
    RunExtends(states, moves, host, same, read, ReadState(d, r, session));
    states, moves := states + [ReadState(d, r, session)], moves + [read];
    GoesToConnected(host, same, d, r, session);
    RunExtends(states, moves, host, same, ConfirmAct, ConnectedState(d, r, session));
    states, moves := states + [ConnectedState(d, r, session)], moves + [ConfirmAct];
  }

  /** From an empty store, a run after which a failing revoke leaves a connected device that nothing will drop. */
  lemma LostRevocation(host: Scalar, same: KeyMatch, d: Device, r: P.Request, code: string)
    returns (states: seq<State>, moves: seq<Move>)
    requires d.hostStatic == Pub(host) && same(r.key, Pub(d.secret))
    requires r.Acceptable() && P.ParseCode(r.code) == Some(code)
    ensures Run(states, moves, host, same) && states[0] == START
    ensures var s, m := states[|moves|], RevokeInStore(Hex.Encode(d.id), 0, false);
            && Enabled(s, m) && LosesRevocation(s, m)
            && var t := Next(s, host, same, m);
            d.id in t.endpoint.peers && !Trusted(t, d.id) && !OnItsWay(t, d.id)
            && P.Revoke(t.db, Hex.Encode(d.id), 0) == t.db
  {
    states, moves := Connects(host, same, d, r, code, HostSession(d, host, 7));
    PairedIsAllowed(d, r, same);
    FailedRevoke(states[|moves|], host, same, d.id, 0);
  }
}
