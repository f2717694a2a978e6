/**
 * Who becomes a peer: along every interleaving, only a device whose stored, unrevoked key
 * was the one presented, at the moment the engine asked.
 */
module Authorization {
  import opened Common
  import opened Crypto
  import opened Handshake
  import opened Revocation
  import Hex
  import P = Pairing
  import H = HostEndpoint
  import E = EndpointRuns

  /** The store holds this id, not revoked, with the key presented. */
  predicate Holds(db: P.Db, same: KeyMatch, id: DeviceId, key: PublicKey) {
    var text := Hex.Encode(id);
    text in db.devices && !db.devices[text].revoked && same(db.devices[text].publicKey, key)
  }

  /** The authorizer says yes exactly to a stored, unrevoked id that presents its stored key. */
  lemma AllowedExactly(db: P.Db, same: KeyMatch, id: DeviceId, key: PublicKey)
    requires Keyed(db)
    ensures Allowed(db, same, id, key) <==> Holds(db, same, id, key)
  {
    var text := Hex.Encode(id);
    if Holds(db, same, id, key) {
      assert db.devices[text] in db.devices.Values;
    }
    if Allowed(db, same, id, key) {
      var d :| d in db.devices.Values && d.id == text && same(d.publicKey, key) && !d.revoked;
      var k :| k in db.devices && db.devices[k] == d;
    }
  }

  /** States and moves under any interleaving, lost revocations included. */
  ghost predicate Execution(states: seq<State>, moves: seq<Move>, host: Scalar, same: KeyMatch) {
    && |states| == |moves| + 1
    && (forall k :: 0 <= k < |states| ==> states[k].endpoint.Sound())
    && forall k :: 0 <= k < |moves| ==>
         Enabled(states[k], moves[k]) && states[k + 1] == Next(states[k], host, same, moves[k])
  }

  /** A daemon just started on stored devices. */
  ghost predicate Starts(s: State) {
    Keyed(s.db) && s.engine.Idle? && s.endpoint.peers == map[]
  }

  lemma {:induction false} AlwaysKeyed(states: seq<State>, moves: seq<Move>, host: Scalar, same: KeyMatch, n: nat)
    requires Execution(states, moves, host, same) && Keyed(states[0].db) && n < |states|
    ensures Keyed(states[n].db)
    decreases n
  {
    if n > 0 {
      AlwaysKeyed(states, moves, host, same, n - 1);
      assert states[n - 1 + 1] == Next(states[n - 1], host, same, moves[n - 1]);
      KeyedKept(states[n - 1], host, same, moves[n - 1]);
    }
  }

  // ----- From the question to the answer -----

  /** The CONFIRM in hand at `s` was read by move `m` from state `r`. */
  ghost predicate ReadAs(r: State, m: Move, same: KeyMatch, s: State) {
    && s.engine.Confirming?
    && m == ConfirmRead(s.engine.packet, s.engine.from, s.engine.clock)
    && LiveEntry(r.endpoint, s.engine.from, s.engine.clock) == Some(s.engine.entry)
    && s.engine.allowed == Allowed(r.db, same, s.engine.entry.deviceId, s.engine.entry.deviceStatic)
    && s.endpoint == r.endpoint
  }

  /** While a CONFIRM is in hand, only control threads move, and they leave engine and endpoint alone. */
  lemma ConfirmingWaits(s: State, host: Scalar, same: KeyMatch, m: Move)
    requires s.endpoint.Sound() && Enabled(s, m) && Next(s, host, same, m).engine.Confirming? && !m.ConfirmRead?
    ensures Next(s, host, same, m).engine == s.engine && Next(s, host, same, m).endpoint == s.endpoint
  {
  }

  lemma JustRead(s: State, host: Scalar, same: KeyMatch, m: Move)
    requires s.endpoint.Sound() && Enabled(s, m) && m.ConfirmRead?
    ensures ReadAs(s, m, same, Next(s, host, same, m))
  {
  }

  lemma {:induction false} ReadBefore(states: seq<State>, moves: seq<Move>, host: Scalar, same: KeyMatch, n: nat)
    returns (k: nat)
    requires Execution(states, moves, host, same) && states[0].engine.Idle? && n < |states|
    requires states[n].engine.Confirming?
    ensures k < n && ReadAs(states[k], moves[k], same, states[n])
    decreases n
  {
    assert states[n - 1 + 1] == Next(states[n - 1], host, same, moves[n - 1]);
    if moves[n - 1].ConfirmRead? {
      k := n - 1;
      JustRead(states[k], host, same, moves[k]);
    } else {
      ConfirmingWaits(states[n - 1], host, same, moves[n - 1]);
      k := ReadBefore(states, moves, host, same, n - 1);
    }
  }

  // ----- Where peers come from -----

  predicate Kept(s: State, t: State, id: DeviceId)
    requires id in t.endpoint.peers
  {
    && id in s.endpoint.peers
    && s.endpoint.peers[id].addr == t.endpoint.peers[id].addr
    && s.endpoint.peers[id].session == t.endpoint.peers[id].session
  }

  /** The engine turns the entry in hand into a peer. */
  predicate Makes(s: State, t: State, id: DeviceId)
    requires id in t.endpoint.peers
  {
    && s.engine.Confirming? && s.engine.allowed && s.engine.entry.deviceId == id
    && VerifyConfirm(s.engine.entry.session, s.engine.packet)
    && t.endpoint.peers[id].addr == s.engine.from && t.endpoint.peers[id].session == s.engine.entry.session
  }

  lemma ActMakes(s: State, host: Scalar, same: KeyMatch, id: DeviceId)
    requires s.endpoint.Sound() && Enabled(s, ConfirmAct)
    requires LiveEntry(s.endpoint, s.engine.from, s.engine.clock) == Some(s.engine.entry)
    requires id in Next(s, host, same, ConfirmAct).endpoint.peers
    ensures Kept(s, Next(s, host, same, ConfirmAct), id) || Makes(s, Next(s, host, same, ConfirmAct), id)
  {
  }

  lemma OtherKeeps(s: State, host: Scalar, same: KeyMatch, ev: E.Event, id: DeviceId)
    requires s.endpoint.Sound() && Enabled(s, OtherPacket(ev))
    requires id in Next(s, host, same, OtherPacket(ev)).endpoint.peers
    ensures Kept(s, Next(s, host, same, OtherPacket(ev)), id)
  {
    if E.Step(s.endpoint, host, ev).inserted.Some? {
      E.InsertionTakesEntry(s.endpoint, host, ev);
    }
    E.PeerBefore(s.endpoint, host, ev, id);
  }

  lemma StepMakes(s: State, host: Scalar, same: KeyMatch, m: Move, id: DeviceId)
    requires s.endpoint.Sound() && Enabled(s, m) && id in Next(s, host, same, m).endpoint.peers
    requires m.ConfirmAct? ==> LiveEntry(s.endpoint, s.engine.from, s.engine.clock) == Some(s.engine.entry)
    ensures Kept(s, Next(s, host, same, m), id) || (m.ConfirmAct? && Makes(s, Next(s, host, same, m), id))
  {
    match m {
      case ConfirmAct => ActMakes(s, host, same, id);
      case OtherPacket(ev) => OtherKeeps(s, host, same, ev, id);
      case _ =>
    }
  }

  /**
   * Move `m` read, in state `s`, a CONFIRM from `addr` that verifies under the session of
   * its live entry, and the store then held the id, not revoked, with the key of the entry.
   */
  ghost predicate Vouches(s: State, m: Move, same: KeyMatch, id: DeviceId, addr: H.Addr, session: Session) {
    && m.ConfirmRead? && m.from == addr && VerifyConfirm(session, m.packet)
    && var entry := LiveEntry(s.endpoint, addr, m.clock);
    && entry.Some? && entry.value.deviceId == id && entry.value.session == session
    && Hex.Encode(id) in s.db.devices
    && !s.db.devices[Hex.Encode(id)].revoked
    && same(s.db.devices[Hex.Encode(id)].publicKey, entry.value.deviceStatic)
  }

  lemma MadeIsVouchedFor(r: State, m: Move, same: KeyMatch, s: State, t: State, id: DeviceId)
    requires Keyed(r.db) && ReadAs(r, m, same, s) && id in t.endpoint.peers && Makes(s, t, id)
    ensures Vouches(r, m, same, id, t.endpoint.peers[id].addr, t.endpoint.peers[id].session)
  {
    AllowedExactly(r.db, same, id, s.engine.entry.deviceStatic);
  }

  /** In every state of every interleaving, each peer was vouched for when the engine asked. */
  lemma {:induction false} PeerWasVouchedFor(
    states: seq<State>, moves: seq<Move>, host: Scalar, same: KeyMatch, n: nat, id: DeviceId)
    returns (k: nat)
    requires Execution(states, moves, host, same) && Starts(states[0]) && n < |states|
    requires id in states[n].endpoint.peers
    ensures k < n
    ensures Vouches(states[k], moves[k], same, id, states[n].endpoint.peers[id].addr, states[n].endpoint.peers[id].session)
    decreases n
  {
    var s, m := states[n - 1], moves[n - 1];
    assert states[n - 1 + 1] == Next(s, host, same, m);
    var r := 0;
    if m.ConfirmAct? {
      r := ReadBefore(states, moves, host, same, n - 1);
    }
    StepMakes(s, host, same, m, id);
    if Kept(s, states[n], id) {
      k := PeerWasVouchedFor(states, moves, host, same, n - 1, id);
    } else {
      k := r;
      AlwaysKeyed(states, moves, host, same, r);
      MadeIsVouchedFor(states[r], moves[r], same, s, states[n], id);
    }
  }
}
