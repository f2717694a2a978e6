/** Whole runs of the endpoint: where its peers come from, and how its tables stay bounded. */
module EndpointRuns {
  import opened Common
  import opened Crypto
  import opened Packets
  import opened Handshake
  import opened HostEndpoint
  import RW = ReplayWindow

  /** A datagram handled, with everything the call takes from outside; or a disconnect. */
  datatype Event =
    | Arrives(packet: Packet, from: Addr, auth: Authorizer, clock: Clock, eph: Scalar, pick: DeviceId)
    | Drops(id: DeviceId)

  function Step(e: Endpoint, host: Scalar, ev: Event): (h: Handled)
    requires e.Sound()
    ensures h.endpoint.Sound()
  {
    match ev
    case Drops(id) => Handled(Disconnect(e, id), None, None)
    case Arrives(packet, from, auth, clock, eph, pick) =>
      HandledSound(e, host, packet, from, auth, clock, eph, pick);
      HandlePacket(e, host, packet, from, auth, clock, eph, pick)
  }

  lemma DataSound(e: Endpoint, datagram: Datagram, from: Addr, pick: DeviceId)
    requires e.Sound()
    ensures HandleData(e, datagram, from, pick).Sound()
  {
    if pick in e.peers {
      WindowMovesOnlyOnOk(e.peers[pick].session, DeviceToHost, e.peers[pick].window, datagram);
    }
  }

  lemma InitKeepsAllPeers(
    e: Endpoint, host: Scalar, packet: Packet, from: Addr, auth: Authorizer, clock: Clock, eph: Scalar)
    ensures HandleInit(e, host, packet, from, auth, clock, eph).endpoint.peers == e.peers
  {
  }

  /** Every handler keeps the windows valid. */
  lemma HandledSound(
    e: Endpoint, host: Scalar, packet: Packet, from: Addr, auth: Authorizer, clock: Clock, eph: Scalar, pick: DeviceId)
    requires e.Sound()
    ensures HandlePacket(e, host, packet, from, auth, clock, eph, pick).endpoint.Sound()
  {
    var p := Prune(e, clock.first);
    InitKeepsAllPeers(p, host, packet, from, auth, clock, eph);
    if packet.Data? {
      DataSound(p, packet.datagram, from, pick);
    }
  }

  /** The endpoint after a run from the start. */
  function After(host: Scalar, events: seq<Event>): (e: Endpoint)
    ensures e.Sound()
  {
    if events == [] then EMPTY else Step(After(host, events[..|events| - 1]), host, events[|events| - 1]).endpoint
  }

  // ----- A run as a history -----

  /** What an event left to be known: its source, the entry it answered with, the peer it made. */
  datatype Note = Note(from: Option<Addr>, answered: Option<Pending>, inserted: Option<DeviceId>)

  /** How tables change: entries and peers are old ones, or those the note tells of. */
  ghost predicate Evolves(s: Endpoint, n: Note, t: Endpoint) {
    && (forall a :: a in t.pending ==>
          || (n.from == Some(a) && n.answered == Some(t.pending[a]))
          || (a in s.pending && t.pending[a] == s.pending[a] &&
              !(n.from == Some(a) && (n.answered.Some? || n.inserted.Some?))))
    && (forall id :: id in t.peers ==>
          || n.inserted == Some(id)
          || (id in s.peers && t.peers[id].addr == s.peers[id].addr && t.peers[id].session == s.peers[id].session))
  }

  ghost predicate History(states: seq<Endpoint>, notes: seq<Note>) {
    && |states| == |notes| + 1 && states[0] == EMPTY
    && forall k :: 0 <= k < |notes| ==> Evolves(states[k], notes[k], states[k + 1])
  }

  /** The latest answered INIT from `addr` before event `n`, not yet used up by an insertion. */
  predicate Source(notes: seq<Note>, n: nat, addr: Addr, i: nat) {
    && i < n <= |notes| && notes[i].from == Some(addr) && notes[i].answered.Some?
    && forall j :: i < j < n && notes[j].from == Some(addr) ==> notes[j].answered.None? && notes[j].inserted.None?
  }

  /** Every entry in the table is that of the latest unused answered INIT from its address. */
  lemma {:induction false} PendingHasSource(states: seq<Endpoint>, notes: seq<Note>, n: nat, a: Addr) returns (i: nat)
    requires History(states, notes) && n <= |notes| && a in states[n].pending
    ensures Source(notes, n, a, i) && notes[i].answered == Some(states[n].pending[a])
    decreases n
  {
    i := 0;
    if n > 0 {
      assert Evolves(states[n - 1], notes[n - 1], states[n]);
      if notes[n - 1].from == Some(a) && notes[n - 1].answered == Some(states[n].pending[a]) {
        i := n - 1;
      } else {
        i := PendingHasSource(states, notes, n - 1, a);
      }
    }
  }

  /** Every peer was made by one event, and kept its address and session since. */
  lemma {:induction false} PeerHasInsertion(states: seq<Endpoint>, notes: seq<Note>, n: nat, id: DeviceId) returns (j: nat)
    requires History(states, notes) && n <= |notes| && id in states[n].peers
    ensures j < n && notes[j].inserted == Some(id) && id in states[j + 1].peers
    ensures states[j + 1].peers[id].addr == states[n].peers[id].addr
    ensures states[j + 1].peers[id].session == states[n].peers[id].session
    decreases n
  {
    j := 0;
    if n > 0 {
      assert Evolves(states[n - 1], notes[n - 1], states[n]);
      if notes[n - 1].inserted == Some(id) {
        j := n - 1;
      } else {
        j := PeerHasInsertion(states, notes, n - 1, id);
      }
    }
  }

  // ----- The table of pending handshakes -----

  /** The entries a packet's handler finds after both prunes. */
  function Live(e: Endpoint, clock: Clock): map<Addr, Pending> {
    Prune(Prune(e, clock.first), clock.second).pending
  }

  /** A table that only lost entries. */
  ghost predicate Shrunk(before: map<Addr, Pending>, after: map<Addr, Pending>) {
    forall a :: a in after ==> a in before && after[a] == before[a]
  }

  /** A table with one entry set, for device `id` at `from`. */
  ghost predicate Entered(before: map<Addr, Pending>, after: map<Addr, Pending>, from: Addr, id: DeviceId) {
    && after.Keys == before.Keys + {from}
    && after[from].deviceId == id
    && forall a :: a in before && a != from ==> after[a] == before[a]
  }

  lemma AnswerTable(
    p: Endpoint, key: PublicKey, from: Addr, now: nat, outcome: Result<InitOutcome, HandshakeError>, id: DeviceId)
    requires outcome.Ok? ==> outcome.value.deviceId == id
    ensures var h := Answer(p, key, from, now, outcome);
            if h.reply.Some? then Entered(p.pending, h.endpoint.pending, from, id) else h.endpoint == p
  {
  }

  lemma AcceptedId(host: Scalar, packet: Packet, eph: Scalar)
    requires AcceptInit(host, packet, eph).Ok?
    ensures packet.Init? && AcceptInit(host, packet, eph).value.deviceId == packet.deviceId
  {
  }

  lemma LiveShrunk(e: Endpoint, clock: Clock)
    ensures Shrunk(e.pending, Live(e, clock)) && Shrunk(e.pending, Prune(e, clock.first).pending)
  {
  }

  lemma TableAfterInit(e: Endpoint, host: Scalar, packet: Packet, from: Addr, auth: Authorizer, clock: Clock, eph: Scalar)
    ensures var h := HandleInit(Prune(e, clock.first), host, packet, from, auth, clock, eph);
            if h.reply.Some?
            then && packet.Init? && !Refused(Live(e, clock), from, packet.deviceId)
                 && Entered(Live(e, clock), h.endpoint.pending, from, packet.deviceId)
            else Shrunk(e.pending, h.endpoint.pending)
  {
    LiveShrunk(e, clock);
    if packet.Init? {
      var outcome := AcceptInit(host, packet, eph);
      if outcome.Ok? {
        AcceptedId(host, packet, eph);
      }
      AnswerTable(Prune(Prune(e, clock.first), clock.second), packet.deviceStatic, from, clock.third, outcome, packet.deviceId);
    }
  }

  lemma TableAfterConfirm(e: Endpoint, packet: Packet, from: Addr, auth: Authorizer, clock: Clock)
    ensures var h := HandleConfirm(Prune(e, clock.first), packet, from, auth, clock);
            h.reply.None? && Shrunk(e.pending, h.endpoint.pending)
  {
  }

  /** The table after any step: some of the old entries, plus one for an answered INIT. */
  lemma TableAfter(e: Endpoint, host: Scalar, ev: Event)
    requires e.Sound()
    ensures var h := Step(e, host, ev);
            if h.reply.Some?
            then && ev.Arrives? && ev.packet.Init? && !Refused(Live(e, ev.clock), ev.from, ev.packet.deviceId)
                 && Entered(Live(e, ev.clock), h.endpoint.pending, ev.from, ev.packet.deviceId)
            else Shrunk(e.pending, h.endpoint.pending)
  {
    if ev.Arrives? {
      LiveShrunk(e, ev.clock);
      TableAfterInit(e, host, ev.packet, ev.from, ev.auth, ev.clock, ev.eph);
      TableAfterConfirm(e, ev.packet, ev.from, ev.auth, ev.clock);
    }
  }

  /** Which INITs are answered. */
  lemma AnsweredExactly(e: Endpoint, host: Scalar, ev: Event)
    requires e.Sound()
    ensures Step(e, host, ev).reply.Some? <==>
            && ev.Arrives? && ev.packet.Init? && ev.auth(ev.packet.deviceId, ev.packet.deviceStatic)
            && AcceptInit(host, ev.packet, ev.eph).Ok? && !Refused(Live(e, ev.clock), ev.from, ev.packet.deviceId)
  {
  }

  // ----- One step -----

  /** An answered INIT was authorized, and left its entry in the table. */
  lemma AnswerMeans(e: Endpoint, host: Scalar, ev: Event)
    requires e.Sound() && Step(e, host, ev).reply.Some?
    ensures ev.Arrives? && ev.packet.Init? && ev.auth(ev.packet.deviceId, ev.packet.deviceStatic)
    ensures AcceptInit(host, ev.packet, ev.eph).Ok?
    ensures ev.from in Step(e, host, ev).endpoint.pending
    ensures Step(e, host, ev).endpoint.pending[ev.from] ==
            Pending(ev.packet.deviceId, ev.packet.deviceStatic, AcceptInit(host, ev.packet, ev.eph).value.session,
                    ev.clock.third)
  {
  }

  /** Only a CONFIRM makes a peer, and it takes its entry out. */
  lemma InsertionTakesEntry(e: Endpoint, host: Scalar, ev: Event)
    requires e.Sound() && Step(e, host, ev).inserted.Some?
    ensures ev.Arrives? && ev.packet.Confirm? && ev.from !in Step(e, host, ev).endpoint.pending
  {
  }

  /** Any other entry was there before; an insertion takes its entry out. */
  lemma PendingBefore(e: Endpoint, host: Scalar, ev: Event, a: Addr)
    requires e.Sound() && a in Step(e, host, ev).endpoint.pending
    requires !(Step(e, host, ev).reply.Some? && ev.Arrives? && ev.from == a)
    ensures a in e.pending && Step(e, host, ev).endpoint.pending[a] == e.pending[a]
    ensures !(Step(e, host, ev).inserted.Some? && ev.Arrives? && ev.from == a)
  {
    TableAfter(e, host, ev);
    if ev.Arrives? {
      LiveShrunk(e, ev.clock);
    }
    if Step(e, host, ev).inserted.Some? {
      InsertionTakesEntry(e, host, ev);
    }
  }

  /** Any other peer was there before with the same address and session. */
  lemma PeerBefore(e: Endpoint, host: Scalar, ev: Event, id: DeviceId)
    requires e.Sound() && id in Step(e, host, ev).endpoint.peers && Step(e, host, ev).inserted != Some(id)
    ensures id in e.peers
    ensures e.peers[id].addr == Step(e, host, ev).endpoint.peers[id].addr
    ensures e.peers[id].session == Step(e, host, ev).endpoint.peers[id].session
  {
  }

  function NoteOf(e: Endpoint, host: Scalar, ev: Event): Note
    requires e.Sound()
  {
    var h := Step(e, host, ev);
    match ev
    case Drops(_) => Note(None, None, None)
    case Arrives(_, from, _, _, _, _) =>
      Note(Some(from),
           if h.reply.Some? && from in h.endpoint.pending then Some(h.endpoint.pending[from]) else None,
           h.inserted)
  }

  lemma StepEvolves(e: Endpoint, host: Scalar, ev: Event)
    requires e.Sound()
    ensures Evolves(e, NoteOf(e, host, ev), Step(e, host, ev).endpoint)
  {
    var n, t := NoteOf(e, host, ev), Step(e, host, ev).endpoint;
    if Step(e, host, ev).reply.Some? {
      AnswerMeans(e, host, ev);
    }
    forall a | a in t.pending
      ensures || (n.from == Some(a) && n.answered == Some(t.pending[a]))
              || (a in e.pending && t.pending[a] == e.pending[a] &&
                  !(n.from == Some(a) && (n.answered.Some? || n.inserted.Some?)))
    {
      if !(Step(e, host, ev).reply.Some? && ev.Arrives? && ev.from == a) {
        PendingBefore(e, host, ev, a);
      }
    }
    forall id | id in t.peers && n.inserted != Some(id)
      ensures id in e.peers && t.peers[id].addr == e.peers[id].addr && t.peers[id].session == e.peers[id].session
    {
      PeerBefore(e, host, ev, id);
    }
  }

  // ----- Provenance -----

  function States(host: Scalar, events: seq<Event>): (s: seq<Endpoint>)
    ensures |s| == |events| + 1
    ensures forall k :: 0 <= k < |s| ==> s[k] == After(host, events[..k])
  {
    seq(|events| + 1, k requires 0 <= k <= |events| => After(host, events[..k]))
  }

  function Notes(host: Scalar, events: seq<Event>): (n: seq<Note>)
    ensures |n| == |events|
    ensures forall k :: 0 <= k < |n| ==> n[k] == NoteOf(After(host, events[..k]), host, events[k])
  {
    seq(|events|, k requires 0 <= k < |events| => NoteOf(After(host, events[..k]), host, events[k]))
  }

  lemma AfterNext(host: Scalar, events: seq<Event>, k: nat)
    requires k < |events|
    ensures After(host, events[..k + 1]) == Step(After(host, events[..k]), host, events[k]).endpoint
  {
    assert events[..k + 1][..k] == events[..k];
  }

  lemma RunHasHistory(host: Scalar, events: seq<Event>)
    ensures History(States(host, events), Notes(host, events))
  {
    var states, notes := States(host, events), Notes(host, events);
    assert events[..0] == [];
    forall k | 0 <= k < |notes|
      ensures Evolves(states[k], notes[k], states[k + 1])
    {
      AfterNext(host, events, k);
      StepEvolves(After(host, events[..k]), host, events[k]);
    }
  }

  /**
   * INIT `i` and CONFIRM `j` made a peer of `id` at `addr` with `session`: the INIT was
   * authorized and answered, the CONFIRM came less than ten seconds later from the same
   * address, verified under the INIT's session, and authorization held again.
   */
  ghost predicate Traces(
    host: Scalar, events: seq<Event>, i: nat, j: nat, id: DeviceId, addr: Addr, session: Session)
  {
    && j < |events| && Notes(host, events)[j].inserted == Some(id) && Notes(host, events)[j].from == Some(addr)
    && Source(Notes(host, events), j, addr, i)
    && Genuine(host, events[i], events[j], id, addr, session)
  }

  predicate Genuine(host: Scalar, init: Event, confirm: Event, id: DeviceId, addr: Addr, session: Session) {
    && init.Arrives? && init.from == addr && init.packet.Init? && init.packet.deviceId == id
    && confirm.Arrives? && confirm.from == addr
    && init.auth(id, init.packet.deviceStatic) && confirm.auth(id, init.packet.deviceStatic)
    && AcceptInit(host, init.packet, init.eph).Ok?
    && AcceptInit(host, init.packet, init.eph).value.session == session
    && VerifyConfirm(session, confirm.packet)
    && init.clock.third <= confirm.clock.second < init.clock.third + PENDING_TTL
  }

  lemma NoteAnswered(e: Endpoint, host: Scalar, ev: Event)
    requires e.Sound() && NoteOf(e, host, ev).answered.Some?
    ensures ev.Arrives? && ev.packet.Init? && ev.auth(ev.packet.deviceId, ev.packet.deviceStatic)
    ensures AcceptInit(host, ev.packet, ev.eph).Ok?
    ensures NoteOf(e, host, ev).answered.value ==
            Pending(ev.packet.deviceId, ev.packet.deviceStatic, AcceptInit(host, ev.packet, ev.eph).value.session,
                    ev.clock.third)
  {
  }

  lemma NoteInserted(e: Endpoint, host: Scalar, ev: Event)
    requires e.Sound() && NoteOf(e, host, ev).inserted.Some?
    ensures ev.Arrives? && ev.from in e.pending && NoteOf(e, host, ev).from == Some(ev.from)
    ensures var p, id, t := e.pending[ev.from], NoteOf(e, host, ev).inserted.value, Step(e, host, ev).endpoint;
            && p.deviceId == id && Young(p, ev.clock.second)
            && ev.auth(p.deviceId, p.deviceStatic) && VerifyConfirm(p.session, ev.packet)
            && id in t.peers && t.peers[id].addr == ev.from && t.peers[id].session == p.session
  {
  }

  /** Every insertion of a run traces to its INIT. */
  lemma InsertionTraces(host: Scalar, events: seq<Event>, j: nat) returns (i: nat)
    requires j < |events| && Notes(host, events)[j].inserted.Some?
    ensures var id, t := Notes(host, events)[j].inserted.value, After(host, events[..j + 1]);
            && id in t.peers
            && Traces(host, events, i, j, id, t.peers[id].addr, t.peers[id].session)
  {
    var states, notes := States(host, events), Notes(host, events);
    RunHasHistory(host, events);
    AfterNext(host, events, j);
    NoteInserted(After(host, events[..j]), host, events[j]);
    i := PendingHasSource(states, notes, j, events[j].from);
    NoteAnswered(After(host, events[..i]), host, events[i]);
  }

  /** Every confirmed peer of every reachable state traces to an INIT and a CONFIRM. */
  lemma PeerTraces(host: Scalar, events: seq<Event>, id: DeviceId) returns (i: nat, j: nat)
    requires id in After(host, events).peers
    ensures Traces(host, events, i, j, id, After(host, events).peers[id].addr, After(host, events).peers[id].session)
  {
    var states, notes := States(host, events), Notes(host, events);
    RunHasHistory(host, events);
    assert events[..|events|] == events;
    j := PeerHasInsertion(states, notes, |events|, id);
    i := InsertionTraces(host, events, j);
  }

  /** An answered INIT is used for at most one insertion. */
  lemma OneInsertionPerInit(
    host: Scalar, events: seq<Event>, i: nat, j: nat, j': nat,
    id: DeviceId, addr: Addr, session: Session, id': DeviceId, addr': Addr, session': Session)
    requires Traces(host, events, i, j, id, addr, session) && Traces(host, events, i, j', id', addr', session')
    ensures j == j' && id == id' && addr == addr' && session == session'
  {
    UsedOnce(Notes(host, events), addr, i, j, j');
  }

  lemma UsedOnce(notes: seq<Note>, addr: Addr, i: nat, j: nat, j': nat)
    requires Source(notes, j, addr, i) && Source(notes, j', addr, i) && j < |notes| && j' < |notes|
    requires notes[j].from == notes[j'].from == Some(addr) && notes[j].inserted.Some? && notes[j'].inserted.Some?
    ensures j == j'
  {
  }

  // ----- Bounds -----

  lemma SubsetSize<T>(a: set<T>, b: set<T>)
    requires a <= b
    ensures |a| <= |b|
  {
    assert b == a + (b - a);
  }

  lemma LiveIsPart(e: Endpoint, clock: Clock, id: DeviceId)
    ensures |Live(e, clock)| <= |e.pending| && |AddrsOf(Live(e, clock), id)| <= |AddrsOf(e.pending, id)|
  {
    SubsetSize(Live(e, clock).Keys, e.pending.Keys);
    SubsetSize(AddrsOf(Live(e, clock), id), AddrsOf(e.pending, id));
  }

  /** Never more than 64 handshakes pending, in any reachable state. */
  lemma {:induction false} PendingBounded(host: Scalar, events: seq<Event>)
    ensures |After(host, events).pending| <= 64
    decreases |events|
  {
    if events != [] {
      var n := |events| - 1;
      PendingBounded(host, events[..n]);
      StepBounded(After(host, events[..n]), host, events[n]);
    }
  }

  lemma StepBounded(e: Endpoint, host: Scalar, ev: Event)
    requires e.Sound() && |e.pending| <= MAX_PENDING
    ensures |Step(e, host, ev).endpoint.pending| <= MAX_PENDING
  {
    var h := Step(e, host, ev);
    TableAfter(e, host, ev);
    if h.reply.Some? {
      LiveIsPart(e, ev.clock, ev.packet.deviceId);
      if ev.from in Live(e, ev.clock) {
        assert Live(e, ev.clock).Keys + {ev.from} == Live(e, ev.clock).Keys;
      }
    } else {
      SubsetSize(h.endpoint.pending.Keys, e.pending.Keys);
    }
  }

  /** An authorized, valid INIT that takes over another device's live entry while its own share is full. */
  predicate Oversteps(e: Endpoint, host: Scalar, ev: Event, id: DeviceId) {
    && ev.Arrives? && ev.packet.Init? && ev.packet.deviceId == id
    && ev.auth(id, ev.packet.deviceStatic) && AcceptInit(host, ev.packet, ev.eph).Ok?
    && var live := Live(e, ev.clock);
    ev.from in live && live[ev.from].deviceId != id && |AddrsOf(live, id)| == MAX_PENDING_PER_DEVICE
  }

  lemma AddrsAfterEntry(
    before: map<Addr, Pending>, after: map<Addr, Pending>, from: Addr, owner: DeviceId, id: DeviceId)
    requires Entered(before, after, from, owner)
    ensures AddrsOf(after, id) ==
            if owner == id then AddrsOf(before, id) + {from} else AddrsOf(before, id) - {from}
  {
  }

  /** What one entry does to the share of a device. */
  lemma ShareAfterEntry(
    live: map<Addr, Pending>, after: map<Addr, Pending>, from: Addr, owner: DeviceId, id: DeviceId)
    requires Entered(live, after, from, owner) && !Refused(live, from, owner)
    requires |AddrsOf(live, id)| <= MAX_PENDING_PER_DEVICE
    ensures |AddrsOf(after, id)| > MAX_PENDING_PER_DEVICE <==>
            owner == id && from in live && live[from].deviceId != id && |AddrsOf(live, id)| == MAX_PENDING_PER_DEVICE
  {
    AddrsAfterEntry(live, after, from, owner, id);
    if owner != id {
      SubsetSize(AddrsOf(live, id) - {from}, AddrsOf(live, id));
    } else if from in AddrsOf(live, id) {
      assert AddrsOf(live, id) + {from} == AddrsOf(live, id);
    }
  }

  lemma ShrunkShare(before: map<Addr, Pending>, after: map<Addr, Pending>, id: DeviceId)
    requires Shrunk(before, after)
    ensures |AddrsOf(after, id)| <= |AddrsOf(before, id)|
  {
    SubsetSize(AddrsOf(after, id), AddrsOf(before, id));
  }

  /** A device within its share of four leaves it in one step exactly by `Oversteps`. */
  lemma ShareExceededExactly(e: Endpoint, host: Scalar, ev: Event, id: DeviceId)
    requires e.Sound() && |AddrsOf(e.pending, id)| <= 4
    ensures |AddrsOf(Step(e, host, ev).endpoint.pending, id)| > 4 <==> Oversteps(e, host, ev, id)
  {
    var t := Step(e, host, ev).endpoint.pending;
    AnsweredExactly(e, host, ev);
    TableAfter(e, host, ev);
    if Step(e, host, ev).reply.Some? {
      LiveShrunk(e, ev.clock);
      ShrunkShare(e.pending, Live(e, ev.clock), id);
      ShareAfterEntry(Live(e, ev.clock), t, ev.from, ev.packet.deviceId, id);
    } else {
      ShrunkShare(e.pending, t, id);
    }
  }

  /** No INIT from an address with a live entry changes that entry's device. */
  ghost predicate KeepsDevice(host: Scalar, events: seq<Event>) {
    forall i :: 0 <= i < |events| && events[i].Arrives? && events[i].packet.Init? ==>
      var live := Live(After(host, events[..i]), events[i].clock);
      events[i].from in live ==> live[events[i].from].deviceId == events[i].packet.deviceId
  }

  /** Then no device ever holds more than four entries. */
  lemma {:induction false} ShareBounded(host: Scalar, events: seq<Event>, id: DeviceId)
    requires KeepsDevice(host, events)
    ensures |AddrsOf(After(host, events).pending, id)| <= 4
    decreases |events|
  {
    if events != [] {
      var n := |events| - 1;
      var init := events[..n];
      forall i | 0 <= i < n
        ensures init[i] == events[i] && init[..i] == events[..i]
      {
      }
      ShareBounded(host, init, id);
      ShareExceededExactly(After(host, init), host, events[n], id);
    } else {
      assert AddrsOf(EMPTY.pending, id) == {};
    }
  }

  // ----- A run that exceeds the share -----

  /** An authorized INIT of `d` from address `a`, all at time zero. */
  function Knock(d: Device, a: Addr): Event
    requires d.K1().Some?
  {
    Arrives(d.InitPacket(), a, (_, _) => true, Clock(0, 0, 0), 7, NOBODY)
  }

  function Owners(e: Endpoint): map<Addr, DeviceId> {
    map a | a in e.pending :: e.pending[a].deviceId
  }

  /** The addresses that belong to `id`. */
  ghost predicate HeldBy(owners: map<Addr, DeviceId>, id: DeviceId, addrs: set<Addr>) {
    forall x :: x in addrs <==> x in owners && owners[x] == id
  }

  predicate AllNew(e: Endpoint) {
    forall a :: a in e.pending ==> e.pending[a].createdAt == 0
  }

  lemma NothingOld(e: Endpoint)
    requires AllNew(e)
    ensures Prune(e, 0) == e && Live(e, Clock(0, 0, 0)) == e.pending
  {
  }

  lemma OwnersEntered(e: Endpoint, t: Endpoint, a: Addr, id: DeviceId)
    requires AllNew(e) && Entered(e.pending, t.pending, a, id) && t.pending[a].createdAt == 0
    ensures AllNew(t) && Owners(t) == Owners(e)[a := id]
  {
  }

  lemma KnockIsAnswered(e: Endpoint, host: Scalar, d: Device, a: Addr)
    requires e.Sound() && AllNew(e) && d.hostStatic == Pub(host)
    requires !Refused(e.pending, a, d.id)
    ensures d.K1().Some?
    ensures var h := Step(e, host, Knock(d, a));
            && h.reply.Some? && Entered(e.pending, h.endpoint.pending, a, d.id)
            && h.endpoint.pending[a] == Pending(d.id, Pub(d.secret), HostSession(d, host, 7), 0)
  {
    HandshakeAgrees(d, host, 7);
    NothingOld(e);
    AnsweredExactly(e, host, Knock(d, a));
    TableAfter(e, host, Knock(d, a));
    AnswerMeans(e, host, Knock(d, a));
  }

  lemma KnockOwns(e: Endpoint, host: Scalar, d: Device, a: Addr)
    requires e.Sound() && AllNew(e) && d.hostStatic == Pub(host)
    requires !Refused(e.pending, a, d.id)
    ensures d.K1().Some?
    ensures AllNew(Step(e, host, Knock(d, a)).endpoint)
    ensures Owners(Step(e, host, Knock(d, a)).endpoint) == Owners(e)[a := d.id]
  {
    KnockIsAnswered(e, host, d, a);
    OwnersEntered(e, Step(e, host, Knock(d, a)).endpoint, a, d.id);
  }

  /** An INIT leaves the peers alone. */
  lemma InitKeepsPeers(e: Endpoint, host: Scalar, ev: Event)
    requires e.Sound() && ev.Arrives? && ev.packet.Init?
    ensures Step(e, host, ev).endpoint.peers == e.peers
  {
  }

  /** The first one leaves its entry, with the host's session. */
  lemma FirstKnock(host: Scalar, d: Device)
    requires d.hostStatic == Pub(host)
    ensures d.K1().Some?
    ensures Step(EMPTY, host, Knock(d, 0)).endpoint ==
            Endpoint(map[0 := Pending(d.id, Pub(d.secret), HostSession(d, host, 7), 0)], map[])
  {
    assert AddrsOf(EMPTY.pending, d.id) == {};
    KnockIsAnswered(EMPTY, host, d, 0);
    InitKeepsPeers(EMPTY, host, Knock(d, 0));
    OnlyEntry(Step(EMPTY, host, Knock(d, 0)).endpoint.pending, 0, d.id);
  }

  lemma OnlyEntry(after: map<Addr, Pending>, a: Addr, id: DeviceId)
    requires Entered(map[], after, a, id)
    ensures after == map[a := after[a]]
  {
  }

  /** Whose share is still open, read off the owners. */
  lemma NotRefused(e: Endpoint, a: Addr, id: DeviceId, mine: set<Addr>)
    requires |e.pending| < MAX_PENDING && |mine| < MAX_PENDING_PER_DEVICE
    requires HeldBy(Owners(e), id, mine)
    ensures !Refused(e.pending, a, id)
  {
    assert AddrsOf(e.pending, id) == mine;
  }

  /** A run made one INIT longer, while the share of `d` is open or the address is taken. */
  lemma Extend(host: Scalar, events: seq<Event>, owners: map<Addr, DeviceId>, d: Device, a: Addr, mine: set<Addr>)
    returns (longer: seq<Event>)
    requires AllNew(After(host, events)) && Owners(After(host, events)) == owners && d.hostStatic == Pub(host)
    requires a in owners || |mine| < MAX_PENDING_PER_DEVICE
    requires |owners| < MAX_PENDING && HeldBy(owners, d.id, mine)
    ensures AllNew(After(host, longer)) && Owners(After(host, longer)) == owners[a := d.id]
  {
    var e := After(host, events);
    HandshakeAgrees(d, host, 7);
    assert owners.Keys == e.pending.Keys;
    if a !in owners {
      NotRefused(e, a, d.id, mine);
    }
    KnockOwns(e, host, d, a);
    longer := events + [Knock(d, a)];
    assert longer[..|events|] == events;
  }

  function Range(n: nat): (r: set<nat>)
    ensures forall x :: x in r <==> 1 <= x <= n
    ensures |r| == n
  {
    if n == 0 then {} else Range(n - 1) + {n}
  }

  function Owned(n: nat, id: DeviceId): (m: map<Addr, DeviceId>)
    ensures m.Keys == Range(n) && |m| == n
  {
    var m := map x | x in Range(n) :: id;
    assert m.Keys == Range(n);
    m
  }

  /** Device `d` at addresses 1 to `n`. */
  lemma {:induction false} FillShare(host: Scalar, d: Device, n: nat) returns (events: seq<Event>)
    requires d.hostStatic == Pub(host) && n <= MAX_PENDING_PER_DEVICE
    ensures AllNew(After(host, events)) && Owners(After(host, events)) == Owned(n, d.id)
  {
    if n == 0 {
      events := [];
    } else {
      var fewer := FillShare(host, d, n - 1);
      events := Extend(host, fewer, Owned(n - 1, d.id), d, n, Range(n - 1));
    }
  }

  lemma SharesOf(e: Endpoint, id: DeviceId, addrs: set<Addr>)
    requires HeldBy(Owners(e), id, addrs)
    ensures AddrsOf(e.pending, id) == addrs
  {
  }

  /** Whose the addresses are, once `other` has one more and after `id` has taken it over. */
  lemma TakenOver(n: nat, id: DeviceId, other: DeviceId, owners: map<Addr, DeviceId>)
    requires id != other && owners == Owned(n, id)[n + 1 := other]
    ensures HeldBy(owners, id, Range(n))
    ensures owners.Keys == Range(n + 1) && |owners| == n + 1
    ensures HeldBy(owners[n + 1 := id], id, Range(n + 1))
  {
    assert owners.Keys == Range(n + 1);
  }

  /** A device fills its share, another opens a handshake from a further address, the first takes it over. */
  lemma ShareCanBeExceeded(host: Scalar, d: Device, other: Device, n: nat) returns (events: seq<Event>)
    requires d.hostStatic == Pub(host) && other.hostStatic == Pub(host) && d.id != other.id
    requires n == 4
    ensures |AddrsOf(After(host, events).pending, d.id)| == n + 1
  {
    var full := FillShare(host, d, n);
    var shared := Extend(host, full, Owned(n, d.id), other, n + 1, {});
    TakenOver(n, d.id, other.id, Owned(n, d.id)[n + 1 := other.id]);
    events := Extend(host, shared, Owned(n, d.id)[n + 1 := other.id], d, n + 1, Range(n));
    SharesOf(After(host, events), d.id, Range(n + 1));
  }
}
