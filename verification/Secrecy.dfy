/**
 * Which secrets it takes to make a tag or a session: an outsider knows a set of scalars and
 * all boxes seen so far, and builds what can be built from them.
 */
module Secrecy {
  import opened Common
  import opened BigEndian
  import opened Crypto
  import opened Handshake
  import opened Packets
  import opened SendRuns

  /** A Diffie-Hellman secret takes one of its two scalars, a derived key all of its parts. */
  predicate Derives(known: set<Scalar>, s: Secret) {
    match s
    case Dh(lo, hi) => lo in known || hi in known
    case Master(parts, _, _) => forall i :: 0 <= i < |parts| ==> Derives(known, parts[i])
  }

  /** A box was seen, is noise, or is sealed under a session that can be derived. */
  predicate CanMake(known: set<Scalar>, seen: set<Box>, box: Box) {
    box in seen || box.Noise? || Derives(known, box.session.ikm)
  }

  lemma AgreeTakes(known: set<Scalar>, a: Scalar, b: Scalar)
    ensures Agree(a, Pub(b)).Some?
    ensures Derives(known, Agree(a, Pub(b)).value) <==> a in known || b in known
  {
  }

  lemma PairTakes(known: set<Scalar>, a: Secret, b: Secret, salt: Salt, purpose: string)
    ensures Derives(known, Master([a, b], salt, purpose)) <==> Derives(known, a) && Derives(known, b)
  {
    var parts := [a, b];
    assert parts[0] == a && parts[1] == b;
    assert Derives(known, Master(parts, salt, purpose)) <==>
           forall i :: 0 <= i < |parts| ==> Derives(known, parts[i]);
  }

  /** Whoever makes the first key holds the host's scalar, or both of the device's. */
  predicate HoldsEnd(known: set<Scalar>, deviceStatic: Scalar, deviceEph: Scalar, host: Scalar) {
    host in known || (deviceStatic in known && deviceEph in known)
  }

  lemma FirstKeyTakes(known: set<Scalar>, k1: Secret, deviceStatic: Scalar, deviceEph: Scalar, host: Scalar, salt: Salt)
    requires k1 == Key1(Agree(host, Pub(deviceStatic)).value, Agree(host, Pub(deviceEph)).value, salt)
    ensures Derives(known, k1) <==> HoldsEnd(known, deviceStatic, deviceEph, host)
  {
    var ss, es := Agree(host, Pub(deviceStatic)).value, Agree(host, Pub(deviceEph)).value;
    AgreeTakes(known, host, deviceStatic);
    AgreeTakes(known, host, deviceEph);
    PairTakes(known, ss, es, salt, CONTEXT + "k1");
  }

  /** A device's own first key is the one its host would derive. */
  lemma DeviceKeyIs(d: Device, host: Scalar)
    requires d.hostStatic == Pub(host)
    ensures d.K1() == Some(Key1(Agree(host, Pub(d.secret)).value, Agree(host, Pub(d.ephemeral)).value, d.Salt1()))
  {
  }

  // ----- INIT -----

  /** An accepted tag is sealed under the first key of the packet's own public keys. */
  lemma AcceptedTag(host: Scalar, packet: Packet, eph: Scalar)
    requires AcceptInit(host, packet, eph).Ok?
    ensures packet.Init? && packet.deviceStatic.Pub? && packet.deviceEph.Pub? && packet.tag.Sealed?
    ensures packet.tag.session.ikm ==
            Key1(Agree(host, packet.deviceStatic).value, Agree(host, packet.deviceEph).value,
                 InitSalt(packet.deviceId, packet.deviceStatic, packet.deviceEph))
  {
  }

  /**
   * A tag that the host accepts and that was not seen before takes the host's static
   * scalar, or the device's static and ephemeral ones: exactly these, and so never less
   * than one of the two static scalars.
   */
  lemma InitTagTakes(known: set<Scalar>, seen: set<Box>, host: Scalar, packet: Packet, eph: Scalar)
    requires AcceptInit(host, packet, eph).Ok? && packet.tag !in seen
    ensures packet.Init? && packet.deviceStatic.Pub? && packet.deviceEph.Pub?
    ensures CanMake(known, seen, packet.tag) <==>
            host in known || (packet.deviceStatic.scalar in known && packet.deviceEph.scalar in known)
  {
    AcceptedTag(host, packet, eph);
    FirstKeyTakes(known, packet.tag.session.ikm, packet.deviceStatic.scalar, packet.deviceEph.scalar, host,
                  InitSalt(packet.deviceId, packet.deviceStatic, packet.deviceEph));
  }

  // ----- RESPONSE -----

  lemma AcceptedResponse(d: Device, response: Packet)
    requires d.Accept(response).Ok?
    ensures response.Response? && response.tag.Sealed? && d.hostStatic.Pub?
    ensures d.K1().Some? && response.tag.session.ikm == d.K1().value
  {
  }

  /** The same for a response the device accepts. */
  lemma ResponseTagTakes(known: set<Scalar>, seen: set<Box>, d: Device, response: Packet)
    requires d.Accept(response).Ok? && response.tag !in seen
    ensures response.Response? && d.hostStatic.Pub?
    ensures CanMake(known, seen, response.tag) <==>
            d.hostStatic.scalar in known || (d.secret in known && d.ephemeral in known)
  {
    AcceptedResponse(d, response);
    DeviceKeyIs(d, d.hostStatic.scalar);
    FirstKeyTakes(known, d.K1().value, d.secret, d.ephemeral, d.hostStatic.scalar, d.Salt1());
  }

  // ----- The session -----

  /** The session takes one of the two ephemerals, besides what the first key takes. */
  lemma SessionTakes(known: set<Scalar>, d: Device, host: Scalar, hostEph: Scalar)
    requires d.hostStatic == Pub(host)
    ensures Derives(known, HostSession(d, host, hostEph).ikm) <==>
            && (d.ephemeral in known || hostEph in known)
            && (host in known || (d.secret in known && d.ephemeral in known))
  {
    HostSessionIs(d, host, hostEph);
    DeviceKeyIs(d, host);
    AgreeTakes(known, d.ephemeral, hostEph);
    FirstKeyTakes(known, d.K1().value, d.secret, d.ephemeral, host, d.Salt1());
    PairTakes(known, Agree(d.ephemeral, Pub(hostEph)).value, d.K1().value, ResponseSalt(d.Salt1(), Pub(hostEph)),
              CONTEXT + "k2");
  }

  /** Forward secrecy: whatever else is known, both static scalars included, a session takes one of its ephemerals. */
  lemma ForwardSecrecy(known: set<Scalar>, d: Device, host: Scalar, hostEph: Scalar)
    requires d.hostStatic == Pub(host) && d.ephemeral !in known && hostEph !in known
    ensures !Derives(known, HostSession(d, host, hostEph).ikm)
  {
    SessionTakes(known, d, host, hostEph);
  }

  /** A confirm that verifies and was not seen before takes the session. */
  lemma ConfirmTakes(known: set<Scalar>, seen: set<Box>, session: Session, packet: Packet)
    requires VerifyConfirm(session, packet) && packet.tag !in seen
    ensures CanMake(known, seen, packet.tag) <==> Derives(known, session.ikm)
  {
  }

  // ----- Tags do not stand in for each other -----

  lemma ContextsDiffer()
    ensures CONTEXT + "k1" != CONTEXT
  {
    assert |CONTEXT + "k1"| == |CONTEXT| + 2;
  }

  /** A tag of the first two messages never confirms a session, nor an INIT tag a response. */
  lemma TagsAreSeparate(d: Device, host: Scalar, eph: Scalar, d': Device, host': Scalar, eph': Scalar, key: PublicKey)
    requires d.hostStatic == Pub(host) && d'.hostStatic == Pub(host')
    ensures d.K1().Some? && AcceptInit(host, d.InitPacket(), eph).Ok?
    ensures var o := AcceptInit(host, d.InitPacket(), eph).value;
            && !VerifyConfirm(HostSession(d', host', eph'), Confirm(d.InitPacket().tag))
            && !VerifyConfirm(HostSession(d', host', eph'), Confirm(o.response.tag))
            && d'.Accept(Response(key, d.InitPacket().tag)).Err?
  {
    HandshakeAgrees(d, host, eph);
    HostSessionIs(d', host', eph');
    ContextsDiffer();
  }

  /** The associated data of the three tags, byte by byte. */
  lemma TagsOnTheWire(d: Device, host: Scalar, eph: Scalar, session: Session)
    requires d.hostStatic == Pub(host)
    ensures d.K1().Some? && d.InitPacket().tag.aad == [1, 0, 0, 0, 0, 0, 0, 0, 1]
    ensures AcceptInit(host, d.InitPacket(), eph).Ok?
    ensures AcceptInit(host, d.InitPacket(), eph).value.response.tag.aad == [0, 0, 0, 0, 0, 0, 0, 0, 1]
    ensures ConfirmPacket(session).tag.aad == [1, 0, 0, 0, 0, 0, 0, 0, 1]
  {
    HandshakeAgrees(d, host, eph);
    One();
  }

  lemma One()
    ensures ToBe(1, 8) == [0, 0, 0, 0, 0, 0, 0, 1]
  {
  }

  // ----- Records -----

  /**
   * The network of `SendRuns`, justified: an outsider who cannot derive the session can
   * only offer boxes of that session that were on the wire.
   */
  lemma OutsiderOffers(known: set<Scalar>, seen: set<Box>, wire: seq<Datagram>, session: Session, d: Datagram)
    requires !Derives(known, session.ikm) && CanMake(known, seen, d.box)
    requires forall b :: b in seen && b.Sealed? && b.session == session && b.direction == HostToDevice ==>
               exists i :: 0 <= i < |wire| && wire[i].box == b
    ensures Offered(wire, session, d)
  {
  }
}
