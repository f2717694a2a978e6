/** The three-message handshake, over symbolic keys. */
module Handshake {
  import opened Common
  import opened BigEndian
  import opened Crypto
  import opened Packets

  const CONTEXT := "emersia/handshake-v1"

  const DEVICE_ID_LEN := 8

  type DeviceId = id: seq<Byte> | |id| == DEVICE_ID_LEN witness [0, 0, 0, 0, 0, 0, 0, 0]

  /** Everything that can arrive, by its type byte and whether it is long enough. */
  datatype Packet =
    | Init(deviceId: DeviceId, deviceStatic: PublicKey, deviceEph: PublicKey, tag: Box)
    | ShortInit
    | Response(hostEph: PublicKey, tag: Box)
    | ShortResponse
    | Confirm(tag: Box)
    | Data(datagram: Datagram)
    | Other

  datatype HandshakeError = BadInit | BadResponse | BadConfirm | OutOfOrder | NotTheHost

  // ----- Key schedule -----

  /** `init_body`: the three fields one after the other, without separators. */
  function InitBody(id: DeviceId, deviceStatic: PublicKey, deviceEph: PublicKey): (b: seq<Byte>)
    ensures |b| == DEVICE_ID_LEN + 64
  {
    id + KeyBytes(deviceStatic) + KeyBytes(deviceEph)
  }

  function InitSalt(id: DeviceId, deviceStatic: PublicKey, deviceEph: PublicKey): Salt {
    Digest(Encode([Plains(InitBody(id, deviceStatic, deviceEph))]))
  }

  function Key1(staticStatic: Secret, ephStatic: Secret, salt: Salt): Secret {
    Master([staticStatic, ephStatic], salt, CONTEXT + "k1")
  }

  /** The one-shot session the init and response tags are sealed under. */
  function Session1(k1: Secret, salt: Salt): Session {
    Session(k1, salt, CONTEXT + "k1")
  }

  function ResponseSalt(salt1: Salt, hostEph: PublicKey): Salt {
    Digest(Encode([HashBytes(salt1), Plains(KeyBytes(hostEph))]))
  }

  function FinalSession(ephEph: Secret, k1: Secret, salt2: Salt): Session {
    Session(Master([ephEph, k1], salt2, CONTEXT + "k2"), salt2, CONTEXT)
  }

  // ----- The device -----

  datatype Device = Device(id: DeviceId, secret: Scalar, hostStatic: PublicKey, ephemeral: Scalar) {
    function Salt1(): Salt {
      InitSalt(id, Pub(secret), Pub(ephemeral))
    }

    /** `init_keys`: none when the pinned key is no valid point. */
    function K1(): Option<Secret> {
      var ss, es := Agree(secret, hostStatic), Agree(ephemeral, hostStatic);
      if ss.None? || es.None? then None else Some(Key1(ss.value, es.value, Salt1()))
    }

    function InitPacket(): Packet
      requires K1().Some?
    {
      Init(id, Pub(secret), Pub(ephemeral), Seal(Session1(K1().value, Salt1()), DeviceToHost, 1, id))
    }

    /** `finish`, once the step allows it. */
    function Accept(response: Packet): Result<Session, HandshakeError> {
      if !response.Response? then Err(BadResponse)
      else if K1().None? then Err(NotTheHost)
      else
        var told := Open(Session1(K1().value, Salt1()), HostToDevice, 1, response.tag);
        if told != Some(id) then Err(NotTheHost)
        else
          var ee := Agree(ephemeral, response.hostEph);
          if ee.None? then Err(BadResponse)
          else Ok(FinalSession(ee.value, K1().value, ResponseSalt(Salt1(), response.hostEph)))
    }
  }

  function ConfirmPacket(session: Session): Packet {
    Confirm(Seal(session, DeviceToHost, 1, []))
  }

  predicate VerifyConfirm(session: Session, packet: Packet) {
    packet.Confirm? && Open(session, DeviceToHost, 1, packet.tag).Some?
  }

  datatype Progress = AtInit | AtResponse | Done

  class HandshakeClient {
    const device: Device
    var step: Progress

    constructor (device: Device)
      ensures this.device == device && step == AtInit
    {
      this.device := device;
      step := AtInit;
    }

    method Start() returns (packet: Packet)
      requires step == AtInit && device.K1().Some?
      modifies this
      ensures step == AtResponse && packet == device.InitPacket()
    {
      step := AtResponse;
      packet := device.InitPacket();
    }

    method Finish(response: Packet) returns (result: Result<Session, HandshakeError>)
      modifies this
      ensures old(step) == AtResponse ==> step == Done && result == device.Accept(response)
      ensures old(step) != AtResponse ==> step == old(step) && result == Err(OutOfOrder)
    {
      if step != AtResponse {
        return Err(OutOfOrder);
      }
      step := Done;
      result := device.Accept(response);
    }
  }

  // ----- The host -----

  datatype InitOutcome = InitOutcome(response: Packet, deviceId: DeviceId, session: Session)

  /** `accept_init` with the fresh host ephemeral as input. */
  function AcceptInit(host: Scalar, packet: Packet, ephemeral: Scalar): Result<InitOutcome, HandshakeError> {
    if !packet.Init? then Err(BadInit)
    else
      var ss, es := Agree(host, packet.deviceStatic), Agree(host, packet.deviceEph);
      if ss.None? || es.None? then Err(BadInit)
      else
        var salt1 := InitSalt(packet.deviceId, packet.deviceStatic, packet.deviceEph);
        var k1 := Key1(ss.value, es.value, salt1);
        if Open(Session1(k1, salt1), DeviceToHost, 1, packet.tag) != Some(packet.deviceId) then Err(BadInit)
        else
          var ee := Agree(ephemeral, packet.deviceEph);
          if ee.None? then Err(BadInit)
          else Ok(InitOutcome(
                    Response(Pub(ephemeral), Seal(Session1(k1, salt1), HostToDevice, 1, packet.deviceId)),
                    packet.deviceId,
                    FinalSession(ee.value, k1, ResponseSalt(salt1, Pub(ephemeral)))))
  }

  // ----- Agreement -----

  /** A device that pinned this host ends in the host's session, and its confirm verifies. */
  lemma HandshakeAgrees(d: Device, host: Scalar, hostEph: Scalar)
    requires d.hostStatic == Pub(host)
    ensures d.K1().Some?
    ensures var o := AcceptInit(host, d.InitPacket(), hostEph);
            && o.Ok? && o.value.deviceId == d.id
            && d.Accept(o.value.response) == Ok(o.value.session)
            && VerifyConfirm(o.value.session, ConfirmPacket(o.value.session))
  {
  }

  /** A host accepts a device's init exactly when it is the host the device pinned. */
  lemma PinDecides(d: Device, host: Scalar, hostEph: Scalar)
    requires d.K1().Some?
    ensures AcceptInit(host, d.InitPacket(), hostEph).Ok? <==> d.hostStatic == Pub(host)
    ensures AcceptInit(host, d.InitPacket(), hostEph).Err? ==> AcceptInit(host, d.InitPacket(), hostEph) == Err(BadInit)
  {
  }

  /** An accepted init carries a tag sealed for exactly its own id and keys. */
  lemma AcceptedInit(host: Scalar, packet: Packet, hostEph: Scalar)
    ensures AcceptInit(host, packet, hostEph).Ok? <==>
            && packet.Init? && packet.deviceStatic.Pub? && packet.deviceEph.Pub?
            && var d := Device(packet.deviceId, packet.deviceStatic.scalar, Pub(host), packet.deviceEph.scalar);
            packet == d.InitPacket()
  {
  }

  /** The session a host gets from a device's init, as a function of all the keys. */
  function HostSession(d: Device, host: Scalar, hostEph: Scalar): Session
    requires d.hostStatic == Pub(host)
  {
    HandshakeAgrees(d, host, hostEph);
    AcceptInit(host, d.InitPacket(), hostEph).value.session
  }

  /** The body names its fields, because each has its fixed width. */
  lemma InitBodyInjective(
    id: DeviceId, key: PublicKey, eph: PublicKey, id': DeviceId, key': PublicKey, eph': PublicKey)
    requires InitBody(id, key, eph) == InitBody(id', key', eph')
    ensures id == id' && key == key' && eph == eph'
  {
    var a, b := InitBody(id, key, eph), InitBody(id', key', eph');
    assert id == a[..8] && id' == b[..8];
    assert KeyBytes(key) == a[8..40] && KeyBytes(key') == b[8..40];
    assert KeyBytes(eph) == a[40..] && KeyBytes(eph') == b[40..];
    KeyBytesInjective(key, key');
    KeyBytesInjective(eph, eph');
  }

  lemma InitSaltInjective(
    id: DeviceId, key: PublicKey, eph: PublicKey, id': DeviceId, key': PublicKey, eph': PublicKey)
    requires InitSalt(id, key, eph) == InitSalt(id', key', eph')
    ensures id == id' && key == key' && eph == eph'
  {
    var a, b := InitBody(id, key, eph), InitBody(id', key', eph');
    Widths();
    EncodeInjective([Plains(a)], [Plains(b)]);
    assert [Plains(a)][0] == [Plains(b)][0];
    PlainsInjective(a, b);
    InitBodyInjective(id, key, eph, id', key', eph');
  }

  lemma ResponseSaltInjective(salt: Salt, key: PublicKey, salt': Salt, key': PublicKey)
    requires ResponseSalt(salt, key) == ResponseSalt(salt', key')
    ensures salt == salt' && key == key'
  {
    var a, b := [HashBytes(salt), Plains(KeyBytes(key))], [HashBytes(salt'), Plains(KeyBytes(key'))];
    Widths();
    EncodeInjective(a, b);
    assert a[0] == b[0] && a[1] == b[1];
    assert HashBytes(salt)[0] == HashBytes(salt')[0];
    PlainsInjective(KeyBytes(key), KeyBytes(key'));
    KeyBytesInjective(key, key');
  }

  lemma HostSessionIs(d: Device, host: Scalar, hostEph: Scalar)
    requires d.hostStatic == Pub(host)
    ensures d.K1().Some? && Agree(d.ephemeral, Pub(hostEph)).Some?
    ensures HostSession(d, host, hostEph) ==
            FinalSession(Agree(d.ephemeral, Pub(hostEph)).value, d.K1().value, ResponseSalt(d.Salt1(), Pub(hostEph)))
  {
  }

  /** A session belongs to one id, one pair of device keys and one pair of host keys. */
  lemma SessionNamesItsRun(d: Device, host: Scalar, hostEph: Scalar, d': Device, host': Scalar, hostEph': Scalar)
    requires d.hostStatic == Pub(host) && d'.hostStatic == Pub(host')
    requires HostSession(d, host, hostEph) == HostSession(d', host', hostEph')
    ensures d == d' && host == host' && hostEph == hostEph'
  {
    HostSessionIs(d, host, hostEph);
    HostSessionIs(d', host', hostEph');
    ResponseSaltInjective(d.Salt1(), Pub(hostEph), d'.Salt1(), Pub(hostEph'));
    InitSaltInjective(d.id, Pub(d.secret), Pub(d.ephemeral), d'.id, Pub(d'.secret), Pub(d'.ephemeral));
    SamePin(d, host, d', host');
  }

  /** The first key names the host, given the device's own. */
  lemma SamePin(d: Device, host: Scalar, d': Device, host': Scalar)
    requires d.hostStatic == Pub(host) && d'.hostStatic == Pub(host') && d.secret == d'.secret
    requires d.K1() == d'.K1() && d.K1().Some?
    ensures host == host'
  {
    var k, k' := d.K1().value, d'.K1().value;
    assert k.parts[0] == Agree(d.secret, Pub(host)).value && k'.parts[0] == Agree(d.secret, Pub(host')).value;
  }

  /**
   * The response tag does not cover the host ephemeral; the confirm does. A device that
   * accepts a response with some ephemeral key confirms the host's session exactly when
   * that key is the one the host sent.
   */
  lemma ConfirmBindsHostEphemeral(d: Device, host: Scalar, hostEph: Scalar, forged: PublicKey)
    requires d.hostStatic == Pub(host)
    ensures var o := AcceptInit(host, d.InitPacket(), hostEph).value;
            var seen := d.Accept(Response(forged, o.response.tag));
            && (seen.Ok? <==> forged.Pub?)
            && (seen.Ok? ==> (VerifyConfirm(o.session, ConfirmPacket(seen.value)) <==> forged == Pub(hostEph)))
  {
    HandshakeAgrees(d, host, hostEph);
    HostSessionIs(d, host, hostEph);
    var o := AcceptInit(host, d.InitPacket(), hostEph).value;
    if forged.Pub? && VerifyConfirm(o.session, ConfirmPacket(d.Accept(Response(forged, o.response.tag)).value)) {
      ResponseSaltInjective(d.Salt1(), forged, d.Salt1(), Pub(hostEph));
    }
  }
}
