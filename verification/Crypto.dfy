/**
 * Symbolic cryptography. A Diffie-Hellman secret is the unordered pair of scalars,
 * key derivation and hashing are constructors, and an AEAD box opens only under the
 * session, direction key and associated data it was sealed with. What is hashed and
 * what is authenticated is spelled out byte by byte: the transcript and the associated
 * data are the encodings the code makes.
 */
module Crypto {
  import opened Common
  import opened BigEndian

  /** Numbers of 31 bytes, so that a public key has its 32. */
  const KEY_SPACE := 0x100_0000_0000_0000_0000_0000_0000_0000_0000_0000_0000_0000_0000_0000_0000_0000

  type Scalar = x: nat | x < KEY_SPACE

  /** The key of a scalar, or a small-order point, with which agreement fails. */
  datatype PublicKey = Pub(scalar: Scalar) | SmallOrder(id: Scalar)

  datatype Secret =
    | Dh(lo: Scalar, hi: Scalar)
    | Master(parts: seq<Secret>, salt: Salt, purpose: string)

  /** The hash of a byte string. */
  datatype Salt = Digest(input: seq<Symbol>)

  /** A byte: a known one, or byte `i` of a hash. */
  datatype Symbol = Plain(value: Byte) | OfHash(hash: Salt, i: nat)

  datatype Session = Session(ikm: Secret, salt: Salt, context: string)

  datatype Direction = HostToDevice | DeviceToHost

  /** Sealed data, or any other bytes. */
  datatype Box =
    | Sealed(session: Session, direction: Direction, aad: seq<Byte>, plaintext: seq<Byte>)
    | Noise(bytes: seq<Byte>)

  function Agree(secret: Scalar, key: PublicKey): Option<Secret> {
    match key
    case SmallOrder(_) => None
    case Pub(other) => Some(if secret <= other then Dh(secret, other) else Dh(other, secret))
  }

  function Seal(session: Session, direction: Direction, sequence: nat, plaintext: seq<Byte>): Box {
    Sealed(session, direction, BuildAad(Aad(direction, sequence)), plaintext)
  }

  function Open(session: Session, direction: Direction, sequence: nat, box: Box): Option<seq<Byte>> {
    if box.Sealed? && box.session == session && box.direction == direction
       && box.aad == BuildAad(Aad(direction, sequence))
    then Some(box.plaintext) else None
  }

  // ----- Associated data -----

  datatype Aad = Aad(direction: Direction, sequence: nat)

  function BuildAad(a: Aad): seq<Byte> {
    [if a.direction == HostToDevice then 0 else 1] + ToBe(a.sequence, 8)
  }

  function ParseAad(bytes: seq<Byte>): Option<Aad> {
    if |bytes| != 9 || bytes[0] > 1 then None
    else Some(Aad(if bytes[0] == 0 then HostToDevice else DeviceToHost, FromBe(bytes[1..])))
  }

  /** Direction and sequence survive the associated data, and nothing else parses. */
  lemma AadRoundTrip(a: Aad, bytes: seq<Byte>)
    requires a.sequence < Range(8)
    ensures ParseAad(BuildAad(a)) == Some(a)
    ensures ParseAad(bytes) == Some(a) <==> bytes == BuildAad(a)
  {
    FromTo(a.sequence, 8);
    assert BuildAad(a)[1..] == ToBe(a.sequence, 8);
    if ParseAad(bytes) == Some(a) {
      ToFrom(bytes[1..]);
      assert bytes == [bytes[0]] + bytes[1..];
    }
  }

  /** A sealed box opens exactly under its own session, direction and number. */
  lemma OpensOnlyAsSealed(
    session: Session, direction: Direction, sequence: nat,
    session': Session, direction': Direction, sequence': nat, plaintext: seq<Byte>)
    requires sequence < Range(8) && sequence' < Range(8)
    ensures Open(session', direction', sequence', Seal(session, direction, sequence, plaintext)) ==
            if session == session' && direction == direction' && sequence == sequence' then Some(plaintext) else None
  {
    AadRoundTrip(Aad(direction, sequence), []);
    AadRoundTrip(Aad(direction', sequence'), []);
  }

  // ----- Bytes of keys and hashes -----

  function KeyBytes(key: PublicKey): (b: seq<Byte>)
    ensures |b| == 32
  {
    match key
    case Pub(scalar) => [0] + ToBe(scalar, 31)
    case SmallOrder(id) => [1] + ToBe(id, 31)
  }

  lemma KeySpace()
    ensures Range(31) == KEY_SPACE
  {
    Widths();
    assert Range(12) == 0x1_0000_0000_0000_0000_0000_0000;
    assert Range(16) == 0x1_0000_0000_0000_0000_0000_0000_0000_0000;
    assert Range(20) == 0x1_0000_0000_0000_0000_0000_0000_0000_0000_0000_0000;
    assert Range(24) == 0x1_0000_0000_0000_0000_0000_0000_0000_0000_0000_0000_0000_0000;
    assert Range(28) == 0x1_0000_0000_0000_0000_0000_0000_0000_0000_0000_0000_0000_0000_0000_0000;
  }

  lemma KeyBytesInjective(a: PublicKey, b: PublicKey)
    requires KeyBytes(a) == KeyBytes(b)
    ensures a == b
  {
    KeySpace();
    var x, y := if a.Pub? then a.scalar else a.id, if b.Pub? then b.scalar else b.id;
    FromTo(x, 31);
    FromTo(y, 31);
    assert KeyBytes(a)[1..] == ToBe(x, 31) && KeyBytes(b)[1..] == ToBe(y, 31);
    assert KeyBytes(a)[0] == KeyBytes(b)[0];
  }

  /** Known bytes as they are hashed. */
  function Plains(bytes: seq<Byte>): (s: seq<Symbol>)
    ensures |s| == |bytes|
  {
    if bytes == [] then [] else Plains(bytes[..|bytes| - 1]) + [Plain(bytes[|bytes| - 1])]
  }

  lemma {:induction false} PlainsInjective(a: seq<Byte>, b: seq<Byte>)
    requires Plains(a) == Plains(b)
    ensures a == b
    decreases |a|
  {
    assert |Plains(a)| == |Plains(b)|;
    if a != [] {
      var n := |a| - 1;
      SnocEqual(Plains(a[..n]), Plain(a[n]), Plains(b[..n]), Plain(b[n]));
      PlainsInjective(a[..n], b[..n]);
      assert a == a[..n] + [a[n]] && b == b[..n] + [b[n]];
    }
  }

  lemma SnocEqual<T>(a: seq<T>, x: T, b: seq<T>, y: T)
    requires a + [x] == b + [y]
    ensures a == b && x == y
  {
    assert |a + [x]| == |b + [y]|;
    assert (a + [x])[..|a|] == a && (b + [y])[..|b|] == b;
    assert (a + [x])[|a|] == x && (b + [y])[|b|] == y;
  }

  /** The 32 bytes of a hash. */
  function HashBytes(hash: Salt): (s: seq<Symbol>)
    ensures |s| == 32 && s[0] == OfHash(hash, 0)
  {
    seq(32, i requires 0 <= i => OfHash(hash, i))
  }

  // ----- Transcript encoding -----

  /** What the hasher is fed: each part behind its length. */
  function Encode(parts: seq<seq<Symbol>>): seq<Symbol> {
    if parts == [] then [] else Plains(ToBe(|parts[0]|, 8)) + parts[0] + Encode(parts[1..])
  }

  /** `transcript`: the hash of the encoded parts. */
  method Transcript(parts: seq<seq<Symbol>>) returns (hash: Salt)
    ensures hash == Digest(Encode(parts))
  {
    var fed := [];
    for i := 0 to |parts|
      invariant fed + Encode(parts[i..]) == Encode(parts)
    {
      EncodeFrom(parts, i, fed);
      fed := fed + Plains(ToBe(|parts[i]|, 8));
      fed := fed + parts[i];
    }
    assert fed + [] == fed;
    hash := Digest(fed);
  }

  lemma EncodeFrom(parts: seq<seq<Symbol>>, i: nat, fed: seq<Symbol>)
    requires i < |parts|
    ensures fed + Encode(parts[i..]) == fed + Plains(ToBe(|parts[i]|, 8)) + parts[i] + Encode(parts[i + 1..])
  {
    assert parts[i..][0] == parts[i] && parts[i..][1..] == parts[i + 1..];
  }

  predicate Sized(parts: seq<seq<Symbol>>) {
    forall i :: 0 <= i < |parts| ==> |parts[i]| < Range(8)
  }

  /** Different lists of parts never feed the hasher the same bytes. */
  lemma {:induction false} EncodeInjective(a: seq<seq<Symbol>>, b: seq<seq<Symbol>>)
    requires Sized(a) && Sized(b) && Encode(a) == Encode(b)
    ensures a == b
    decreases |a|
  {
    if a != [] && b != [] {
      HeadEqual(a, b);
      EncodeInjective(a[1..], b[1..]);
      assert a == [a[0]] + a[1..] && b == [b[0]] + b[1..];
    }
  }

  lemma HeadEqual(a: seq<seq<Symbol>>, b: seq<seq<Symbol>>)
    requires a != [] && b != [] && |a[0]| < Range(8) && |b[0]| < Range(8) && Encode(a) == Encode(b)
    ensures a[0] == b[0] && Encode(a[1..]) == Encode(b[1..])
  {
    var n, m := |a[0]|, |b[0]|;
    Apart(Plains(ToBe(n, 8)), a[0], Encode(a[1..]));
    Apart(Plains(ToBe(m, 8)), b[0], Encode(b[1..]));
    PlainsInjective(ToBe(n, 8), ToBe(m, 8));
    FromTo(n, 8);
    FromTo(m, 8);
  }

  lemma Apart(x: seq<Symbol>, y: seq<Symbol>, z: seq<Symbol>)
    ensures var e := x + y + z;
            e[..|x|] == x && e[|x|..|x| + |y|] == y && e[|x| + |y|..] == z
  {
  }
}
