/**
 * The pairing store: codes, attempts, devices, and the file behind them. The clock,
 * the random source, the success of each save and the id derivation are inputs.
 */
module Pairing {
  import opened Common

  const CODE_TTL := 300
  const MAX_CODE_ATTEMPTS := 5
  const MAX_NAME_LEN := 64
  const CODE_DIGITS := 6

  datatype Error = Io | NoPendingCode | WrongCode | TooManyAttempts | NotFound(id: string) | Invalid(what: string)

  datatype Device = Device(
    id: string, name: string, publicKey: string, pairedAt: nat, revoked: bool, revokedAt: Option<nat>)

  /** A salted hash, which tells codes apart. */
  datatype CodeHash = CodeHash(code: string, salt: nat)

  datatype PendingCode = PendingCode(hash: CodeHash, salt: nat, expiresAt: nat, attempts: nat)

  datatype Db = Db(devices: map<string, Device>, pending: Option<PendingCode>)

  const EMPTY := Db(map[], None)

  // ----- Input checks -----

  predicate Alphanumeric(c: char) {
    '0' <= c <= '9' || 'a' <= c <= 'z' || 'A' <= c <= 'Z'
  }

  function Kept(c: char): string {
    if Alphanumeric(c) then [c] else []
  }

  function Cleaned(input: string): string {
    if input == [] then [] else Kept(input[0]) + Cleaned(input[1..])
  }

  predicate IsCode(s: string) {
    |s| == CODE_DIGITS && forall i :: 0 <= i < |s| ==> '0' <= s[i] <= '9'
  }

  /** `PairingCode::parse`; upper-casing cannot make a digit, so it is left out. */
  function ParseCode(input: string): Option<string> {
    if IsCode(Cleaned(input)) then Some(Cleaned(input)) else None
  }

  /** The code as shown to the user, grouped XXX-XXX. */
  function Displayed(code: string): string
    requires |code| == CODE_DIGITS
  {
    code[..CODE_DIGITS / 2] + "-" + code[CODE_DIGITS / 2..]
  }

  lemma {:induction false} CleanedAppend(a: string, b: string)
    ensures Cleaned(a + b) == Cleaned(a) + Cleaned(b)
  {
    if a == [] {
      assert a + b == b;
    } else {
      assert (a + b)[1..] == a[1..] + b;
      CleanedAppend(a[1..], b);
      AppendAssoc(Kept(a[0]), Cleaned(a[1..]), Cleaned(b));
    }
  }

  lemma {:induction false} CleanedDigits(s: string)
    requires forall i :: 0 <= i < |s| ==> '0' <= s[i] <= '9'
    ensures Cleaned(s) == s
  {
    if s != [] {
      CleanedDigits(s[1..]);
    }
  }

  /** A minted code is accepted as such and as displayed. */
  lemma DisplayedCodeParses(code: string)
    requires IsCode(code)
    ensures ParseCode(code) == Some(code) && ParseCode(Displayed(code)) == Some(code)
  {
    CleanedDigits(code);
    CleanedDigits(code[..3]);
    CleanedDigits(code[3..]);
    CleanedAppend(code[..3], "-");
    CleanedAppend(code[..3] + "-", code[3..]);
    assert "-"[1..] == [] && Cleaned("-") == [];
    assert Displayed(code) == (code[..3] + "-") + code[3..];
    assert (code[..3] + []) + code[3..] == code;
  }

  predicate HexDigit(c: char) {
    '0' <= c <= '9' || 'a' <= c <= 'f' || 'A' <= c <= 'F'
  }

  predicate ValidKey(key: string) {
    |key| == 64 && forall i :: 0 <= i < |key| ==> HexDigit(key[i])
  }

  predicate Space(c: char) {
    c == ' ' || c == '\t' || c == '\n' || c == '\r'
  }

  function Trim(s: string): string {
    if s == [] then []
    else if Space(s[0]) then Trim(s[1..])
    else if Space(s[|s| - 1]) then Trim(s[..|s| - 1])
    else s
  }

  predicate AllSpaces(s: string) {
    forall i :: 0 <= i < |s| ==> Space(s[i])
  }

  /** Trimming takes the spaces at both ends off, and nothing more. */
  lemma {:induction false} TrimExactly(s: string) returns (front: string, back: string)
    ensures s == front + Trim(s) + back && AllSpaces(front) && AllSpaces(back)
    ensures Trim(s) != [] ==> !Space(Trim(s)[0]) && !Space(Trim(s)[|Trim(s)| - 1])
    decreases |s|
  {
    front, back := [], [];
    if s != [] {
      if Space(s[0]) {
        front, back := TrimExactly(s[1..]);
        assert s == [s[0]] + s[1..];
        assert s == ([s[0]] + front) + Trim(s) + back;
        front := [s[0]] + front;
      } else if Space(s[|s| - 1]) {
        var init := s[..|s| - 1];
        front, back := TrimExactly(init);
        assert s == init + [s[|s| - 1]];
        assert s == front + Trim(s) + (back + [s[|s| - 1]]);
        back := back + [s[|s| - 1]];
      }
    }
  }

  /** Every digit and every letter of the input is kept, and nothing else. */
  lemma {:induction false} CleanedKeeps(input: string, c: char)
    ensures c in Cleaned(input) <==> c in input && Alphanumeric(c)
    decreases |input|
  {
    if input != [] {
      CleanedKeeps(input[1..], c);
      assert input == [input[0]] + input[1..];
    }
  }

  /** A letter anywhere spoils a code; dashes, spaces and other marks do not matter. */
  lemma LettersSpoil(input: string, c: char)
    requires c in input && ('a' <= c <= 'z' || 'A' <= c <= 'Z')
    ensures ParseCode(input) == None
  {
    CleanedKeeps(input, c);
  }

  /** A revoked record is the same device, marked with the time. */
  lemma RevokedRecord(db: Db, id: string, now: nat, other: string)
    requires Active(db, id) && other != id
    ensures var after := Revoke(db, id, now);
            && id in after.devices && after.pending == db.pending
            && var d, was := after.devices[id], db.devices[id];
            d.revoked && d.revokedAt == Some(now) && d.id == was.id && d.name == was.name
            && d.publicKey == was.publicKey && d.pairedAt == was.pairedAt
            && (other in after.devices <==> other in db.devices)
            && (other in db.devices ==> after.devices[other] == db.devices[other])
  {
  }

  // ----- The three operations, on the record in memory -----

  function Mint(db: Db, code: string, salt: nat, now: nat): Db {
    db.(pending := Some(PendingCode(CodeHash(code, salt), salt, now + CODE_TTL, 0)))
  }

  /** The request as typed: code, device name, hex public key. */
  datatype Request = Request(code: string, name: string, key: string) {
    predicate Acceptable() {
      ParseCode(code).Some? && ValidKey(key) && 0 < |Trim(name)| <= MAX_NAME_LEN
    }
  }

  datatype Verdict = Rejected | Missing | Expired | Exhausted | Wrong | Burned | Right

  /** Which branch `accept_code` takes. */
  function Judge(db: Db, r: Request, now: nat): Verdict {
    if !r.Acceptable() then Rejected
    else if db.pending.None? then Missing
    else
      var p := db.pending.value;
      if now > p.expiresAt then Expired
      else if p.attempts >= MAX_CODE_ATTEMPTS then Exhausted
      else if CodeHash(ParseCode(r.code).value, p.salt) != p.hash then
        if p.attempts + 1 >= MAX_CODE_ATTEMPTS then Burned else Wrong
      else Right
  }

  function NewDevice(r: Request, id: string, now: nat): Device {
    Device(id, Trim(r.name), r.key, now, false, None)
  }

  function Redeem(db: Db, r: Request, id: string, now: nat): Db {
    match Judge(db, r, now)
    case Rejected => db
    case Missing => db
    case Wrong => db.(pending := Some(db.pending.value.(attempts := db.pending.value.attempts + 1)))
    case Expired => db.(pending := None)
    case Exhausted => db.(pending := None)
    case Burned => db.(pending := None)
    case Right => Db(db.devices[id := NewDevice(r, id, now)], None)
  }

  function RedeemResult(db: Db, r: Request, id: string, now: nat): Result<Device, Error> {
    match Judge(db, r, now)
    case Rejected => Err(Invalid("request"))
    case Missing => Err(NoPendingCode)
    case Expired => Err(NoPendingCode)
    case Exhausted => Err(TooManyAttempts)
    case Burned => Err(TooManyAttempts)
    case Wrong => Err(WrongCode)
    case Right => Ok(NewDevice(r, id, now))
  }

  predicate Active(db: Db, id: string) {
    id in db.devices && !db.devices[id].revoked
  }

  function Revoke(db: Db, id: string, now: nat): Db {
    if !Active(db, id) then db
    else db.(devices := db.devices[id := db.devices[id].(revoked := true, revokedAt := Some(now))])
  }

  // ----- The imperative store -----

  class PairingDb {
    var devices: map<string, Device>
    var pending: Option<PendingCode>
    /** What the file holds. */
    var disk: Db

    ghost function Memory(): Db
      reads this
    {
      Db(devices, pending)
    }

    /** `load`. */
    constructor (file: Db)
      ensures Memory() == file && disk == file
    {
      devices, pending, disk := file.devices, file.pending, file;
    }

    method Save(works: bool) returns (ok: bool)
      modifies this`disk
      ensures ok == works && disk == if works then Memory() else old(disk)
    {
      if works {
        disk := Db(devices, pending);
      }
      ok := works;
    }

    method NewCode(code: string, salt: nat, now: nat, works: bool) returns (r: Result<string, Error>)
      modifies this
      ensures Memory() == Mint(old(Memory()), code, salt, now)
      ensures disk == if works then Memory() else old(disk)
      ensures r == if works then Ok(code) else Err(Io)
    {
      pending := Some(PendingCode(CodeHash(code, salt), salt, now + CODE_TTL, 0));
      var ok := Save(works);
      r := if ok then Ok(code) else Err(Io);
    }

    method AcceptCode(request: Request, id: string, now: nat, works: bool) returns (r: Result<Device, Error>)
      modifies this
      ensures Memory() == Redeem(old(Memory()), request, id, now)
      ensures var v := Judge(old(Memory()), request, now);
              if v == Rejected || v == Missing then disk == old(disk) && r == RedeemResult(old(Memory()), request, id, now)
              else if works then disk == Memory() && r == RedeemResult(old(Memory()), request, id, now)
              else disk == old(disk) && r == Err(Io)
    {
      if !request.Acceptable() {
        return Err(Invalid("request"));
      }
      if pending.None? {
        return Err(NoPendingCode);
      }
      var p := pending.value;
      var ok;
      if now > p.expiresAt {
        pending := None;
        ok := Save(works);
        return if ok then Err(NoPendingCode) else Err(Io);
      }
      if p.attempts >= MAX_CODE_ATTEMPTS {
        pending := None;
        ok := Save(works);
        return if ok then Err(TooManyAttempts) else Err(Io);
      }
      if CodeHash(ParseCode(request.code).value, p.salt) != p.hash {
        var attempts := p.attempts + 1;
        pending := if attempts >= MAX_CODE_ATTEMPTS then None else Some(p.(attempts := attempts));
        ok := Save(works);
        return if !ok then Err(Io) else if pending.None? then Err(TooManyAttempts) else Err(WrongCode);
      }
      var device := NewDevice(request, id, now);
      devices := devices[id := device];
      pending := None;
      ok := Save(works);
      r := if ok then Ok(device) else Err(Io);
    }

    method RevokeDevice(id: string, now: nat, works: bool) returns (r: Result<Device, Error>)
      modifies this
      ensures Memory() == Revoke(old(Memory()), id, now)
      ensures if !Active(old(Memory()), id) then disk == old(disk) && r == Err(NotFound(id))
              else if works then disk == Memory() && id in devices && r == Ok(devices[id])
              else disk == old(disk) && r == Err(Io)
    {
      if id !in devices || devices[id].revoked {
        return Err(NotFound(id));
      }
      var revoked := devices[id].(revoked := true, revokedAt := Some(now));
      devices := devices[id := revoked];
      var ok := Save(works);
      r := if ok then Ok(revoked) else Err(Io);
    }
  }
}
