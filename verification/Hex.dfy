/** Hex text: `hex::encode`, and the device-id decoder of the service. */
module Hex {
  import opened Common

  function Digit(n: nat): char
    requires n < 16
  {
    if n < 10 then '0' + n as char else 'a' + (n - 10) as char
  }

  function Encode(bytes: seq<Byte>): (s: string)
    ensures |s| == 2 * |bytes|
  {
    if bytes == [] then [] else [Digit(bytes[0] / 16), Digit(bytes[0] % 16)] + Encode(bytes[1..])
  }

  /** Lower-case hex digits only. */
  lemma {:induction false} EncodeIsLowerHex(bytes: seq<Byte>, i: nat)
    requires i < |Encode(bytes)|
    ensures '0' <= Encode(bytes)[i] <= '9' || 'a' <= Encode(bytes)[i] <= 'f'
    decreases |bytes|
  {
    if i >= 2 {
      EncodeIsLowerHex(bytes[1..], i - 2);
    }
  }

  function Value(c: char): Option<nat> {
    if '0' <= c <= '9' then Some((c - '0') as int)
    else if 'a' <= c <= 'f' then Some((c - 'a') as int + 10)
    else if 'A' <= c <= 'F' then Some((c - 'A') as int + 10)
    else None
  }

  /** `u8::from_str_radix(two chars, 16)`, which also takes a leading plus sign. */
  function Pair(hi: char, lo: char): Option<Byte> {
    var h, l := Value(hi), Value(lo);
    if l.None? then None
    else if hi == '+' then Some(l.value)
    else if h.None? then None
    else if h.value * 16 + l.value < 256 then Some(h.value * 16 + l.value)
    else None
  }

  /** Pairs of characters from `i` on. */
  function Decode(s: string): (r: Option<seq<Byte>>)
    requires |s| % 2 == 0
    ensures r.Some? ==> 2 * |r.value| == |s|
  {
    if s == [] then Some([])
    else
      var first, rest := Pair(s[0], s[1]), Decode(s[2..]);
      if first.None? || rest.None? then None else Some([first.value] + rest.value)
  }

  /** `decode_device_id`: exactly sixteen characters. */
  function DecodeDeviceId(s: string): (r: Option<seq<Byte>>)
    ensures r.Some? ==> |r.value| == 8
  {
    if |s| != 16 then None else Decode(s)
  }

  method DecodeDeviceIdLoop(s: string) returns (r: Option<seq<Byte>>)
    ensures r == DecodeDeviceId(s)
  {
    if |s| != 16 {
      return None;
    }
    var out: seq<Byte> := [];
    DecodeAll(s, out);
    for i := 0 to 8
      invariant Decode(s) == Behind(out, Decode(s[2 * i..]))
    {
      DecodeNext(s, i, out);
      var byte := Pair(s[2 * i], s[2 * i + 1]);
      if byte.None? {
        return None;
      }
      out := out + [byte.value];
    }
    assert s[16..] == [] && out + [] == out;
    r := Some(out);
  }

  /** Bytes decoded before those of the rest. */
  function Behind(out: seq<Byte>, rest: Option<seq<Byte>>): Option<seq<Byte>> {
    if rest.None? then None else Some(out + rest.value)
  }

  lemma DecodeAll(s: string, none: seq<Byte>)
    requires |s| % 2 == 0 && none == []
    ensures s[0..] == s && Decode(s) == Behind(none, Decode(s))
  {
    if Decode(s).Some? {
      assert none + Decode(s).value == Decode(s).value;
    }
  }

  lemma DecodeNext(s: string, i: nat, out: seq<Byte>)
    requires |s| % 2 == 0 && 2 * i < |s|
    ensures var byte := Pair(s[2 * i], s[2 * i + 1]);
            Behind(out, Decode(s[2 * i..])) ==
            if byte.None? then None else Behind(out + [byte.value], Decode(s[2 * (i + 1)..]))
  {
    var left := s[2 * i..];
    assert left[2..] == s[2 * (i + 1)..];
    var byte, rest := Pair(s[2 * i], s[2 * i + 1]), Decode(left[2..]);
    if byte.Some? && rest.Some? {
      AppendAssoc(out, [byte.value], rest.value);
    }
  }

  lemma DigitValue(n: nat)
    requires n < 16
    ensures Value(Digit(n)) == Some(n) && Digit(n) != '+'
  {
  }

  lemma PairOfByte(b: Byte)
    ensures Pair(Digit(b / 16), Digit(b % 16)) == Some(b)
  {
    DigitValue(b / 16);
    DigitValue(b % 16);
  }

  lemma DecodePair(hi: char, lo: char, rest: string)
    requires |rest| % 2 == 0 && Pair(hi, lo).Some? && Decode(rest).Some?
    ensures Decode([hi, lo] + rest) == Some([Pair(hi, lo).value] + Decode(rest).value)
  {
    assert ([hi, lo] + rest)[2..] == rest;
  }

  lemma {:induction false} DecodeEncode(bytes: seq<Byte>)
    ensures Decode(Encode(bytes)) == Some(bytes)
  {
    if bytes != [] {
      PairOfByte(bytes[0]);
      DecodeEncode(bytes[1..]);
      DecodePair(Digit(bytes[0] / 16), Digit(bytes[0] % 16), Encode(bytes[1..]));
      HeadAndTail(bytes);
    }
  }

  /** The id the engine gets is the id whose text the trust store holds. */
  lemma DeviceIdRoundTrip(id: seq<Byte>)
    requires |id| == 8
    ensures DecodeDeviceId(Encode(id)) == Some(id)
  {
    DecodeEncode(id);
  }
}
