/**
 * The slice-header bit reader: raw bits of an RBSP segment and unsigned
 * Exp-Golomb codes (section 9.1 of ITU-T H.264).
 */
module BitReader {
  import opened Common

  type Bit = x: int | 0 <= x < 2

  const MAX_LEADING_ZEROS := 32

  /** `(b >> (7 - bit)) & 1`. */
  function BitAt(b: Byte, bit: nat): Bit
    requires bit < 8
  {
    (b / Pow2(7 - bit)) % 2
  }

  predicate Escape(bytes: seq<Byte>, i: nat) {
    i + 2 < |bytes| && bytes[i] == 0 && bytes[i + 1] == 0 && bytes[i + 2] == 3
  }

  /** Where reading continues once byte `i` is used up: three bytes on at an escape. */
  function NextByte(bytes: seq<Byte>, i: nat): nat {
    if Escape(bytes, i) then i + 3 else i + 1
  }

  /** Every bit the reader still has to give, from position (`byte`, `bit`). */
  function Remaining(bytes: seq<Byte>, byte: nat, bit: nat): seq<Bit>
    requires bit < 8
    decreases |bytes| - byte, 8 - bit
  {
    if byte >= |bytes| then []
    else [BitAt(bytes[byte], bit)] +
         if bit == 7 then Remaining(bytes, NextByte(bytes, byte), 0) else Remaining(bytes, byte, bit + 1)
  }

  function LeadingZeros(bits: seq<Bit>): (z: nat)
    ensures z <= |bits|
    ensures forall i :: 0 <= i < z ==> bits[i] == 0
    ensures z < |bits| ==> bits[z] == 1
  {
    if bits == [] || bits[0] == 1 then 0 else 1 + LeadingZeros(bits[1..])
  }

  /** Shifting `bits` one by one into a u32 that starts as `acc`. */
  function ShiftIn(acc: nat, bits: seq<Bit>): nat
    decreases |bits|
  {
    if bits == [] then acc else ShiftIn((2 * acc) % U32 + bits[0], bits[1..])
  }

  /** `value - 1` on a u32; the subtraction wraps where Rust does not check overflow. */
  function Minus1(value: nat): (r: nat)
    ensures r == 0 <==> value == 1
  {
    if value == 0 then U32 - 1 else value - 1
  }

  /** The result of `read_ue` on the bits still to come. */
  function Ue(bits: seq<Bit>): Option<nat> {
    UeAfter(bits, LeadingZeros(bits))
  }

  function UeAfter(bits: seq<Bit>, z: nat): Option<nat>
    requires z <= |bits|
  {
    if z == |bits| || z > MAX_LEADING_ZEROS then None
    else if z == 0 then Some(0)
    else if |bits| < 2 * z + 1 then None
    else Some(Minus1(ShiftIn(1, bits[z + 1..2 * z + 1])))
  }

  /** `exp_golomb_first_mb`. */
  function FirstMb(slice: seq<Byte>): Option<nat> {
    Ue(Remaining(slice, 0, 0))
  }

  lemma {:induction false} ShiftInSnoc(acc: nat, bits: seq<Bit>, b: Bit)
    ensures ShiftIn(acc, bits + [b]) == (2 * ShiftIn(acc, bits)) % U32 + b
    decreases |bits|
  {
    if bits == [] {
      assert ([] + [b])[1..] == [];
    } else {
      assert (bits + [b])[1..] == bits[1..] + [b];
      ShiftInSnoc((2 * acc) % U32 + bits[0], bits[1..], b);
    }
  }

  lemma LeadingZerosIs(bits: seq<Bit>, n: nat)
    requires n <= |bits|
    requires forall i :: 0 <= i < n ==> bits[i] == 0
    ensures LeadingZeros(bits) >= n
    ensures n < |bits| && bits[n] == 1 ==> LeadingZeros(bits) == n
  {
  }

  /** The result, from what is left after the zeros and the one. */
  lemma UeRest(bits: seq<Bit>, z: nat)
    requires z == LeadingZeros(bits) < |bits| && 1 <= z <= MAX_LEADING_ZEROS
    ensures var rest := bits[z + 1..];
            Ue(bits) == if |rest| < z then None else Some(Minus1(ShiftIn(1, rest[..z])))
  {
    if |bits| >= 2 * z + 1 {
      SliceOfRest(bits, z + 1, z);
    }
  }

  class BitReader {
    const bytes: seq<Byte>
    var byte: nat
    var bit: nat

    ghost predicate Valid()
      reads this
    {
      bit < 8
    }

    ghost function Left(): seq<Bit>
      requires Valid()
      reads this
    {
      Remaining(bytes, byte, bit)
    }

    constructor (bytes: seq<Byte>)
      ensures Valid() && this.bytes == bytes && Left() == Remaining(bytes, 0, 0)
    {
      this.bytes := bytes;
      byte, bit := 0, 0;
    }

    method ReadBit() returns (r: Option<Bit>)
      requires Valid()
      modifies this
      ensures Valid()
      ensures r.None? <==> old(Left()) == []
      ensures r.None? ==> Left() == []
      ensures r.Some? ==> r.value == old(Left())[0] && Left() == old(Left())[1..]
    {
      if byte >= |bytes| {
        return None;
      }
      r := Some(BitAt(bytes[byte], bit));
      bit := bit + 1;
      if bit == 8 {
        bit := 0;
        byte := NextByte(bytes, byte);
      }
    }

    /** The first loop of `read_ue`: the zeros before the first one bit, which is consumed too. */
    method ReadLeading() returns (leading: Option<nat>)
      requires Valid()
      modifies this
      ensures Valid()
      ensures var z := LeadingZeros(old(Left()));
              leading == if z == |old(Left())| || z > MAX_LEADING_ZEROS then None else Some(z)
      ensures leading.Some? ==> Left() == old(Left())[leading.value + 1..]
    {
      ghost var all := Left();
      var n := 0;
      var next := ReadBit();
      while next.Some? && next.value == 0
        invariant Valid()
        invariant n <= MAX_LEADING_ZEROS && n <= |all|
        invariant forall i :: 0 <= i < n ==> all[i] == 0
        invariant next.None? ==> n == |all|
        invariant next.Some? ==> n < |all| && all[n] == next.value && Left() == all[n + 1..]
        decreases |all| - n
      {
        n := n + 1;
        if n > MAX_LEADING_ZEROS {
          LeadingZerosIs(all, n);
          return None;
        }
        next := ReadBit();
      }
      LeadingZerosIs(all, n);
      leading := if next.None? then None else Some(n);
    }

    /** The second loop of `read_ue`: shifts the next `count` bits into a u32 that starts as 1. */
    method ReadValue(count: nat) returns (value: Option<nat>)
      requires Valid()
      modifies this
      ensures Valid()
      ensures value == if |old(Left())| < count then None else Some(ShiftIn(1, old(Left())[..count]))
    {
      ghost var body := Left();
      var v := 1;
      for i := 0 to count
        invariant Valid() && i <= |body|
        invariant Left() == body[i..]
        invariant v == ShiftIn(1, body[..i])
      {
        var next := ReadBit();
        if next.None? {
          return None;
        }
        ShiftInSnoc(1, body[..i], next.value);
        assert body[..i + 1] == body[..i] + [next.value];
        v := (2 * v) % U32 + next.value;
      }
      value := Some(v);
    }

    method ReadUe() returns (r: Option<nat>)
      requires Valid()
      modifies this
      ensures Valid()
      ensures r == Ue(old(Left()))
    {
      ghost var all := Left();
      var leading := ReadLeading();
      if leading.None? {
        return None;
      }
      if leading.value == 0 {
        return Some(0);
      }
      UeRest(all, leading.value);
      var value := ReadValue(leading.value);
      if value.None? {
        return None;
      }
      r := Some(Minus1(value.value));
    }
  }

  // ----- Exp-Golomb inversion -----

  /** Binary digits of `n`, most significant first. */
  function Digits(n: nat): (d: seq<Bit>)
    requires n >= 1
    ensures |d| >= 1 && d[0] == 1
  {
    if n == 1 then [1] else Digits(n / 2) + [n % 2]
  }

  function Zeros(n: nat): (z: seq<Bit>)
    ensures |z| == n && forall i :: 0 <= i < n ==> z[i] == 0
  {
    if n == 0 then [] else Zeros(n - 1) + [0]
  }

  /** The `ue(v)` code of `v`: as many zeros as digits follow the leading one of v + 1. */
  function UeCode(v: nat): seq<Bit> {
    Zeros(|Digits(v + 1)| - 1) + Digits(v + 1)
  }

  /** The number the bits spell. */
  function Plain(bits: seq<Bit>): (n: nat)
    ensures n < Pow2(|bits|)
  {
    if bits == [] then 0 else 2 * Plain(bits[..|bits| - 1]) + bits[|bits| - 1]
  }

  lemma {:induction false} Pow2Mono(a: nat, b: nat)
    requires a <= b
    ensures Pow2(a) <= Pow2(b)
    decreases b - a
  {
    if a < b {
      Pow2Mono(a, b - 1);
    }
  }

  lemma Pow2Of31()
    ensures Pow2(31) == 0x8000_0000
  {
    assert Pow2(8) == 256;
    assert Pow2(16) == 65536 by { assert Pow2(12) == 4096; }
    assert Pow2(24) == 16777216 by { assert Pow2(20) == 1048576; }
    assert Pow2(28) == 268435456;
  }

  lemma Pow2Small(n: nat)
    requires n <= 31
    ensures Pow2(n) <= 0x8000_0000
  {
    Pow2Of31();
    Pow2Mono(n, 31);
  }

  lemma DoubleFits(v: nat)
    ensures v < 0x8000_0000 ==> (2 * v) % U32 == 2 * v
    ensures 0x8000_0000 <= v < U32 ==> (2 * v) % U32 == 2 * v - U32
  {
  }

  /** Up to 31 bits follow the leading one without wrapping. */
  lemma {:induction false} ShiftInValue(bits: seq<Bit>)
    requires |bits| <= 31
    ensures ShiftIn(1, bits) == Pow2(|bits|) + Plain(bits) < U32
    decreases |bits|
  {
    Pow2Small(|bits|);
    if bits != [] {
      var init, last := bits[..|bits| - 1], bits[|bits| - 1];
      ShiftInValue(init);
      assert bits == init + [last];
      ShiftInSnoc(1, init, last);
      Pow2Small(|bits| - 1);
      DoubleFits(ShiftIn(1, init));
    }
  }

  lemma TopBitLost(init: seq<Bit>)
    requires |init| == 31
    ensures (2 * ShiftIn(1, init)) % U32 == 2 * Plain(init)
  {
    ShiftInValue(init);
    Pow2Of31();
    DoubleFits(ShiftIn(1, init));
  }

  /** The 32nd bit pushes the leading one out: only the bits themselves are left. */
  lemma ShiftInFull(bits: seq<Bit>)
    requires |bits| == 32
    ensures ShiftIn(1, bits) == Plain(bits)
  {
    var init, last := bits[..31], bits[31];
    assert bits == init + [last];
    ShiftInSnoc(1, init, last);
    TopBitLost(init);
  }

  lemma {:induction false} DigitsLength(n: nat, m: nat)
    requires 1 <= n < Pow2(m)
    ensures |Digits(n)| <= m
    decreases m
  {
    if n > 1 {
      DigitsLength(n / 2, m - 1);
    } else if m == 0 {
      assert false;
    }
  }

  /** Digits after the leading one spell what is left of the number. */
  lemma {:induction false} DigitsValue(n: nat)
    requires n >= 1
    ensures n == Pow2(|Digits(n)| - 1) + Plain(Digits(n)[1..])
  {
    if n > 1 {
      DigitsValue(n / 2);
      DigitsTail(n);
    } else {
      assert Digits(1)[1..] == [];
    }
  }

  lemma DigitsTail(n: nat)
    requires n > 1
    ensures Digits(n)[1..] == Digits(n / 2)[1..] + [n % 2]
    ensures Plain(Digits(n)[1..]) == 2 * Plain(Digits(n / 2)[1..]) + n % 2
  {
    TailSnoc(Digits(n / 2), n % 2);
    PlainSnoc(Digits(n / 2)[1..], n % 2);
  }

  lemma TailSnoc(d: seq<Bit>, b: Bit)
    requires d != []
    ensures (d + [b])[1..] == d[1..] + [b]
  {
  }

  lemma PlainSnoc(t: seq<Bit>, b: Bit)
    ensures Plain(t + [b]) == 2 * Plain(t) + b
  {
    assert (t + [b])[..|t|] == t;
  }

  /** Zeros, a one and as many bits again read as the number after the zeros, less one. */
  lemma UeOfParts(bits: seq<Bit>, k: nat, body: seq<Bit>, rest: seq<Bit>)
    requires |body| == k <= 31 && bits == Zeros(k) + ([1] + body) + rest
    ensures LeadingZeros(bits) == k && |bits| >= 2 * k + 1
    ensures bits[k + 1..2 * k + 1] == body
  {
    assert bits[k] == 1;
    LeadingZerosIs(bits, k);
  }

  lemma NumberOf(body: seq<Bit>)
    requires |body| <= 31
    ensures Minus1(ShiftIn(1, body)) + 1 == Pow2(|body|) + Plain(body) < U32
  {
    ShiftInValue(body);
  }

  lemma ReadsParts(bits: seq<Bit>, k: nat, body: seq<Bit>)
    requires |body| == k <= 31 && |bits| >= 2 * k + 1
    requires bits[k + 1..2 * k + 1] == body
    ensures UeAfter(bits, k).Some?
    ensures UeAfter(bits, k).value + 1 == Pow2(k) + Plain(body) < U32
  {
    NumberOf(body);
  }

  /** Reading back a `ue(v)` code gives the value, whatever follows the code. */
  lemma ReadsBackUe(v: nat, rest: seq<Bit>)
    requires v <= U32 - 2
    ensures Ue(UeCode(v) + rest) == Some(v)
    ensures LeadingZeros(UeCode(v) + rest) <= 31
  {
    var d := Digits(v + 1);
    DigitsAtMost32(v + 1);
    DigitsValue(v + 1);
    ReadsDigits(UeCode(v) + rest, d, rest);
  }

  lemma ReadsDigits(bits: seq<Bit>, d: seq<Bit>, rest: seq<Bit>)
    requires 1 <= |d| <= 32 && d[0] == 1 && bits == Zeros(|d| - 1) + d + rest
    ensures LeadingZeros(bits) <= 31 && Ue(bits).Some?
    ensures Ue(bits).value + 1 == Pow2(|d| - 1) + Plain(d[1..])
  {
    var k := |d| - 1;
    assert d == [1] + d[1..];
    UeOfParts(bits, k, d[1..], rest);
    ReadsParts(bits, k, d[1..]);
  }

  lemma DigitsAtMost32(n: nat)
    requires 1 <= n < U32
    ensures |Digits(n)| <= 32
  {
    Pow2Of31();
    DigitsLength(n, 32);
  }

  lemma UeValue(bits: seq<Bit>, z: nat)
    requires Ue(bits).Some? && z == LeadingZeros(bits) && 1 <= z <= 31
    ensures |bits| >= 2 * z + 1
    ensures Ue(bits).value + 1 == Pow2(z) + Plain(bits[z + 1..2 * z + 1]) < U32
  {
    var body := bits[z + 1..2 * z + 1];
    ReadsParts(bits, z, body);
  }

  lemma {:induction false} DigitsOf(bits: seq<Bit>)
    ensures Digits(Pow2(|bits|) + Plain(bits)) == [1] + bits
    decreases |bits|
  {
    if bits != [] {
      var init, last := bits[..|bits| - 1], bits[|bits| - 1];
      DigitsOf(init);
      DigitsSnoc(Pow2(|init|) + Plain(init), last);
      assert [1] + bits == ([1] + init) + [last];
    }
  }

  lemma DigitsSnoc(n: nat, b: Bit)
    requires n >= 1
    ensures Digits(2 * n + b) == Digits(n) + [b]
  {
  }

  lemma CodeOfDigits(v: nat, d: seq<Bit>)
    requires Digits(v + 1) == d
    ensures UeCode(v) == Zeros(|d| - 1) + d
  {
  }

  lemma {:induction false} AllZeros(s: seq<Bit>)
    requires forall i :: 0 <= i < |s| ==> s[i] == 0
    ensures s == Zeros(|s|)
    decreases |s|
  {
    if s != [] {
      var n := |s| - 1;
      AllZeros(s[..n]);
      assert s == s[..n] + [s[n]];
    }
  }

  lemma InThree(bits: seq<Bit>, z: nat, n: nat)
    requires z < n <= |bits|
    ensures bits[..n] == bits[..z] + ([bits[z]] + bits[z + 1..n])
  {
  }

  lemma CodeAtFront(bits: seq<Bit>, z: nat, body: seq<Bit>)
    requires |bits| >= 2 * z + 1 && LeadingZeros(bits) == z
    requires body == bits[z + 1..2 * z + 1]
    ensures Zeros(z) + ([1] + body) <= bits
  {
    AllZeros(bits[..z]);
    InThree(bits, z, 2 * z + 1);
  }

  lemma LongerCode(bits: seq<Bit>, z: nat)
    requires Ue(bits).Some? && z == LeadingZeros(bits) && 1 <= z <= 31
    ensures UeCode(Ue(bits).value) <= bits
  {
    UeValue(bits, z);
    var body := bits[z + 1..2 * z + 1];
    DigitsOf(body);
    CodeOfDigits(Ue(bits).value, [1] + body);
    CodeAtFront(bits, z, body);
  }

  /** Conversely, a value read after at most 31 zeros is the value whose code stands there. */
  lemma UeIsTheCode(bits: seq<Bit>)
    requires Ue(bits).Some? && LeadingZeros(bits) <= 31
    ensures Ue(bits).value <= U32 - 2
    ensures UeCode(Ue(bits).value) <= bits
  {
    var z := LeadingZeros(bits);
    if z == 0 {
      CodeOfDigits(0, [1]);
      assert bits[..1] == [1];
    } else {
      UeValue(bits, z);
      LongerCode(bits, z);
    }
  }

  /** 32 zeros, a one, and the 32-bit number 1: the code whose top bit is lost to the u32. */
  predicate WrapsToZero(bits: seq<Bit>) {
    |bits| >= 65 && bits[..65] == Zeros(32) + [1] + Zeros(31) + [1]
  }

  lemma {:induction false} PlainIsZero(bits: seq<Bit>)
    ensures Plain(bits) == 0 <==> bits == Zeros(|bits|)
    decreases |bits|
  {
    if bits != [] {
      var n := |bits| - 1;
      PlainIsZero(bits[..n]);
      SplitLast(bits, n, Zeros(n), 0);
    }
  }

  lemma SplitLast(bits: seq<Bit>, n: nat, init: seq<Bit>, last: Bit)
    requires |bits| == n + 1 && |init| == n
    ensures bits == init + [last] <==> bits[..n] == init && bits[n] == last
  {
  }

  lemma PlainIsOne(bits: seq<Bit>, n: nat)
    requires |bits| == n + 1
    ensures Plain(bits) == 1 <==> bits == Zeros(n) + [1]
  {
    PlainIsZero(bits[..n]);
    SplitLast(bits, n, Zeros(n), 1);
  }

  /** A value read after one to 31 zeros is never zero. */
  lemma ShortCodeIsPositive(bits: seq<Bit>)
    requires 1 <= LeadingZeros(bits) <= 31
    ensures Ue(bits) != Some(0) && !WrapsToZero(bits)
  {
    if Ue(bits).Some? {
      UeValue(bits, LeadingZeros(bits));
      Pow2Mono(1, LeadingZeros(bits));
    }
    if WrapsToZero(bits) {
      WrapsAfter32(bits);
    }
  }

  lemma WrapsAfter32(bits: seq<Bit>)
    requires WrapsToZero(bits)
    ensures LeadingZeros(bits) == 32 && bits[33..65] == Zeros(31) + [1]
  {
    var w := Zeros(32) + [1] + Zeros(31) + [1];
    forall i | 0 <= i < 33
      ensures bits[i] == if i < 32 then 0 else 1
    {
      assert bits[..65][i] == w[i];
    }
    LeadingZerosIs(bits, 32);
    assert w[33..] == Zeros(31) + [1];
    assert bits[..65][33..] == bits[33..65];
  }

  lemma WrapsWhenOne(bits: seq<Bit>)
    requires LeadingZeros(bits) == 32 && |bits| >= 65 && bits[33..65] == Zeros(31) + [1]
    ensures WrapsToZero(bits)
  {
  }

  /** After 32 zeros the value read is zero for one code only. */
  lemma LongCodeIsZero(bits: seq<Bit>)
    requires LeadingZeros(bits) == 32 && |bits| >= 65
    ensures Ue(bits) == Some(0) <==> WrapsToZero(bits)
  {
    var body := bits[33..65];
    ShiftInFull(body);
    PlainIsOne(body, 31);
    if body == Zeros(31) + [1] {
      WrapsWhenOne(bits);
    }
    if WrapsToZero(bits) {
      WrapsAfter32(bits);
    }
  }

  /**
   * Exactly when the H.264 new-picture test reads `first_mb_in_slice == 0`: the first
   * bit is one, or the slice opens with the one code that wraps the u32 round to 1.
   */
  lemma FirstMbIsZero(slice: seq<Byte>)
    ensures var bits := Remaining(slice, 0, 0);
            FirstMb(slice) == Some(0) <==> (bits != [] && bits[0] == 1) || WrapsToZero(bits)
  {
    var bits := Remaining(slice, 0, 0);
    var z := LeadingZeros(bits);
    if WrapsToZero(bits) {
      WrapsAfter32(bits);
    }
    if 1 <= z <= 31 {
      ShortCodeIsPositive(bits);
    } else if z == 32 && |bits| >= 65 {
      LongCodeIsZero(bits);
    }
  }

  // ----- Emulation prevention -----

  /** The bits of one byte from bit `k` on, most significant first. */
  function ByteBits(b: Byte, k: nat): (bits: seq<Bit>)
    requires k <= 8
    ensures |bits| == 8 - k
    decreases 8 - k
  {
    if k == 8 then [] else [BitAt(b, k)] + ByteBits(b, k + 1)
  }

  /** All bits of the bytes from `i` on. */
  function BitsFrom(bytes: seq<Byte>, i: nat): seq<Bit>
    decreases |bytes| - i
  {
    if i >= |bytes| then [] else ByteBits(bytes[i], 0) + BitsFrom(bytes, i + 1)
  }

  /** The eight bits of a byte spell it. */
  lemma ByteSpelled(b: Byte)
    ensures Plain(ByteBits(b, 0)) == b
  {
    PlainBitsFrom(b, 0);
    SmallPowers();
  }

  lemma {:induction false} PlainBitsFrom(b: Byte, k: nat)
    requires k <= 8
    ensures Plain(ByteBits(b, k)) == b % Pow2(8 - k)
    decreases 8 - k
  {
    if k < 8 {
      PlainBitsFrom(b, k + 1);
      PlainCons(BitAt(b, k), ByteBits(b, k + 1));
      TopDigit(b, k);
    }
  }

  lemma TopDigit(b: Byte, k: nat)
    requires k < 8
    ensures b % Pow2(8 - k) == BitAt(b, k) * Pow2(7 - k) + b % Pow2(7 - k)
  {
    assert Pow2(8 - k) == 2 * Pow2(7 - k);
    ModDouble(b, Pow2(7 - k));
  }

  lemma ModDouble(b: nat, p: nat)
    requires p >= 1
    ensures b % (2 * p) == (b / p % 2) * p + b % p
  {
    var q, r := b / p, b % p;
    var bit, half := q % 2, q / 2;
    var low := bit * p;
    assert b == p * q + r;
    assert p * q == (2 * p) * half + low by { assert q == 2 * half + bit; }
    assert 0 <= low <= p;
    DivModUnique(b, 2 * p, half, low + r);
  }

  lemma {:induction false} PlainCons(x: Bit, rest: seq<Bit>)
    ensures Plain([x] + rest) == x * Pow2(|rest|) + Plain(rest)
    decreases |rest|
  {
    if rest == [] {
      assert [x] + rest == [] + [x];
      PlainSnoc([], x);
    } else {
      var n := |rest| - 1;
      assert rest == rest[..n] + [rest[n]];
      assert [x] + rest == ([x] + rest[..n]) + [rest[n]];
      PlainCons(x, rest[..n]);
      PlainSnoc([x] + rest[..n], rest[n]);
      PlainSnoc(rest[..n], rest[n]);
      assert x * (2 * Pow2(n)) == 2 * (x * Pow2(n));
    }
  }

  predicate NoEscape(bytes: seq<Byte>, from: nat) {
    forall i: nat :: from <= i < |bytes| ==> !Escape(bytes, i)
  }

  lemma {:induction false} RestOfByte(bytes: seq<Byte>, i: nat, bit: nat)
    requires i < |bytes| && bit < 8
    ensures Remaining(bytes, i, bit) == ByteBits(bytes[i], bit) + Remaining(bytes, NextByte(bytes, i), 0)
    decreases 8 - bit
  {
    if bit < 7 {
      RestOfByte(bytes, i, bit + 1);
    } else {
      assert ByteBits(bytes[i], 7) == [BitAt(bytes[i], 7)];
    }
  }

  /** Without an escape the reader gives every bit of the input in order. */
  lemma {:induction false} PlainBits(bytes: seq<Byte>, i: nat)
    requires NoEscape(bytes, i)
    ensures Remaining(bytes, i, 0) == BitsFrom(bytes, i)
    decreases |bytes| - i
  {
    if i < |bytes| {
      RestOfByte(bytes, i, 0);
      PlainBits(bytes, i + 1);
    }
  }

  /** No escape starts at a byte from `i` up to, not including, `n`. */
  predicate NoEscapeUpTo(bytes: seq<Byte>, i: nat, n: nat) {
    forall k: nat :: i <= k < n ==> !Escape(bytes, k)
  }

  /** The bits of the bytes up to and including byte `n` are the same to the reader. */
  lemma {:induction false} SameUpTo(bytes: seq<Byte>, i: nat, n: nat, len: nat)
    requires i <= n < |bytes| && NoEscapeUpTo(bytes, i, n) && len <= 8 * (n + 1 - i)
    ensures len <= |Remaining(bytes, i, 0)| && len <= |BitsFrom(bytes, i)|
    ensures Remaining(bytes, i, 0)[..len] == BitsFrom(bytes, i)[..len]
    decreases n - i
  {
    RestOfByte(bytes, i, 0);
    var b := ByteBits(bytes[i], 0);
    if i == n {
      FrontOf(b, Remaining(bytes, NextByte(bytes, i), 0), BitsFrom(bytes, i + 1), len);
    } else {
      var more := if len <= 8 then 0 else len - 8;
      SameUpTo(bytes, i + 1, n, more);
      FrontOf(b, Remaining(bytes, i + 1, 0), BitsFrom(bytes, i + 1), len);
    }
  }

  lemma FrontOf(b: seq<Bit>, x: seq<Bit>, y: seq<Bit>, len: nat)
    requires len <= |b| || (len - |b| <= |x| && len - |b| <= |y| && x[..len - |b|] == y[..len - |b|])
    ensures len <= |b + x| && len <= |b + y| && (b + x)[..len] == (b + y)[..len]
  {
    if len <= |b| {
      assert (b + x)[..len] == b[..len] && (b + y)[..len] == b[..len];
    } else {
      assert (b + x)[..len] == b + x[..len - |b|] && (b + y)[..len] == b + y[..len - |b|];
    }
  }

  lemma CodeInFront(slice: seq<Byte>, code: seq<Bit>, n: nat)
    requires code != [] && code <= BitsFrom(slice, 0) && n == (|code| - 1) / 8 && NoEscapeUpTo(slice, 0, n)
    ensures |code| <= |Remaining(slice, 0, 0)|
    ensures Remaining(slice, 0, 0) == code + Remaining(slice, 0, 0)[|code|..]
  {
    BitsLength(slice, 0);
    SameUpTo(slice, 0, n, |code|);
    Rejoined(Remaining(slice, 0, 0), code);
  }

  lemma Rejoined(bits: seq<Bit>, code: seq<Bit>)
    requires |code| <= |bits| && bits[..|code|] == code
    ensures bits == code + bits[|code|..]
  {
  }

  /**
   * A packed `ue(v)` code reads back as its value when no escape starts at a byte that
   * the reader uses up before the code ends; escapes from its last byte on do no harm.
   */
  lemma PackedUeReadsBack(v: nat, slice: seq<Byte>)
    requires v <= U32 - 2 && UeCode(v) <= BitsFrom(slice, 0)
    requires NoEscapeUpTo(slice, 0, (|UeCode(v)| - 1) / 8)
    ensures FirstMb(slice) == Some(v)
  {
    var bits := Remaining(slice, 0, 0);
    CodeInFront(slice, UeCode(v), (|UeCode(v)| - 1) / 8);
    ReadsBackUe(v, bits[|UeCode(v)|..]);
  }

  /** The RBSP of section 7.4.1 of ITU-T H.264: only the 03 after two zeros is removed. */
  function Unescaped(bytes: seq<Byte>, i: nat): seq<Byte>
    decreases |bytes| - i
  {
    if i >= |bytes| then []
    else if Escape(bytes, i) then [0, 0] + Unescaped(bytes, i + 3)
    else [bytes[i]] + Unescaped(bytes, i + 1)
  }

  /** Escapes met while reading from `i`. */
  function Escapes(bytes: seq<Byte>, i: nat): nat
    decreases |bytes| - i
  {
    if i >= |bytes| then 0 else (if Escape(bytes, i) then 1 else 0) + Escapes(bytes, NextByte(bytes, i))
  }

  /** Each escape costs the reader one zero byte of the RBSP. */
  lemma {:induction false} EscapeLosesAByte(bytes: seq<Byte>, i: nat)
    ensures |Remaining(bytes, i, 0)| + 8 * Escapes(bytes, i) == |BitsFrom(Unescaped(bytes, i), 0)|
    ensures |BitsFrom(Unescaped(bytes, i), 0)| == 8 * |Unescaped(bytes, i)|
    decreases |bytes| - i
  {
    BitsLength(Unescaped(bytes, i), 0);
    if i < |bytes| {
      RestOfByte(bytes, i, 0);
      EscapeLosesAByte(bytes, NextByte(bytes, i));
    }
  }

  lemma {:induction false} BitsLength(bytes: seq<Byte>, i: nat)
    ensures |BitsFrom(bytes, i)| == if i < |bytes| then 8 * (|bytes| - i) else 0
    decreases |bytes| - i
  {
    if i < |bytes| {
      BitsLength(bytes, i + 1);
    }
  }

  /** The shortest input with an escape: of the RBSP 00 00 the reader gives one byte. */
  lemma EscapedInput(bytes: seq<Byte>)
    requires bytes == [0, 0, 3]
    ensures Unescaped(bytes, 0) == [0, 0] && |Remaining(bytes, 0, 0)| == 8
  {
    assert Escape(bytes, 0) && Escapes(bytes, 3) == 0;
    EscapeLosesAByte(bytes, 0);
  }

  lemma {:induction false} NoEscapeUnescaped(bytes: seq<Byte>, i: nat)
    requires NoEscape(bytes, i) && i <= |bytes|
    ensures Unescaped(bytes, i) == bytes[i..]
    decreases |bytes| - i
  {
    if i < |bytes| {
      NoEscapeUnescaped(bytes, i + 1);
    }
  }

  lemma {:induction false} EscapesCounts(bytes: seq<Byte>, i: nat)
    ensures Escapes(bytes, i) == 0 <==> NoEscape(bytes, i)
    decreases |bytes| - i
  {
    if i < |bytes| {
      EscapesCounts(bytes, NextByte(bytes, i));
      if !Escape(bytes, i) && NoEscape(bytes, i + 1) {
        assert NoEscape(bytes, i);
      }
    }
  }

  /** The reader gives the bits of the RBSP exactly when the input holds no 00 00 03. */
  lemma ReadsTheRbsp(bytes: seq<Byte>)
    ensures Remaining(bytes, 0, 0) == BitsFrom(Unescaped(bytes, 0), 0) <==> NoEscape(bytes, 0)
  {
    EscapeLosesAByte(bytes, 0);
    EscapesCounts(bytes, 0);
    if NoEscape(bytes, 0) {
      PlainBits(bytes, 0);
      NoEscapeUnescaped(bytes, 0);
      assert bytes[0..] == bytes;
    }
  }

  lemma {:induction false} BitsOfZero(b: Byte, k: nat)
    requires b == 0 && k <= 8
    ensures ByteBits(b, k) == Zeros(8 - k)
    decreases 8 - k
  {
    if k < 8 {
      BitsOfZero(b, k + 1);
      assert Zeros(8 - k) == [0] + Zeros(7 - k);
    }
  }

  lemma SmallPowers()
    ensures Pow2(0) == 1 && Pow2(1) == 2 && Pow2(2) == 4 && Pow2(3) == 8
    ensures Pow2(4) == 16 && Pow2(5) == 32 && Pow2(6) == 64 && Pow2(7) == 128
  {
  }

  lemma BitOf128(b: Byte, k: nat)
    requires b == 128 && k < 8
    ensures BitAt(b, k) == if k == 0 then 1 else 0
  {
    SmallPowers();
    assert k == 0 || k == 1 || k == 2 || k == 3 || k == 4 || k == 5 || k == 6 || k == 7;
  }

  lemma {:induction false} BitsOf128(b: Byte, k: nat)
    requires b == 128 && 1 <= k <= 8
    ensures ByteBits(b, k) == Zeros(8 - k)
    decreases 8 - k
  {
    if k < 8 {
      BitsOf128(b, k + 1);
      BitOf128(b, k);
      assert Zeros(8 - k) == [0] + Zeros(7 - k);
    }
  }

  lemma ZerosAhead(a: nat, b: nat, rest: seq<Bit>)
    ensures Zeros(a) + (Zeros(b) + rest) == Zeros(a + b) + rest
  {
  }

  /** A zero byte ahead of `n` zero bits. */
  lemma ZeroByte(bytes: seq<Byte>, i: nat, n: nat, m: nat, rest: seq<Bit>)
    requires i < |bytes| && bytes[i] == 0 && BitsFrom(bytes, i + 1) == Zeros(n) + rest && m == n + 8
    ensures BitsFrom(bytes, i) == Zeros(m) + rest
  {
    BitsOfZero(bytes[i], 0);
    ZerosAhead(8, n, rest);
  }

  lemma NoZeros(m: nat, rest: seq<Bit>)
    requires m == 0
    ensures Zeros(m) + rest == rest
  {
  }

  lemma TwoZeroBytes(bytes: seq<Byte>, i: nat, n: nat, m: nat, rest: seq<Bit>)
    requires i + 1 < |bytes| && bytes[i] == 0 && bytes[i + 1] == 0
    requires BitsFrom(bytes, i + 2) == Zeros(n) + rest && m == n + 16
    ensures BitsFrom(bytes, i) == Zeros(m) + rest
  {
    ZeroByte(bytes, i + 1, n, n + 8, rest);
    ZeroByte(bytes, i, n + 8, m, rest);
  }

  /** A byte 80 ahead of `n` zero bits. */
  lemma MarkerByte(bytes: seq<Byte>, i: nat, n: nat, rest: seq<Bit>)
    requires i < |bytes| && bytes[i] == 128 && BitsFrom(bytes, i + 1) == Zeros(n) + rest
    ensures BitsFrom(bytes, i) == [1] + (Zeros(n + 7) + rest)
  {
    BitsOf128(bytes[i], 1);
    BitOf128(bytes[i], 0);
    ZerosAhead(7, n, rest);
    assert ([1] + Zeros(7)) + (Zeros(n) + rest) == [1] + (Zeros(7) + (Zeros(n) + rest));
  }

  lemma LastByte(slice: seq<Byte>)
    requires |slice| == 9 && slice[8] == 128
    ensures BitsFrom(slice, 8) == [1] + Zeros(7)
  {
    assert BitsFrom(slice, 9) == Zeros(0) + [];
    MarkerByte(slice, 8, 0, []);
    assert Zeros(7) + [] == Zeros(7);
  }

  lemma FourZeroBytes(bytes: seq<Byte>, i: nat, n: nat, m: nat, rest: seq<Bit>)
    requires i + 3 < |bytes| && bytes[i] == 0 && bytes[i + 1] == 0 && bytes[i + 2] == 0 && bytes[i + 3] == 0
    requires BitsFrom(bytes, i + 4) == Zeros(n) + rest && m == n + 32
    ensures BitsFrom(bytes, i) == Zeros(m) + rest
  {
    TwoZeroBytes(bytes, i + 2, n, n + 16, rest);
    TwoZeroBytes(bytes, i, n + 16, m, rest);
  }

  /** A byte 80 and three zero bytes ahead of `n` zero bits. */
  lemma MarkerWord(bytes: seq<Byte>, i: nat, n: nat, m: nat, rest: seq<Bit>)
    requires i + 3 < |bytes| && bytes[i] == 128 && bytes[i + 1] == 0 && bytes[i + 2] == 0 && bytes[i + 3] == 0
    requires BitsFrom(bytes, i + 4) == Zeros(n) + rest && m == n + 31
    ensures BitsFrom(bytes, i) == [1] + (Zeros(m) + rest)
  {
    TwoZeroBytes(bytes, i + 2, n, n + 16, rest);
    ZeroByte(bytes, i + 1, n + 16, n + 24, rest);
    MarkerByte(bytes, i, n + 24, rest);
  }

  lemma WrappingBits(slice: seq<Byte>)
    requires slice == [0, 0, 0, 0, 128, 0, 0, 0, 128]
    ensures BitsFrom(slice, 0) == Zeros(32) + ([1] + (Zeros(31) + ([1] + Zeros(7))))
  {
    var last := BitsFrom(slice, 8);
    LastByte(slice);
    NoZeros(0, last);
    MarkerWord(slice, 4, 0, 31, last);
    var tail := BitsFrom(slice, 4);
    NoZeros(0, tail);
    FourZeroBytes(slice, 0, 0, 32, tail);
  }

  /** The smallest slice of the second kind: its first bit is zero, yet it reads as zero. */
  lemma WrappingSlice(slice: seq<Byte>)
    requires slice == [0, 0, 0, 0, 128, 0, 0, 0, 128]
    ensures FirstMb(slice) == Some(0) && Remaining(slice, 0, 0) != [] && Remaining(slice, 0, 0)[0] == 0
  {
    PlainBits(slice, 0);
    WrappingBits(slice);
    var bits := BitsFrom(slice, 0);
    assert bits[..65] == Zeros(32) + [1] + Zeros(31) + [1];
    FirstMbIsZero(slice);
  }
}
