/** Fixed-width big-endian numbers: `to_be_bytes` and `from_be_bytes`. */
module BigEndian {
  import opened Common

  /** 256 to the power `w`: one more than the largest number of `w` bytes. */
  function Range(w: nat): (n: nat)
    ensures n >= 1
  {
    if w == 0 then 1 else 256 * Range(w - 1)
  }

  function ToBe(v: nat, w: nat): (b: seq<Byte>)
    ensures |b| == w
  {
    if w == 0 then [] else ToBe(v / 256, w - 1) + [v % 256]
  }

  function FromBe(b: seq<Byte>): (v: nat)
    ensures v < Range(|b|)
  {
    if b == [] then 0 else 256 * FromBe(b[..|b| - 1]) + b[|b| - 1]
  }

  lemma {:induction false} FromTo(v: nat, w: nat)
    requires v < Range(w)
    ensures FromBe(ToBe(v, w)) == v
  {
    if w > 0 {
      FromTo(v / 256, w - 1);
      assert ToBe(v, w)[..w - 1] == ToBe(v / 256, w - 1);
    }
  }

  lemma {:induction false} ToFrom(b: seq<Byte>)
    ensures ToBe(FromBe(b), |b|) == b
    decreases |b|
  {
    if b != [] {
      var n := |b| - 1;
      ToFrom(b[..n]);
      assert (256 * FromBe(b[..n]) + b[n]) / 256 == FromBe(b[..n]);
      assert b == b[..n] + [b[n]];
    }
  }

  /** The first byte weighs most. */
  lemma {:induction false} FirstByteWeighsMost(first: Byte, rest: seq<Byte>)
    ensures FromBe([first] + rest) == first * Range(|rest|) + FromBe(rest)
    decreases |rest|
  {
    if rest == [] {
      assert ([first] + rest)[..0] == [];
    } else {
      var n := |rest| - 1;
      FirstByteWeighsMost(first, rest[..n]);
      assert ([first] + rest)[..n + 1] == [first] + rest[..n];
      assert first * (256 * Range(n)) == 256 * (first * Range(n));
    }
  }

  lemma Widths()
    ensures Range(2) == 0x1_0000 && Range(4) == 0x1_0000_0000 && Range(8) == 0x1_0000_0000_0000_0000
  {
  }
}
