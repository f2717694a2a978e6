/**
 * The 64-wide replay window over 32-bit sequence numbers (section 3.3.2 of RFC 3711,
 * section 3.4.3 of RFC 4303, with the serial arithmetic of section 3.2 of RFC 1982),
 * and the set of unbounded indices it stands for.
 */
module ReplayWindow {
  import opened Common

  const HALF := 0x8000_0000
  const U64 := 0x1_0000_0000_0000_0000
  const WIDTH := 64

  /** A u32 difference, wrapping. */
  function WrapSub(a: nat, b: nat): nat
    requires a < U32 && b < U32
  {
    (a + U32 - b) % U32
  }

  // ----- Bits of a u64 -----

  predicate Bit(n: nat, k: nat) {
    if k == 0 then n % 2 == 1 else Bit(n / 2, k - 1)
  }

  /** `n << s` on a u64. */
  function Shl(n: nat, s: nat): nat {
    if s == 0 then n else (2 * Shl(n, s - 1)) % U64
  }

  /** `n | 1 << k`. */
  function OrBit(n: nat, k: nat): nat {
    if k == 0 then (if n % 2 == 1 then n else n + 1) else 2 * OrBit(n / 2, k - 1) + n % 2
  }

  lemma {:induction false} OrBitSets(n: nat, k: nat, j: nat)
    ensures Bit(OrBit(n, k), j) <==> j == k || Bit(n, j)
  {
    if k == 0 || j == 0 {
      if k == 0 && j > 0 {
        assert OrBit(n, 0) / 2 == n / 2;
      }
    } else {
      OrBitSets(n / 2, k - 1, j - 1);
      assert OrBit(n, k) / 2 == OrBit(n / 2, k - 1);
    }
  }

  lemma {:induction false} BitOfMod(n: nat, m: nat, k: nat)
    requires k < m
    ensures Bit(n % Pow2(m), k) == Bit(n, k)
    decreases m
  {
    ModHalves(n, Pow2(m - 1));
    if k > 0 {
      BitOfMod(n / 2, m - 1, k - 1);
    }
  }

  lemma ModHalves(n: nat, p: nat)
    requires p >= 1
    ensures (n % (2 * p)) % 2 == n % 2
    ensures (n % (2 * p)) / 2 == (n / 2) % p
  {
    var q := n / (2 * p);
    var r := n % (2 * p);
    var pq := p * q;
    assert n == 2 * pq + r by { assert (2 * p) * q == 2 * pq; }
    assert n / 2 == pq + r / 2 && n % 2 == r % 2;
    DivModUnique(n / 2, p, q, r / 2);
  }

  lemma U64IsPow2()
    ensures Pow2(64) == U64
  {
    assert Pow2(16) == 0x1_0000 by { assert Pow2(8) == 256; assert Pow2(12) == 4096; }
    assert Pow2(32) == 0x1_0000_0000 by { assert Pow2(24) == 0x100_0000 by { assert Pow2(20) == 0x10_0000; } assert Pow2(28) == 0x1000_0000; }
    assert Pow2(48) == 0x1_0000_0000_0000 by { assert Pow2(40) == 0x100_0000_0000 by { assert Pow2(36) == 0x10_0000_0000; } assert Pow2(44) == 0x1000_0000_0000; }
    assert Pow2(56) == 0x100_0000_0000_0000 by { assert Pow2(52) == 0x10_0000_0000_0000; }
    assert Pow2(60) == 0x1000_0000_0000_0000;
  }

  lemma {:induction false} ShlMoves(n: nat, s: nat, k: nat)
    requires k < 64
    ensures Bit(Shl(n, s), k) <==> k >= s && Bit(n, k - s)
    decreases s
  {
    if s > 0 {
      var m := Shl(n, s - 1);
      U64IsPow2();
      BitOfMod(2 * m, 64, k);
      assert Bit(2 * m, k) <==> k > 0 && Bit(m, k - 1);
      if k > 0 {
        ShlMoves(n, s - 1, k - 1);
      }
    }
  }

  // ----- The window -----

  datatype Window = Window(highest: Option<nat>, bitmap: nat) {
    predicate Valid() {
      && (highest.Some? ==> highest.value < U32)
      && bitmap < U64
    }
  }

  const FRESH := Window(None, 0)

  predicate Check(w: Window, sequence: nat)
    requires w.Valid() && sequence < U32
  {
    w.highest.None? ||
    var forward := WrapSub(sequence, w.highest.value);
    var behind := WrapSub(w.highest.value, sequence);
    (forward != 0 && forward < HALF) ||
    (forward != 0 && behind < WIDTH && !Bit(w.bitmap, behind))
  }

  /** The window after committing `sequence`; unchanged when the check fails. */
  function Commit(w: Window, sequence: nat): (r: Window)
    requires w.Valid() && sequence < U32
  {
    if !Check(w, sequence) then w
    else if w.highest.None? then Window(Some(sequence), 1)
    else
      var forward := WrapSub(sequence, w.highest.value);
      if forward != 0 && forward < HALF
      then Window(Some(sequence), if forward >= WIDTH then 1 else OrBit(Shl(w.bitmap, forward), 0))
      else w.(bitmap := OrBit(w.bitmap, WrapSub(w.highest.value, sequence)))
  }

  class ReplayWindow {
    var highest: Option<nat>
    var bitmap: nat

    ghost function State(): Window
      reads this
    {
      Window(highest, bitmap)
    }

    constructor ()
      ensures State() == FRESH
    {
      highest, bitmap := None, 0;
    }

    method CheckSequence(sequence: nat) returns (unseen: bool)
      requires State().Valid() && sequence < U32
      ensures unseen == Check(State(), sequence)
    {
      if highest.None? {
        return true;
      }
      var forward := WrapSub(sequence, highest.value);
      if forward != 0 && forward < HALF {
        return true;
      }
      if forward == 0 {
        return false;
      }
      var behind := WrapSub(highest.value, sequence);
      if behind >= WIDTH {
        return false;
      }
      unseen := !Bit(bitmap, behind);
    }

    method CommitSequence(sequence: nat) returns (ok: bool)
      requires State().Valid() && sequence < U32
      modifies this
      ensures ok == Check(old(State()), sequence)
      ensures State() == Commit(old(State()), sequence)
    {
      ok := CheckSequence(sequence);
      if !ok {
        return;
      }
      if highest.None? {
        highest, bitmap := Some(sequence), 1;
        return;
      }
      var forward := WrapSub(sequence, highest.value);
      if forward != 0 && forward < HALF {
        bitmap := if forward >= WIDTH then 1 else OrBit(Shl(bitmap, forward), 0);
        highest := Some(sequence);
      } else {
        bitmap := OrBit(bitmap, WrapSub(highest.value, sequence));
      }
    }
  }

  // ----- What the window stands for -----

  /** All indices accepted so far, unbounded, with the largest of them. */
  datatype Ideal = Ideal(top: Option<int>, seen: set<int>)

  const NOTHING := Ideal(None, {})

  predicate Fresh(s: Ideal, i: int) {
    s.top.None? || i > s.top.value || (s.top.value - i < WIDTH && i !in s.seen)
  }

  function Admit(s: Ideal, i: int): Ideal {
    if !Fresh(s, i) then s
    else Ideal(Some(if s.top.Some? && s.top.value > i then s.top.value else i), s.seen + {i})
  }

  /** `i` lies in the half range around the top that serial arithmetic can tell apart. */
  predicate Near(s: Ideal, i: int) {
    s.top.Some? ==> -HALF <= i - s.top.value < HALF
  }

  /** Bit k of the window is index top - k; everything seen is at or below the top. */
  ghost predicate StandsFor(w: Window, s: Ideal) {
    && w.Valid()
    && (w.highest.None? <==> s.top.None?)
    && (s.top.None? ==> s.seen == {})
    && (s.top.Some? ==>
          && w.highest.value == s.top.value % U32
          && s.top.value in s.seen
          && (forall i :: i in s.seen ==> i <= s.top.value)
          && (forall k: nat :: k < WIDTH ==> (Bit(w.bitmap, k) <==> s.top.value - k in s.seen)))
  }

  lemma WrapSubIs(a: int, b: int)
    ensures WrapSub(a % U32, b % U32) == (a - b) % U32
  {
  }

  lemma {:induction false} NoBits(k: nat)
    ensures !Bit(0, k)
  {
    if k > 0 {
      NoBits(k - 1);
    }
  }

  lemma OneBit(k: nat)
    ensures Bit(1, k) <==> k == 0
  {
    if k > 0 {
      NoBits(k - 1);
    }
  }

  lemma {:induction false} OrBitBound(n: nat, k: nat, m: nat)
    requires n < Pow2(m) && k < m
    ensures OrBit(n, k) < Pow2(m)
  {
    OrBitHalves(n, k);
    assert Pow2(m) == 2 * Pow2(m - 1);
    if k > 0 {
      OrBitBound(n / 2, k - 1, m - 1);
    }
  }

  lemma OrBitHalves(n: nat, k: nat)
    ensures OrBit(n, k) <= 2 * (if k == 0 then n / 2 else OrBit(n / 2, k - 1)) + 1
  {
  }

  lemma ModNear(x: int)
    requires -HALF <= x <= HALF
    ensures x % U32 == if x >= 0 then x else x + U32
  {
  }

  /** The check admits exactly the indices the ideal window calls fresh. */
  lemma CheckIsFresh(w: Window, s: Ideal, i: int)
    requires StandsFor(w, s) && Near(s, i)
    ensures Check(w, i % U32) <==> Fresh(s, i)
  {
    if s.top.Some? {
      var t := s.top.value;
      WrapSubIs(i, t);
      WrapSubIs(t, i);
      ModNear(i - t);
      ModNear(t - i);
      BitBehind(w, s, t, i);
    }
  }

  lemma BitBehind(w: Window, s: Ideal, t: int, i: int)
    requires StandsFor(w, s) && s.top == Some(t)
    ensures 0 < t - i < WIDTH ==> (Bit(w.bitmap, t - i) <==> i in s.seen)
  {
    if 0 < t - i < WIDTH {
      assert Bit(w.bitmap, t - i) <==> t - (t - i) in s.seen;
    }
  }

  /**
   * Without `Near`, for any index at all: what decides is its distance behind the top
   * modulo 2^32. So an index already seen is accepted again exactly when that distance
   * exceeds 2^31, or falls on an unseen place of the window after a full wrap.
   */
  lemma CheckExactly(w: Window, s: Ideal, i: int)
    requires StandsFor(w, s) && s.top.Some?
    ensures var d := (s.top.value - i) % U32;
            Check(w, i % U32) <==> d > 0x8000_0000 || (0 < d < 64 && s.top.value - d !in s.seen)
  {
    var t := s.top.value;
    WrapSubIs(i, t);
    WrapSubIs(t, i);
    var d := (t - i) % U32;
    if d < WIDTH {
      assert Bit(w.bitmap, d) <==> t - d in s.seen;
    }
  }

  /** A window moved ahead by `d`. */
  lemma AdvanceBits(b: nat, d: nat, k: nat)
    requires 0 < d && k < WIDTH
    ensures var r := if d >= WIDTH then 1 else OrBit(Shl(b, d), 0);
            Bit(r, k) <==> k == 0 || (k >= d && Bit(b, k - d))
  {
    OneBit(k);
    if d < WIDTH {
      OrBitSets(Shl(b, d), 0, k);
      ShlMoves(b, d, k);
    }
  }

  lemma AdvanceBound(b: nat, d: nat)
    requires 0 < d < WIDTH && b < U64
    ensures OrBit(Shl(b, d), 0) < U64
  {
    U64IsPow2();
    OrBitBound(Shl(b, d), 0, 64);
  }

  /** Moving ahead by `d` keeps bit k standing for index top - k. */
  lemma AdvanceStands(b: nat, r: nat, t: int, d: nat, seen: set<int>)
    requires 0 < d && r == (if d >= WIDTH then 1 else OrBit(Shl(b, d), 0))
    requires forall i :: i in seen ==> i <= t
    requires forall k: nat :: k < WIDTH ==> (Bit(b, k) <==> t - k in seen)
    ensures forall k: nat :: k < WIDTH ==> (Bit(r, k) <==> t + d - k in seen + {t + d})
  {
    forall k: nat | k < WIDTH
      ensures Bit(r, k) <==> t + d - k in seen + {t + d}
    {
      AdvanceBits(b, d, k);
      if k >= d {
        assert t - (k - d) == t + d - k;
      }
    }
  }

  lemma CommitAhead(w: Window, s: Ideal, i: int)
    requires StandsFor(w, s) && Near(s, i) && s.top.Some? && i > s.top.value
    ensures StandsFor(Commit(w, i % U32), Admit(s, i))
  {
    var t := s.top.value;
    var d := i - t;
    WrapSubIs(i, t);
    var v := Commit(w, i % U32);
    assert t + d == i;
    AdvanceStands(w.bitmap, v.bitmap, t, d, s.seen);
    if d < WIDTH {
      AdvanceBound(w.bitmap, d);
    }
  }

  lemma CommitBehind(w: Window, s: Ideal, i: int)
    requires StandsFor(w, s) && Near(s, i) && s.top.Some? && i <= s.top.value && Fresh(s, i)
    ensures StandsFor(Commit(w, i % U32), Admit(s, i))
  {
    var t := s.top.value;
    var d := t - i;
    CheckIsFresh(w, s, i);
    WrapSubIs(i, t);
    WrapSubIs(t, i);
    assert Commit(w, i % U32) == w.(bitmap := OrBit(w.bitmap, d));
    forall k: nat | k < WIDTH
      ensures Bit(OrBit(w.bitmap, d), k) <==> t - k in s.seen + {i}
    {
      OrBitSets(w.bitmap, d, k);
    }
    U64IsPow2();
    OrBitBound(w.bitmap, d, 64);
  }

  /** Committing keeps the correspondence: the bitmap is the set, 2^32 wraps included. */
  lemma CommitIsAdmit(w: Window, s: Ideal, i: int)
    requires StandsFor(w, s) && Near(s, i)
    ensures StandsFor(Commit(w, i % U32), Admit(s, i))
  {
    CheckIsFresh(w, s, i);
    if s.top.None? {
      forall k: nat | k < WIDTH
        ensures Bit(1, k) <==> i - k in {i}
      {
        OneBit(k);
      }
    } else if i > s.top.value {
      CommitAhead(w, s, i);
    } else if Fresh(s, i) {
      CommitBehind(w, s, i);
    }
  }

  // ----- Whole runs -----

  /** Offering indices in turn: which are accepted, by the window alone. */
  function Accepted(w: Window, indices: seq<int>): seq<bool>
    requires w.Valid()
    decreases |indices|
  {
    if indices == [] then []
    else
      var next := Commit(w, indices[0] % U32);
      CommitValid(w, indices[0] % U32);
      [Check(w, indices[0] % U32)] + Accepted(next, indices[1..])
  }

  lemma CommitValid(w: Window, sequence: nat)
    requires w.Valid() && sequence < U32
    ensures Commit(w, sequence).Valid()
  {
    if Check(w, sequence) && w.highest.Some? {
      var forward := WrapSub(sequence, w.highest.value);
      U64IsPow2();
      if forward != 0 && forward < HALF {
        if forward < WIDTH { AdvanceBound(w.bitmap, forward); }
      } else {
        OrBitBound(w.bitmap, WrapSub(w.highest.value, sequence), 64);
      }
    }
  }

  function AdmitAll(s: Ideal, indices: seq<int>): Ideal
    decreases |indices|
  {
    if indices == [] then s else AdmitAll(Admit(s, indices[0]), indices[1..])
  }

  /** Every index offered lies near the top at its time. */
  predicate Paced(s: Ideal, indices: seq<int>)
    decreases |indices|
  {
    indices == [] || (Near(s, indices[0]) && Paced(Admit(s, indices[0]), indices[1..]))
  }

  /**
   * In any paced run the window accepts the k-th index exactly when it is fresh to the
   * set of all indices accepted before it.
   */
  lemma {:induction false} RunIsIdeal(w: Window, s: Ideal, indices: seq<int>, k: nat)
    requires StandsFor(w, s) && Paced(s, indices) && k < |indices|
    ensures |Accepted(w, indices)| == |indices|
    ensures Accepted(w, indices)[k] <==> Fresh(AdmitAll(s, indices[..k]), indices[k])
    decreases |indices|
  {
    CheckIsFresh(w, s, indices[0]);
    CommitIsAdmit(w, s, indices[0]);
    if |indices| > 1 {
      RunIsIdeal(Commit(w, indices[0] % U32), Admit(s, indices[0]), indices[1..], if k > 0 then k - 1 else 0);
    }
    if k > 0 {
      assert indices[..k][1..] == indices[1..][..k - 1];
    }
  }

  lemma {:induction false} AdmitAllKeeps(s: Ideal, indices: seq<int>, k: nat)
    requires k < |indices| && Bounded(s)
    requires Fresh(AdmitAll(s, indices[..k]), indices[k])
    ensures indices[k] in AdmitAll(s, indices).seen
    ensures Bounded(AdmitAll(s, indices)) && s.seen <= AdmitAll(s, indices).seen
    decreases |indices|
  {
    if k == 0 {
      assert indices[..0] == [];
      SeenGrows(Admit(s, indices[0]), indices[1..]);
    } else {
      assert indices[..k][1..] == indices[1..][..k - 1];
      AdmitAllKeeps(Admit(s, indices[0]), indices[1..], k - 1);
    }
  }

  ghost predicate Bounded(s: Ideal) {
    forall i :: i in s.seen ==> s.top.Some? && i <= s.top.value
  }

  lemma {:induction false} SeenGrows(s: Ideal, indices: seq<int>)
    requires Bounded(s)
    ensures Bounded(AdmitAll(s, indices)) && s.seen <= AdmitAll(s, indices).seen
    decreases |indices|
  {
    if indices != [] {
      SeenGrows(Admit(s, indices[0]), indices[1..]);
    }
  }

  /** No index is accepted twice in a paced run, however often the counter wraps. */
  lemma NeverAcceptedTwice(indices: seq<int>, a: nat, b: nat)
    requires Paced(NOTHING, indices) && a < b < |indices| && indices[a] == indices[b]
    ensures |Accepted(FRESH, indices)| == |indices|
    ensures !(Accepted(FRESH, indices)[a] && Accepted(FRESH, indices)[b])
  {
    RunIsIdeal(FRESH, NOTHING, indices, a);
    RunIsIdeal(FRESH, NOTHING, indices, b);
    if Accepted(FRESH, indices)[a] {
      assert indices[..b][..a] == indices[..a];
      AdmitAllKeeps(NOTHING, indices[..b], a);
    }
  }

  lemma AcceptedCons(w: Window, i: nat, rest: seq<int>, all: seq<int>)
    requires w.Valid() && i < U32 && all == [i] + rest
    ensures Commit(w, i).Valid()
    ensures Accepted(w, all) == [Check(w, i)] + Accepted(Commit(w, i), rest)
  {
    CommitValid(w, i);
    assert i % U32 == i;
    assert all[1..] == rest;
  }

  /** A number less than 2^31 ahead of the highest is taken and becomes the highest. */
  lemma TakenAhead(w: Window, i: nat)
    requires w.Valid() && i < U32
    requires w.highest.Some? ==> 0 < WrapSub(i, w.highest.value) < HALF
    ensures Check(w, i) && Commit(w, i).highest == Some(i)
  {
  }

  /** The first of a list, taken. */
  lemma TakesAhead(w: Window, i: nat, rest: seq<int>, all: seq<int>)
    requires w.Valid() && i < U32 && all == [i] + rest
    requires w.highest.Some? ==> 0 < WrapSub(i, w.highest.value) < HALF
    ensures Commit(w, i).Valid() && Commit(w, i).highest == Some(i)
    ensures Accepted(w, all) == [true] + Accepted(Commit(w, i), rest)
  {
    TakenAhead(w, i);
    AcceptedCons(w, i, rest, all);
  }

  lemma PacedCons(s: Ideal, i: int, rest: seq<int>, all: seq<int>)
    requires all == [i] + rest
    ensures Paced(s, all) <==> Near(s, i) && Paced(Admit(s, i), rest)
  {
    assert all[1..] == rest;
  }

  /** Beyond the half range the promise fails: index 0 is taken again once the top is 2^31 + 5. */
  lemma OldReplayAccepted()
    ensures !Paced(NOTHING, [0, HALF - 1, HALF + 5, 0])
    ensures Accepted(FRESH, [0, HALF - 1, HALF + 5, 0]) == [true, true, true, true]
  {
    TakesAhead(FRESH, 0, [HALF - 1, HALF + 5, 0], [0, HALF - 1, HALF + 5, 0]);
    AheadThenBack(Commit(FRESH, 0));
    NotPaced();
  }

  lemma AheadThenBack(w1: Window)
    requires w1.Valid() && w1.highest == Some(0)
    ensures Accepted(w1, [HALF - 1, HALF + 5, 0]) == [true, true, true]
  {
    TakesAhead(w1, HALF - 1, [HALF + 5, 0], [HALF - 1, HALF + 5, 0]);
    FurtherAhead(Commit(w1, HALF - 1));
  }

  lemma FurtherAhead(w2: Window)
    requires w2.Valid() && w2.highest == Some(HALF - 1)
    ensures Accepted(w2, [HALF + 5, 0]) == [true, true]
  {
    TakesAhead(w2, HALF + 5, [0], [HALF + 5, 0]);
    BackAgain(Commit(w2, HALF + 5));
  }

  lemma BackAgain(w3: Window)
    requires w3.Valid() && w3.highest == Some(HALF + 5)
    ensures Accepted(w3, [0]) == [true]
  {
    TakesAhead(w3, 0, [], [0]);
  }

  lemma NotPaced()
    ensures !Paced(NOTHING, [0, HALF - 1, HALF + 5, 0])
  {
    var s1 := Admit(NOTHING, 0);
    var s2 := Admit(s1, HALF - 1);
    PacedCons(NOTHING, 0, [HALF - 1, HALF + 5, 0], [0, HALF - 1, HALF + 5, 0]);
    PacedCons(s1, HALF - 1, [HALF + 5, 0], [HALF - 1, HALF + 5, 0]);
    PacedCons(s2, HALF + 5, [0], [HALF + 5, 0]);
    PacedCons(Admit(s2, HALF + 5), 0, [], [0]);
  }
}
