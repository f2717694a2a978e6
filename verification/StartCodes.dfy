/**
 * The Annex-B start-code scanner (section B.1 of ITU-T H.264): where codes are
 * reported, and how a scan relates to scans of longer and of cut buffers.
 */
module StartCodes {
  import opened Common

  datatype StartCode = StartCode(pos: nat, len: nat)

  predicate CodeAt(buf: seq<Byte>, i: nat) {
    i + 3 <= |buf| && buf[i] == 0 && buf[i + 1] == 0 && buf[i + 2] == 1
  }

  /** The code reported for a 00 00 01 found at `i`: one zero before it is absorbed. */
  function CodeFor(buf: seq<Byte>, i: nat): StartCode
    requires CodeAt(buf, i)
  {
    if i > 0 && buf[i - 1] == 0 then StartCode(i - 1, 4) else StartCode(i, 3)
  }

  /** Codes reported by the scan loop from index `i` on. */
  function ScanFrom(buf: seq<Byte>, i: nat): seq<StartCode>
    decreases |buf| - i
  {
    if i + 3 > |buf| then []
    else if CodeAt(buf, i) then [CodeFor(buf, i)] + ScanFrom(buf, i + CodeFor(buf, i).len)
    else ScanFrom(buf, i + 1)
  }

  function Scan(buf: seq<Byte>): seq<StartCode> {
    ScanFrom(buf, 0)
  }

  method StartCodePositions(buf: seq<Byte>) returns (out: seq<StartCode>)
    ensures out == Scan(buf)
  {
    out := [];
    var i := 0;
    while i + 3 <= |buf|
      invariant out + ScanFrom(buf, i) == Scan(buf)
      decreases |buf| - i
    {
      if buf[i] == 0 && buf[i + 1] == 0 && buf[i + 2] == 1 {
        var code := if i > 0 && buf[i - 1] == 0 then StartCode(i - 1, 4) else StartCode(i, 3);
        assert out + ScanFrom(buf, i) == (out + [code]) + ScanFrom(buf, i + code.len);
        out := out + [code];
        i := i + code.len;
      } else {
        i := i + 1;
      }
    }
  }

  // ----- What is reported -----

  /** `c` spells a start code inside `buf`. */
  predicate Spells(buf: seq<Byte>, c: StartCode) {
    && (c.len == 3 || c.len == 4)
    && c.pos + c.len <= |buf|
    && CodeAt(buf, c.pos + c.len - 3)
    && (c.len == 4 ==> buf[c.pos] == 0)
    && (c.len == 3 && c.pos > 0 ==> buf[c.pos - 1] != 0)
  }

  /** Codes in order, none overlapping the next. */
  predicate Ordered(codes: seq<StartCode>) {
    forall a, b :: 0 <= a < b < |codes| ==> codes[a].pos + codes[a].len <= codes[b].pos
  }

  predicate SpellsAll(buf: seq<Byte>, codes: seq<StartCode>) {
    forall k :: 0 <= k < |codes| ==> Spells(buf, codes[k])
  }

  lemma {:induction false} ScanSpells(buf: seq<Byte>, i: nat)
    ensures SpellsAll(buf, ScanFrom(buf, i))
    decreases |buf| - i
  {
    if i + 3 <= |buf| {
      if CodeAt(buf, i) {
        ScanSpells(buf, i + CodeFor(buf, i).len);
      } else {
        ScanSpells(buf, i + 1);
      }
    }
  }

  /** Position from which 00 00 01 may next be found after the code `c`. */
  function After(c: StartCode): nat {
    if c.len == 4 then c.pos + 5 else c.pos + 3
  }

  /** Whatever the scan reports from `i` on was found at `i` or later. */
  lemma {:induction false} ScanBeyond(buf: seq<Byte>, i: nat)
    ensures forall c :: c in ScanFrom(buf, i) ==> i <= c.pos + c.len - 3
    decreases |buf| - i
  {
    if i + 3 <= |buf| {
      if CodeAt(buf, i) {
        ScanBeyond(buf, i + CodeFor(buf, i).len);
      } else {
        ScanBeyond(buf, i + 1);
      }
    }
  }

  /** A code found past the step of the scan does not overlap the one before. */
  lemma NoOverlap(buf: seq<Byte>, i: nat, d: StartCode)
    requires CodeAt(buf, i) && Spells(buf, d) && i + CodeFor(buf, i).len <= d.pos + d.len - 3
    ensures CodeFor(buf, i).pos + CodeFor(buf, i).len <= d.pos
  {
  }

  lemma {:induction false} ScanOrdered(buf: seq<Byte>, i: nat)
    ensures Ordered(ScanFrom(buf, i))
    decreases |buf| - i
  {
    if i + 3 <= |buf| {
      if CodeAt(buf, i) {
        var c := CodeFor(buf, i);
        var rest := ScanFrom(buf, i + c.len);
        ScanOrdered(buf, i + c.len);
        ScanSpells(buf, i + c.len);
        ScanBeyond(buf, i + c.len);
        forall b | 0 <= b < |rest|
          ensures c.pos + c.len <= rest[b].pos
        {
          NoOverlap(buf, i, rest[b]);
        }
        OrderedCons(c, rest);
      } else {
        ScanOrdered(buf, i + 1);
      }
    }
  }

  lemma OrderedCons(c: StartCode, rest: seq<StartCode>)
    requires Ordered(rest) && forall b :: 0 <= b < |rest| ==> c.pos + c.len <= rest[b].pos
    ensures Ordered([c] + rest)
  {
  }

  /** What `take_next_nal` may rely on. */
  lemma ScanFacts(buf: seq<Byte>)
    ensures SpellsAll(buf, Scan(buf)) && Ordered(Scan(buf))
  {
    ScanSpells(buf, 0);
    ScanOrdered(buf, 0);
  }

  /** The same order code by code, with room for each inside the buffer. */
  predicate InOrder(codes: seq<StartCode>, n: nat, i: nat)
    decreases |codes| - i
  {
    i < |codes| ==>
      && codes[i].len >= 3
      && codes[i].pos + codes[i].len <= (if i + 1 < |codes| then codes[i + 1].pos else n)
      && InOrder(codes, n, i + 1)
  }

  lemma {:induction false} ScanInOrder(buf: seq<Byte>, i: nat)
    ensures InOrder(Scan(buf), |buf|, i)
    decreases |Scan(buf)| - i
  {
    if i < |Scan(buf)| {
      ScanFacts(buf);
      assert Spells(buf, Scan(buf)[i]);
      ScanInOrder(buf, i + 1);
    }
  }

  predicate Reports(codes: seq<StartCode>, j: nat) {
    exists k :: 0 <= k < |codes| && codes[k].pos + codes[k].len == j + 3
  }

  predicate FollowsLongCode(codes: seq<StartCode>, j: nat) {
    exists k :: 0 <= k < |codes| && codes[k].len == 4 && codes[k].pos + 4 == j
  }

  lemma {:induction false} ScanMisses(buf: seq<Byte>, i: nat, j: nat)
    requires i <= j && CodeAt(buf, j)
    ensures Reports(ScanFrom(buf, i), j) <==> !FollowsLongCode(ScanFrom(buf, i), j)
    decreases |buf| - i
  {
    if CodeAt(buf, i) {
      var c := CodeFor(buf, i);
      var rest := ScanFrom(buf, i + c.len);
      ScanBeyond(buf, i + c.len);
      assert buf[i + 2] == 1;
      if j == i {
        ReportedFirst(c, rest, j);
      } else if j < i + c.len {
        MissedFirst(c, rest, j);
      } else {
        ScanMisses(buf, i + c.len, j);
        MissesShift(c, rest, j);
      }
    } else {
      ScanMisses(buf, i + 1, j);
    }
  }

  lemma ReportedFirst(c: StartCode, rest: seq<StartCode>, j: nat)
    requires c.pos + c.len == j + 3 && (c.len == 3 || c.len == 4)
    requires forall d :: d in rest ==> j + c.len <= d.pos + d.len - 3
    ensures Reports([c] + rest, j) && !FollowsLongCode([c] + rest, j)
  {
    var all := [c] + rest;
    assert all[0] == c;
    forall k | 0 <= k < |all| && all[k].len == 4
      ensures all[k].pos + 4 != j
    {
      if k > 0 { assert all[k] in rest; }
    }
  }

  lemma MissedFirst(c: StartCode, rest: seq<StartCode>, j: nat)
    requires c.len == 4 && c.pos + 4 == j
    requires forall d :: d in rest ==> j < d.pos + d.len - 3
    ensures !Reports([c] + rest, j) && FollowsLongCode([c] + rest, j)
  {
    var all := [c] + rest;
    assert all[0] == c;
    forall k | 0 <= k < |all|
      ensures all[k].pos + all[k].len != j + 3
    {
      if k > 0 { assert all[k] in rest; }
    }
  }

  lemma MissesShift(c: StartCode, rest: seq<StartCode>, j: nat)
    requires c.pos + c.len != j + 3 && !(c.len == 4 && c.pos + 4 == j)
    ensures Reports([c] + rest, j) <==> Reports(rest, j)
    ensures FollowsLongCode([c] + rest, j) <==> FollowsLongCode(rest, j)
  {
    var all := [c] + rest;
    forall k | 0 <= k < |rest|
      ensures all[k + 1] == rest[k]
    {
    }
    if Reports(all, j) {
      var k :| 0 <= k < |all| && all[k].pos + all[k].len == j + 3;
      assert rest[k - 1] == all[k];
    }
    if FollowsLongCode(all, j) {
      var k :| 0 <= k < |all| && all[k].len == 4 && all[k].pos + 4 == j;
      assert rest[k - 1] == all[k];
    }
  }

  /** The four bytes before `j` are 00 00 00 01. */
  predicate LongCodeBefore(buf: seq<Byte>, j: nat) {
    j >= 4 && CodeAt(buf, j - 3) && buf[j - 4] == 0
  }

  /** No long code can hide another one: its last byte is no zero. */
  lemma NoLongCodeInFront(buf: seq<Byte>, j: nat)
    requires LongCodeBefore(buf, j)
    ensures !FollowsLongCode(Scan(buf), j - 3)
  {
    var codes := Scan(buf);
    ScanSpells(buf, 0);
    forall k | 0 <= k < |codes|
      ensures !(codes[k].len == 4 && codes[k].pos + 4 == j - 3)
    {
      assert Spells(buf, codes[k]);
    }
  }

  lemma LongCodeReported(buf: seq<Byte>, j: nat)
    requires LongCodeBefore(buf, j)
    ensures FollowsLongCode(Scan(buf), j)
  {
    var codes := Scan(buf);
    ScanSpells(buf, 0);
    ScanMisses(buf, 0, j - 3);
    NoLongCodeInFront(buf, j);
    var k :| 0 <= k < |codes| && codes[k].pos + codes[k].len == j;
    assert Spells(buf, codes[k]);
  }

  lemma FollowsSpelled(buf: seq<Byte>, codes: seq<StartCode>, j: nat)
    requires SpellsAll(buf, codes) && FollowsLongCode(codes, j)
    ensures LongCodeBefore(buf, j)
  {
    var k :| 0 <= k < |codes| && codes[k].len == 4 && codes[k].pos + 4 == j;
    assert Spells(buf, codes[k]);
  }

  lemma LongCodeBytes(buf: seq<Byte>, j: nat)
    requires LongCodeBefore(buf, j)
    ensures 4 <= j <= |buf| && buf[j - 4..j] == [0, 0, 0, 1]
  {
  }

  /**
   * Exactly which 00 00 01 the scan reports: every one except the one whose bytes
   * follow 00 00 00 01 directly, which the step `i += len` passes over.
   */
  lemma ReportsAllButAfterLongCode(buf: seq<Byte>, j: nat)
    requires CodeAt(buf, j)
    ensures Reports(Scan(buf), j) <==> !(j >= 4 && buf[j - 4..j] == [0, 0, 0, 1])
  {
    ScanMisses(buf, 0, j);
    if j >= 4 && buf[j - 4..j] == [0, 0, 0, 1] {
      FourBytes(buf, j);
      LongCodeReported(buf, j);
    }
    if FollowsLongCode(Scan(buf), j) {
      ScanSpells(buf, 0);
      FollowsSpelled(buf, Scan(buf), j);
      LongCodeBytes(buf, j);
    }
  }

  lemma FourBytes(buf: seq<Byte>, j: nat)
    requires 4 <= j <= |buf| && buf[j - 4..j] == [0, 0, 0, 1]
    ensures LongCodeBefore(buf, j)
  {
    var four := buf[j - 4..j];
    assert four[0] == buf[j - 4] && four[1] == buf[j - 3] && four[2] == buf[j - 2] && four[3] == buf[j - 1];
  }

  /** The shortest stream on which a start code goes unreported. */
  lemma MissedCode()
    ensures CodeAt([0, 0, 0, 1, 0, 0, 1], 4)
    ensures Scan([0, 0, 0, 1, 0, 0, 1]) == [StartCode(0, 4)]
  {
  }

  // ----- Appending and cutting -----

  function Shift(codes: seq<StartCode>, d: nat): seq<StartCode> {
    if codes == [] then [] else [StartCode(codes[0].pos + d, codes[0].len)] + Shift(codes[1..], d)
  }

  lemma {:induction false} ShiftAt(codes: seq<StartCode>, d: nat)
    ensures |Shift(codes, d)| == |codes|
    ensures forall k :: 0 <= k < |codes| ==> Shift(codes, d)[k] == StartCode(codes[k].pos + d, codes[k].len)
  {
    if codes != [] {
      ShiftAt(codes[1..], d);
    }
  }

  lemma ShiftCons(c: StartCode, rest: seq<StartCode>, d: nat)
    ensures Shift([c] + rest, d) == [StartCode(c.pos + d, c.len)] + Shift(rest, d)
  {
  }

  /** Bytes appended later never change what was already reported. */
  lemma {:induction false} ScanAppend(buf: seq<Byte>, more: seq<Byte>, i: nat)
    ensures ScanFrom(buf, i) <= ScanFrom(buf + more, i)
    decreases |buf| - i
  {
    if i + 3 <= |buf| {
      var all := buf + more;
      assert CodeAt(buf, i) == CodeAt(all, i);
      if CodeAt(buf, i) {
        assert CodeFor(buf, i) == CodeFor(all, i);
        ScanAppend(buf, more, i + CodeFor(buf, i).len);
      } else {
        ScanAppend(buf, more, i + 1);
      }
    }
  }

  lemma CodeInSuffix(buf: seq<Byte>, p: nat, i: nat)
    requires p < i && p <= |buf|
    ensures CodeAt(buf, i) == CodeAt(buf[p..], i - p)
    ensures CodeAt(buf, i) ==>
              CodeFor(buf, i) == StartCode(CodeFor(buf[p..], i - p).pos + p, CodeFor(buf[p..], i - p).len)
  {
  }

  lemma SameAtCode(buf: seq<Byte>, cut: seq<Byte>, p: nat, i: nat, j: nat, d: StartCode)
    requires CodeAt(cut, j) && CodeAt(buf, i) && CodeFor(cut, j) == d && CodeFor(buf, i) == StartCode(d.pos + p, d.len)
    requires Shift(ScanFrom(cut, j + d.len), p) == ScanFrom(buf, i + d.len)
    ensures Shift(ScanFrom(cut, j), p) == ScanFrom(buf, i)
  {
    ShiftCons(d, ScanFrom(cut, j + d.len), p);
  }

  lemma {:induction false} ScanSame(buf: seq<Byte>, cut: seq<Byte>, p: nat, i: nat, j: nat)
    requires p <= |buf| && cut == buf[p..] && j >= 1 && i == p + j
    ensures Shift(ScanFrom(cut, j), p) == ScanFrom(buf, i)
    decreases |buf| - i
  {
    if i + 3 <= |buf| {
      CodeInSuffix(buf, p, i);
      if CodeAt(cut, j) {
        var d := CodeFor(cut, j);
        ScanSame(buf, cut, p, i + d.len, j + d.len);
        SameAtCode(buf, cut, p, i, j, d);
      } else {
        ScanSame(buf, cut, p, i + 1, j + 1);
      }
    }
  }

  /** Dropping bytes strictly before the scan index shifts the rest of the scan. */
  lemma ScanSuffix(buf: seq<Byte>, p: nat, i: nat)
    requires p < i && p <= |buf|
    ensures Shift(ScanFrom(buf[p..], i - p), p) == ScanFrom(buf, i)
  {
    ScanSame(buf, buf[p..], p, i, i - p);
  }

  /** A buffer cut at a code reports that code first and then scans on as before. */
  lemma ScanAtCode(buf: seq<Byte>, c: StartCode)
    requires Spells(buf, c)
    ensures Shift(Scan(buf[c.pos..]), c.pos) == [c] + ScanFrom(buf, After(c))
  {
    var cut := buf[c.pos..];
    if c.len == 3 {
      assert CodeAt(cut, 0);
      ShiftCons(StartCode(0, 3), ScanFrom(cut, 3), c.pos);
    } else {
      assert !CodeAt(cut, 0) && CodeAt(cut, 1);
      assert Scan(cut) == ScanFrom(cut, 1);
      ShiftCons(StartCode(0, 4), ScanFrom(cut, 5), c.pos);
    }
    ScanSuffix(buf, c.pos, After(c));
  }

  lemma {:induction false} ScanTail(buf: seq<Byte>, i: nat, k: nat)
    requires k < |ScanFrom(buf, i)|
    ensures ScanFrom(buf, i)[k..] == [ScanFrom(buf, i)[k]] + ScanFrom(buf, After(ScanFrom(buf, i)[k]))
    decreases |buf| - i
  {
    if CodeAt(buf, i) {
      var c := CodeFor(buf, i);
      if k > 0 {
        ScanTail(buf, i + c.len, k - 1);
        assert ScanFrom(buf, i)[k..] == ScanFrom(buf, i + c.len)[k - 1..];
      }
    } else {
      ScanTail(buf, i + 1, k);
    }
  }

  /** Cutting the buffer at any reported code leaves the codes from there on. */
  lemma ScanCut(buf: seq<Byte>, k: nat)
    requires k < |Scan(buf)|
    ensures Scan(buf)[k].pos <= |buf|
    ensures Shift(Scan(buf[Scan(buf)[k].pos..]), Scan(buf)[k].pos) == Scan(buf)[k..]
  {
    ScanFacts(buf);
    ScanTail(buf, 0, k);
    assert Spells(buf, Scan(buf)[k]);
    ScanAtCode(buf, Scan(buf)[k]);
  }

  // ----- The NALs of a whole stream -----

  /** The bytes from one start code up to the next, and the width of its code. */
  datatype Piece = Piece(bytes: seq<Byte>, codeLen: nat)

  /** The piece from one code to the next, unless it is empty. */
  function PieceAt(buf: seq<Byte>, c: StartCode, next: StartCode): seq<Piece> {
    if c.pos + c.len < next.pos <= |buf| then [Piece(buf[c.pos..next.pos], c.len)] else []
  }

  /** What lies between the codes from `i` to `j`; a code directly followed by another gives nothing. */
  function Between(buf: seq<Byte>, codes: seq<StartCode>, i: nat, j: nat): seq<Piece>
    requires i <= j < |codes|
    decreases j - i
  {
    if i == j then [] else PieceAt(buf, codes[i], codes[i + 1]) + Between(buf, codes, i + 1, j)
  }

  /** All pieces bounded by the given codes. */
  function Bounded(buf: seq<Byte>, codes: seq<StartCode>): seq<Piece> {
    if codes == [] then [] else Between(buf, codes, 0, |codes| - 1)
  }

  /** All bounded pieces of a stream, from one scan over the whole of it. */
  function Pieces(buf: seq<Byte>): seq<Piece> {
    Bounded(buf, Scan(buf))
  }

  /** What is left from the last of two or more codes on. */
  function From(buf: seq<Byte>, codes: seq<StartCode>): seq<Byte> {
    if |codes| < 2 || codes[|codes| - 1].pos > |buf| then buf else buf[codes[|codes| - 1].pos..]
  }

  /** What is left once every bounded piece is taken out. */
  function Rest(buf: seq<Byte>): seq<Byte> {
    From(buf, Scan(buf))
  }

  lemma {:induction false} BetweenSplit(buf: seq<Byte>, codes: seq<StartCode>, i: nat, k: nat, j: nat)
    requires i <= k <= j < |codes|
    ensures Between(buf, codes, i, j) == Between(buf, codes, i, k) + Between(buf, codes, k, j)
    decreases k - i
  {
    if i < k {
      BetweenSplit(buf, codes, i + 1, k, j);
      AppendAssoc(PieceAt(buf, codes[i], codes[i + 1]), Between(buf, codes, i + 1, k), Between(buf, codes, k, j));
    }
  }

  lemma PieceAppend(buf: seq<Byte>, more: seq<Byte>, c: StartCode, next: StartCode)
    requires next.pos <= |buf|
    ensures PieceAt(buf + more, c, next) == PieceAt(buf, c, next)
  {
    if c.pos + c.len < next.pos {
      assert (buf + more)[c.pos..next.pos] == buf[c.pos..next.pos];
    }
  }

  predicate Within(codes: seq<StartCode>, n: nat) {
    forall x :: 0 <= x < |codes| ==> codes[x].pos + codes[x].len <= n
  }

  /** From `i` on, `all` repeats `codes`, and those codes lie within `n` bytes. */
  predicate Repeats(codes: seq<StartCode>, all: seq<StartCode>, n: nat, i: nat)
    decreases |codes| - i
  {
    i < |codes| ==> i < |all| && all[i] == codes[i] && codes[i].pos <= n && Repeats(codes, all, n, i + 1)
  }

  lemma {:induction false} PrefixRepeats(codes: seq<StartCode>, all: seq<StartCode>, n: nat, i: nat)
    requires Within(codes, n) && codes <= all
    ensures Repeats(codes, all, n, i)
    decreases |codes| - i
  {
    if i < |codes| {
      PrefixRepeats(codes, all, n, i + 1);
    }
  }

  /** Longer buffers with more codes have the same pieces up to code `j`. */
  lemma {:induction false} BetweenAppend(
    buf: seq<Byte>, more: seq<Byte>, codes: seq<StartCode>, all: seq<StartCode>, i: nat, j: nat)
    requires Repeats(codes, all, |buf|, i) && i <= j < |codes| && j < |all|
    ensures Between(buf + more, all, i, j) == Between(buf, codes, i, j)
    decreases j - i
  {
    if i < j {
      BetweenAppend(buf, more, codes, all, i + 1, j);
      assert Repeats(codes, all, |buf|, i + 1);
      PieceAppend(buf, more, codes[i], codes[i + 1]);
    }
  }

  lemma PieceShift(buf: seq<Byte>, p: nat, c: StartCode, next: StartCode)
    requires p <= |buf|
    ensures PieceAt(buf, StartCode(c.pos + p, c.len), StartCode(next.pos + p, next.len)) == PieceAt(buf[p..], c, next)
  {
    if c.pos + c.len < next.pos <= |buf| - p {
      assert buf[c.pos + p..next.pos + p] == buf[p..][c.pos..next.pos];
    }
  }

  /** From `i` on, code `x` of the cut buffer is code `x + k` of the whole one, `p` bytes further on. */
  predicate Aligned(cut: seq<StartCode>, whole: seq<StartCode>, k: nat, p: nat, i: nat)
    decreases |cut| - i
  {
    |whole| == |cut| + k &&
    (i < |cut| ==> whole[i + k] == StartCode(cut[i].pos + p, cut[i].len) && Aligned(cut, whole, k, p, i + 1))
  }

  lemma PieceAligned(buf: seq<Byte>, p: nat, cut: seq<StartCode>, whole: seq<StartCode>, k: nat, i: nat, w: nat)
    requires p <= |buf| && Aligned(cut, whole, k, p, i) && i + 1 < |cut| && w == i + k
    ensures PieceAt(buf, whole[w], whole[w + 1]) == PieceAt(buf[p..], cut[i], cut[i + 1])
  {
    assert Aligned(cut, whole, k, p, i + 1);
    PieceShift(buf, p, cut[i], cut[i + 1]);
  }

  lemma BetweenStep(buf: seq<Byte>, codes: seq<StartCode>, i: nat, j: nat)
    requires i < j < |codes|
    ensures Between(buf, codes, i, j) == PieceAt(buf, codes[i], codes[i + 1]) + Between(buf, codes, i + 1, j)
  {
  }

  lemma {:induction false} BetweenShift(
    buf: seq<Byte>, p: nat, cut: seq<StartCode>, whole: seq<StartCode>, k: nat, i: nat, w: nat, j: nat, v: nat)
    requires p <= |buf| && Aligned(cut, whole, k, p, i) && i <= j && w == i + k && j + 1 == |cut| && v == j + k
    ensures v + 1 == |whole| && Between(buf, whole, w, v) == Between(buf[p..], cut, i, j)
    decreases j - i
  {
    if i < j {
      BetweenShift(buf, p, cut, whole, k, i + 1, w + 1, j, v);
      PieceAligned(buf, p, cut, whole, k, i, w);
      BetweenStep(buf, whole, w, v);
      BetweenStep(buf[p..], cut, i, j);
    }
  }

  /** The pieces from code `k` on are those of the buffer cut there. */
  lemma BoundedCut(buf: seq<Byte>, p: nat, cut: seq<StartCode>, whole: seq<StartCode>, k: nat, j: nat, v: nat)
    requires p <= |buf| && Aligned(cut, whole, k, p, 0) && j + 1 == |cut| && v == j + k
    ensures v + 1 == |whole| && Between(buf, whole, k, v) == Between(buf[p..], cut, 0, j)
  {
    BetweenShift(buf, p, cut, whole, k, 0, k, j, v);
  }

  lemma {:induction false} AlignedLast(cut: seq<StartCode>, whole: seq<StartCode>, k: nat, p: nat, i: nat)
    requires Aligned(cut, whole, k, p, i) && i < |cut|
    ensures whole[|whole| - 1] == StartCode(cut[|cut| - 1].pos + p, cut[|cut| - 1].len)
    decreases |cut| - i
  {
    if i + 1 < |cut| {
      AlignedLast(cut, whole, k, p, i + 1);
    }
  }

  lemma FromCut(buf: seq<Byte>, p: nat, cut: seq<StartCode>, whole: seq<StartCode>, k: nat)
    requires p <= |buf| && Aligned(cut, whole, k, p, 0) && cut != [] && |whole| >= 2
    requires whole[k].pos == p && whole[|whole| - 1].pos <= |buf|
    ensures From(buf[p..], cut) == From(buf, whole)
  {
    AlignedLast(cut, whole, k, p, 0);
    assert buf[p..][cut[|cut| - 1].pos..] == buf[p + cut[|cut| - 1].pos..];
  }

  lemma {:induction false} AlignShift(cut: seq<StartCode>, whole: seq<StartCode>, k: nat, p: nat, i: nat)
    requires k <= |whole| && Shift(cut, p) == whole[k..] && i <= |cut|
    ensures Aligned(cut, whole, k, p, i)
    decreases |cut| - i
  {
    ShiftAt(cut, p);
    if i < |cut| {
      AlignShift(cut, whole, k, p, i + 1);
      assert whole[k..][i] == whole[i + k];
    }
  }

  /** The scan of a buffer cut at its `k`-th code. */
  lemma CutAligns(buf: seq<Byte>, k: nat, p: nat)
    requires k < |Scan(buf)| && p == Scan(buf)[k].pos
    ensures p <= |buf| && Scan(buf[p..]) != [] && Aligned(Scan(buf[p..]), Scan(buf), k, p, 0)
  {
    ScanCut(buf, k);
    AlignShift(Scan(buf[p..]), Scan(buf), k, p, 0);
  }

  /** Cutting at the k-th code leaves the pieces from there on. */
  lemma PiecesCut(buf: seq<Byte>, k: nat, p: nat)
    requires k < |Scan(buf)| && p == Scan(buf)[k].pos
    ensures p <= |buf| && Between(buf, Scan(buf), k, |Scan(buf)| - 1) == Pieces(buf[p..])
  {
    CutAligns(buf, k, p);
    BoundedCut(buf, p, Scan(buf[p..]), Scan(buf), k, |Scan(buf[p..])| - 1, |Scan(buf)| - 1);
  }

  /** And the same rest. */
  lemma RestCut(buf: seq<Byte>, k: nat, p: nat)
    requires k < |Scan(buf)| && p == Scan(buf)[k].pos && |Scan(buf)| >= 2
    ensures p <= |buf| && Rest(buf[p..]) == Rest(buf)
  {
    CutAligns(buf, k, p);
    LastWithin(buf);
    FromCut(buf, p, Scan(buf[p..]), Scan(buf), k);
  }

  lemma LastWithin(buf: seq<Byte>)
    requires Scan(buf) != []
    ensures Scan(buf)[|Scan(buf)| - 1].pos <= |buf|
  {
    ScanWithin(buf);
  }

  lemma ScanWithin(buf: seq<Byte>)
    ensures Within(Scan(buf), |buf|)
  {
    ScanSpells(buf, 0);
    forall k | 0 <= k < |Scan(buf)|
      ensures Scan(buf)[k].pos + Scan(buf)[k].len <= |buf|
    {
      assert Spells(buf, Scan(buf)[k]);
    }
  }

  /** Appending keeps the codes of `buf`, and what follows its last code is a cut. */
  lemma LastCodeStays(buf: seq<Byte>, more: seq<Byte>)
    requires |Scan(buf)| >= 2
    ensures Scan(buf) <= Scan(buf + more)
    ensures Scan(buf)[|Scan(buf)| - 1].pos <= |buf|
    ensures (buf + more)[Scan(buf)[|Scan(buf)| - 1].pos..] == Rest(buf) + more
  {
    LastWithin(buf);
    ScanAppend(buf, more, 0);
  }

  /** The pieces of a longer buffer: those of `buf`, then those from its last code on. */
  lemma BoundedAppend(buf: seq<Byte>, more: seq<Byte>, codes: seq<StartCode>, all: seq<StartCode>)
    requires Within(codes, |buf|) && codes <= all && codes != []
    ensures Bounded(buf + more, all) == Bounded(buf, codes) + Between(buf + more, all, |codes| - 1, |all| - 1)
  {
    BetweenSplit(buf + more, all, 0, |codes| - 1, |all| - 1);
    PrefixRepeats(codes, all, |buf|, 0);
    BetweenAppend(buf, more, codes, all, 0, |codes| - 1);
  }

  lemma PiecesFromLast(buf: seq<Byte>, more: seq<Byte>, k: nat, p: nat)
    requires |Scan(buf)| >= 2 && k == |Scan(buf)| - 1 && p == Scan(buf)[k].pos
    ensures k < |Scan(buf + more)|
    ensures Between(buf + more, Scan(buf + more), k, |Scan(buf + more)| - 1) == Pieces(Rest(buf) + more)
  {
    LastCodeStays(buf, more);
    PiecesCut(buf + more, k, p);
  }

  lemma PiecesAppend(buf: seq<Byte>, more: seq<Byte>)
    requires |Scan(buf)| >= 2
    ensures Pieces(buf + more) == Pieces(buf) + Pieces(Rest(buf) + more)
  {
    var k := |Scan(buf)| - 1;
    PiecesUpToLast(buf, more, k);
    PiecesFromLast(buf, more, k, Scan(buf)[k].pos);
  }

  lemma PiecesUpToLast(buf: seq<Byte>, more: seq<Byte>, k: nat)
    requires |Scan(buf)| >= 2 && k == |Scan(buf)| - 1
    ensures k < |Scan(buf + more)|
    ensures Pieces(buf + more) == Pieces(buf) + Between(buf + more, Scan(buf + more), k, |Scan(buf + more)| - 1)
  {
    LastCodeStays(buf, more);
    ScanWithin(buf);
    BoundedAppend(buf, more, Scan(buf), Scan(buf + more));
  }

  lemma RestAppend(buf: seq<Byte>, more: seq<Byte>)
    requires |Scan(buf)| >= 2
    ensures Rest(buf + more) == Rest(Rest(buf) + more)
  {
    LastCodeStays(buf, more);
    RestCut(buf + more, |Scan(buf)| - 1, Scan(buf)[|Scan(buf)| - 1].pos);
  }

  /**
   * Taking the pieces out of a prefix and going on with what is left finds the same
   * pieces, and leaves the same rest, as one pass over everything.
   */
  lemma PiecesIncremental(buf: seq<Byte>, more: seq<Byte>)
    ensures Pieces(buf + more) == Pieces(buf) + Pieces(Rest(buf) + more)
    ensures Rest(buf + more) == Rest(Rest(buf) + more)
  {
    if |Scan(buf)| >= 2 {
      PiecesAppend(buf, more);
      RestAppend(buf, more);
    }
  }
}
