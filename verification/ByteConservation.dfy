/** Every byte of the stream: which ones reach access units, and when none is lost. */
module ByteConservation {
  import opened Common
  import opened StartCodes
  import opened AnnexB
  import opened ChunkIndependence
  import opened AccessUnits

  function PieceBytes(pieces: seq<Piece>): seq<Byte> {
    if pieces == [] then [] else pieces[0].bytes + PieceBytes(pieces[1..])
  }

  lemma {:induction false} PieceBytesAppend(p: seq<Piece>, q: seq<Piece>)
    ensures PieceBytes(p + q) == PieceBytes(p) + PieceBytes(q)
  {
    if p == [] {
      assert p + q == q;
    } else {
      assert (p + q)[1..] == p[1..] + q;
      PieceBytesAppend(p[1..], q);
      assert p[0].bytes + (PieceBytes(p[1..]) + PieceBytes(q)) == (p[0].bytes + PieceBytes(p[1..])) + PieceBytes(q);
    }
  }

  // ----- What the cut into pieces loses -----

  /** Bytes of codes from `i` on that are directly followed by another code. */
  function EmptyCodes(codes: seq<StartCode>, i: nat): nat
    decreases |codes| - i
  {
    if i + 1 >= |codes| then 0
    else (if codes[i + 1].pos == codes[i].pos + codes[i].len then codes[i].len else 0) + EmptyCodes(codes, i + 1)
  }

  /** Bytes dropped once two codes are in sight: those before the first code, and empty codes. */
  function Lost(buf: seq<Byte>): nat {
    if |Scan(buf)| < 2 then 0 else Scan(buf)[0].pos + EmptyCodes(Scan(buf), 0)
  }

  lemma PieceLength(buf: seq<Byte>, c: StartCode, next: StartCode)
    requires c.pos + c.len <= next.pos <= |buf|
    ensures |PieceBytes(PieceAt(buf, c, next))| == if next.pos == c.pos + c.len then 0 else next.pos - c.pos
    ensures next.pos != c.pos + c.len ==> PieceBytes(PieceAt(buf, c, next)) == buf[c.pos..next.pos]
  {
  }

  lemma {:induction false} LastInBuffer(codes: seq<StartCode>, n: nat, i: nat)
    requires InOrder(codes, n, i) && i < |codes|
    ensures codes[i].pos <= codes[|codes| - 1].pos <= n
    decreases |codes| - i
  {
    if i + 1 < |codes| {
      LastInBuffer(codes, n, i + 1);
    }
  }

  lemma {:induction false} BetweenLength(buf: seq<Byte>, codes: seq<StartCode>, i: nat)
    requires InOrder(codes, |buf|, i) && i < |codes|
    ensures codes[i].pos + |PieceBytes(Between(buf, codes, i, |codes| - 1))| + EmptyCodes(codes, i)
            == codes[|codes| - 1].pos
    decreases |codes| - i
  {
    if i + 1 < |codes| {
      BetweenLength(buf, codes, i + 1);
      LastInBuffer(codes, |buf|, i + 1);
      PieceLength(buf, codes[i], codes[i + 1]);
      PieceBytesAppend(PieceAt(buf, codes[i], codes[i + 1]), Between(buf, codes, i + 1, |codes| - 1));
    }
  }

  lemma {:induction false} BetweenBytes(buf: seq<Byte>, codes: seq<StartCode>, i: nat)
    requires InOrder(codes, |buf|, i) && i < |codes| && EmptyCodes(codes, i) == 0
    ensures codes[i].pos <= codes[|codes| - 1].pos <= |buf|
    ensures PieceBytes(Between(buf, codes, i, |codes| - 1)) == buf[codes[i].pos..codes[|codes| - 1].pos]
    decreases |codes| - i
  {
    LastInBuffer(codes, |buf|, i);
    if i + 1 < |codes| {
      BetweenBytes(buf, codes, i + 1);
      PieceLength(buf, codes[i], codes[i + 1]);
      PieceBytesAppend(PieceAt(buf, codes[i], codes[i + 1]), Between(buf, codes, i + 1, |codes| - 1));
      SliceJoin(buf, codes[i].pos, codes[i + 1].pos, codes[|codes| - 1].pos);
    }
  }

  /** The bytes bounded by two or more codes, and how many are missing. */
  lemma PiecesLength(buf: seq<Byte>)
    requires Scan(buf) != []
    ensures var c := Scan(buf);
            && c[|c| - 1].pos <= |buf|
            && c[0].pos + |PieceBytes(Pieces(buf))| + EmptyCodes(c, 0) == c[|c| - 1].pos
            && (EmptyCodes(c, 0) == 0 ==>
                  c[0].pos <= c[|c| - 1].pos && PieceBytes(Pieces(buf)) == buf[c[0].pos..c[|c| - 1].pos])
  {
    ScanInOrder(buf, 0);
    LastInBuffer(Scan(buf), |buf|, 0);
    BetweenLength(buf, Scan(buf), 0);
    if EmptyCodes(Scan(buf), 0) == 0 {
      BetweenBytes(buf, Scan(buf), 0);
    }
  }

  /** Pieces and rest account for all of the stream but `Lost`, in order when that is nothing. */
  lemma PiecesAccount(buf: seq<Byte>)
    ensures |PieceBytes(Pieces(buf))| + |Rest(buf)| + Lost(buf) == |buf|
    ensures PieceBytes(Pieces(buf)) + Rest(buf) == buf <==> Lost(buf) == 0
  {
    var codes := Scan(buf);
    if |codes| >= 2 {
      PiecesLength(buf);
      if Lost(buf) == 0 {
        SliceJoin(buf, 0, codes[|codes| - 1].pos, |buf|);
        assert buf[0..|buf|] == buf;
      }
    }
  }

  /** The stream opens with 00 00 01 or 00 00 00 01. */
  predicate OpensWithCode(buf: seq<Byte>) {
    CodeAt(buf, 0) || (|buf| >= 4 && buf[..4] == [0, 0, 0, 1])
  }

  lemma FirstCodeAtZero(buf: seq<Byte>)
    ensures OpensWithCode(buf) <==> Scan(buf) != [] && Scan(buf)[0].pos == 0
  {
    ScanFacts(buf);
    if Scan(buf) != [] && Scan(buf)[0].pos == 0 {
      assert Spells(buf, Scan(buf)[0]);
    }
    if !CodeAt(buf, 0) && |buf| >= 4 && buf[..4] == [0, 0, 0, 1] {
      assert buf[..4][2] == buf[2] && buf[..4][3] == buf[3] && buf[..4][1] == buf[1] && buf[..4][0] == buf[0];
      assert CodeAt(buf, 1);
      assert Scan(buf) == ScanFrom(buf, 1);
    }
  }

  // ----- From pieces to units -----

  function UnitBytes(units: seq<AccessUnit>): seq<Byte> {
    if units == [] then [] else units[0].annexb + UnitBytes(units[1..])
  }

  lemma {:induction false} UnitBytesSnoc(units: seq<AccessUnit>, u: AccessUnit)
    ensures UnitBytes(units + [u]) == UnitBytes(units) + u.annexb
    decreases |units|
  {
    if units == [] {
      assert ([] + [u])[1..] == [];
    } else {
      assert (units + [u])[1..] == units[1..] + [u];
      UnitBytesSnoc(units[1..], u);
      assert units[0].annexb + (UnitBytes(units[1..]) + u.annexb) == (units[0].annexb + UnitBytes(units[1..])) + u.annexb;
    }
  }

  lemma {:induction false} BytesOfAppend(p: seq<NalUnit>, q: seq<NalUnit>)
    ensures BytesOf(p + q) == BytesOf(p) + BytesOf(q)
  {
    if p == [] {
      assert p + q == q;
    } else {
      assert (p + q)[1..] == p[1..] + q;
      BytesOfAppend(p[1..], q);
      assert p[0].annexb + (BytesOf(p[1..]) + BytesOf(q)) == (p[0].annexb + BytesOf(p[1..])) + BytesOf(q);
    }
  }

  /** Accepting moves bytes between the held NALs and the units, and adds those of the NAL. */
  lemma AcceptConserves(a: Assembler, nal: NalUnit)
    requires Accept(a, nal).error.None?
    ensures UnitBytes(ToSeq(Accept(a, nal).unit)) + BytesOf(Accept(a, nal).asm.current)
            == BytesOf(a.current) + nal.annexb
  {
    AcceptCurrent(a, nal);
    OneNal(nal);
    if Boundary(a, nal) && a.current != [] {
      OneUnit(Flush(a).unit.value);
    } else {
      BytesOfAppend(a.current, [nal]);
    }
  }

  lemma AcceptCurrent(a: Assembler, nal: NalUnit)
    requires Accept(a, nal).error.None?
    ensures var b := Accept(a, nal);
            if Boundary(a, nal) && a.current != [] then b.unit == Flush(a).unit && b.asm.current == [nal]
            else b.unit.None? && b.asm.current == a.current + [nal]
  {
    assert [] + [nal] == [nal];
  }

  lemma OneUnit(u: AccessUnit)
    ensures UnitBytes([u]) == u.annexb
  {
    UnitBytesSnoc([], u);
    assert [] + [u] == [u];
  }

  lemma OneNal(nal: NalUnit)
    ensures BytesOf([nal]) == nal.annexb
  {
  }

  lemma {:induction false} FeedConserves(a: Assembler, pieces: seq<Piece>)
    requires Feed(a, pieces).error.None?
    ensures UnitBytes(Feed(a, pieces).units) + BytesOf(Feed(a, pieces).asm.current)
            == BytesOf(a.current) + PieceBytes(pieces)
    decreases |pieces|
  {
    if pieces == [] {
      assert BytesOf(a.current) + [] == BytesOf(a.current);
    } else {
      var nal := NalOf(pieces[0], a.codec);
      var acc := Accept(a, nal);
      var rest := Feed(acc.asm, pieces[1..]);
      AcceptConserves(a, nal);
      FeedConserves(acc.asm, pieces[1..]);
      UnitBytesAppend(ToSeq(acc.unit), rest.units);
      Regroup(UnitBytes(ToSeq(acc.unit)), UnitBytes(rest.units), BytesOf(rest.asm.current),
              BytesOf(acc.asm.current), PieceBytes(pieces[1..]), BytesOf(a.current), nal.annexb);
    }
  }

  lemma Regroup(u: seq<Byte>, us: seq<Byte>, last: seq<Byte>, mid: seq<Byte>, ps: seq<Byte>, cur: seq<Byte>, n: seq<Byte>)
    requires u + mid == cur + n && us + last == mid + ps
    ensures (u + us) + last == cur + (n + ps)
  {
    assert (u + us) + last == u + (us + last);
    assert u + (mid + ps) == (u + mid) + ps;
    assert (cur + n) + ps == cur + (n + ps);
  }

  lemma {:induction false} UnitBytesAppend(p: seq<AccessUnit>, q: seq<AccessUnit>)
    ensures UnitBytes(p + q) == UnitBytes(p) + UnitBytes(q)
  {
    if p == [] {
      assert p + q == q;
    } else {
      assert (p + q)[1..] == p[1..] + q;
      UnitBytesAppend(p[1..], q);
      assert p[0].annexb + (UnitBytes(p[1..]) + UnitBytes(q)) == (p[0].annexb + UnitBytes(p[1..])) + UnitBytes(q);
    }
  }

  /**
   * After any error-free run, emitted units, then the NALs held, then the buffer miss
   * exactly `Lost` bytes of the input, and are the input exactly when that is zero.
   */
  lemma RunConserves(codec: Codec, chunks: seq<seq<Byte>>)
    requires Run(NewParser(codec), chunks).error.None?
    ensures var s := Run(NewParser(codec), chunks);
            var kept := UnitBytes(s.units) + BytesOf(s.parser.asm.current) + s.parser.buffer;
            && |kept| + Lost(Concat(chunks)) == |Concat(chunks)|
            && (kept == Concat(chunks) <==> Lost(Concat(chunks)) == 0)
  {
    RunIsWholeStream(codec, chunks);
    FeedConserves(NewAssembler(codec), Pieces(Concat(chunks)));
    PiecesAccount(Concat(chunks));
    assert BytesOf([]) + PieceBytes(Pieces(Concat(chunks))) == PieceBytes(Pieces(Concat(chunks)));
  }

  /** Bytes a finished parse leaves out of its units. */
  function LostAtEnd(buf: seq<Byte>): nat {
    if Scan(buf) == [] then |buf|
    else
      var c := Scan(buf)[|Scan(buf)| - 1];
      Scan(buf)[0].pos + EmptyCodes(Scan(buf), 0) + if c.pos + c.len == |buf| then c.len else 0
  }

  lemma LastPieceBytes(buf: seq<Byte>)
    requires Scan(buf) != []
    ensures var c := Scan(buf)[|Scan(buf)| - 1];
            && 3 <= c.len && c.pos + c.len <= |buf|
            && PieceBytes(LastPiece(buf)) == if c.pos + c.len < |buf| then buf[c.pos..] else []
  {
    ScanFacts(buf);
    var c := Scan(buf)[|Scan(buf)| - 1];
    assert Spells(buf, c);
    if c.pos + c.len < |buf| {
      assert LastPiece(buf)[1..] == [];
    }
  }

  lemma Joined(buf: seq<Byte>, p: seq<Byte>, l: seq<Byte>, from: nat, empty: nat, c: StartCode)
    requires from + |p| + empty == c.pos && c.pos + c.len <= |buf| && c.len >= 3
    requires empty == 0 ==> p == buf[from..c.pos]
    requires l == if c.pos + c.len < |buf| then buf[c.pos..] else []
    ensures var lost := from + empty + if c.pos + c.len == |buf| then c.len else 0;
            |p + l| + lost == |buf| && (p + l == buf <==> lost == 0)
  {
  }

  lemma AllPiecesAccount(buf: seq<Byte>)
    ensures |PieceBytes(AllPieces(buf))| + LostAtEnd(buf) == |buf|
    ensures PieceBytes(AllPieces(buf)) == buf <==> LostAtEnd(buf) == 0
  {
    PieceBytesAppend(Pieces(buf), LastPiece(buf));
    var codes := Scan(buf);
    if codes != [] {
      LastPieceBytes(buf);
      PiecesLength(buf);
      var c := codes[|codes| - 1];
      Joined(buf, PieceBytes(Pieces(buf)), PieceBytes(LastPiece(buf)), codes[0].pos, EmptyCodes(codes, 0), c);
    }
  }

  /** After `finish` the units alone miss `LostAtEnd` bytes, and are the input when that is zero. */
  lemma ParseAllConserves(codec: Codec, chunks: seq<seq<Byte>>)
    requires ParseAll(codec, chunks).error.None?
    ensures var bytes := UnitBytes(ParseAll(codec, chunks).units);
            && |bytes| + LostAtEnd(Concat(chunks)) == |Concat(chunks)|
            && (bytes == Concat(chunks) <==> LostAtEnd(Concat(chunks)) == 0)
  {
    var b := Concat(chunks);
    ParseAllIsWholeStream(codec, chunks);
    var f := Feed(NewAssembler(codec), AllPieces(b));
    FeedConserves(NewAssembler(codec), AllPieces(b));
    UnitBytesAppend(f.units, ToSeq(Flush(f.asm).unit));
    FlushBytes(f.asm);
    AllPiecesAccount(b);
    assert BytesOf([]) + PieceBytes(AllPieces(b)) == PieceBytes(AllPieces(b));
  }

  lemma FlushBytes(a: Assembler)
    ensures UnitBytes(ToSeq(Flush(a).unit)) == BytesOf(a.current)
  {
  }

  /** A stream that opens with a code, holds no empty NAL and does not end in one loses nothing. */
  lemma CleanStreamLosesNothing(buf: seq<Byte>)
    requires OpensWithCode(buf)
    ensures Scan(buf) != []
    ensures Lost(buf) == 0 <==> EmptyCodes(Scan(buf), 0) == 0
    ensures LostAtEnd(buf) == 0 <==>
            var c := Scan(buf)[|Scan(buf)| - 1];
            EmptyCodes(Scan(buf), 0) == 0 && c.pos + c.len < |buf|
  {
    FirstCodeAtZero(buf);
    ScanFacts(buf);
    assert Spells(buf, Scan(buf)[|Scan(buf)| - 1]);
  }
}
