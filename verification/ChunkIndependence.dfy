/**
 * However a stream is cut into `push` calls, the parser does what one scan over
 * the whole stream would do; and exactly which bytes survive into access units.
 */
module ChunkIndependence {
  import opened Common
  import opened StartCodes
  import opened AnnexB

  datatype Fed = Fed(asm: Assembler, units: seq<AccessUnit>, error: Option<CodecError>)

  /** The reference: accept the given pieces in order, up to the first error. */
  function Feed(a: Assembler, pieces: seq<Piece>): Fed
    decreases |pieces|
  {
    if pieces == [] then Fed(a, [], None)
    else if HeaderOnly(pieces[0], a.codec) then Fed(a, [], Some(EmptyNal))
    else
      var acc := Accept(a, NalOf(pieces[0], a.codec));
      if acc.error.Some? then Fed(acc.asm, [], acc.error)
      else
        Following(ToSeq(acc.unit), Feed(acc.asm, pieces[1..]))
  }

  /** The units collected before, followed by those of the rest. */
  function Following(units: seq<AccessUnit>, rest: Fed): Fed {
    rest.(units := units + rest.units)
  }

  /** What follows `first` when `q` is fed after it. */
  function Join(first: Fed, q: seq<Piece>): Fed {
    if first.error.Some? then first else Following(first.units, Feed(first.asm, q))
  }

  lemma JoinFollowing(units: seq<AccessUnit>, first: Fed, q: seq<Piece>)
    ensures Join(Following(units, first), q) == Following(units, Join(first, q))
  {
  }

  lemma FeedStep(a: Assembler, p: Piece, rest: seq<Piece>)
    requires !HeaderOnly(p, a.codec)
    ensures var acc := Accept(a, NalOf(p, a.codec));
            Feed(a, [p] + rest) ==
            if acc.error.Some? then Fed(acc.asm, [], acc.error)
            else Following(ToSeq(acc.unit), Feed(acc.asm, rest))
  {
  }

  lemma FeedAppendStep(a: Assembler, p: Piece, rest: seq<Piece>, q: seq<Piece>)
    requires !HeaderOnly(p, a.codec)
    requires var b := Accept(a, NalOf(p, a.codec)).asm; Feed(b, rest + q) == Join(Feed(b, rest), q)
    ensures Feed(a, [p] + (rest + q)) == Join(Feed(a, [p] + rest), q)
  {
    var acc := Accept(a, NalOf(p, a.codec));
    FeedStep(a, p, rest + q);
    FeedStep(a, p, rest);
    JoinFollowing(ToSeq(acc.unit), Feed(acc.asm, rest), q);
  }

  lemma {:induction false} FeedAppend(a: Assembler, p: seq<Piece>, q: seq<Piece>)
    ensures Feed(a, p + q) == Join(Feed(a, p), q)
    decreases |p|
  {
    if p == [] {
      assert p + q == q;
      assert [] + Feed(a, q).units == Feed(a, q).units;
    } else if !HeaderOnly(p[0], a.codec) {
      FeedAppend(Accept(a, NalOf(p[0], a.codec)).asm, p[1..], q);
      FeedAppendStep(a, p[0], p[1..], q);
      assert p + q == [p[0]] + (p[1..] + q) && p == [p[0]] + p[1..];
    }
  }

  // ----- One push -----

  /** A code is in sight, or too few bytes are held to give up on finding one. */
  predicate MayHoldCode(buf: seq<Byte>) {
    Scan(buf) == [] ==> |buf| <= 1024
  }

  /** The first of two or more codes, taken off. */
  lemma FirstPiece(buf: seq<Byte>, p: nat)
    requires |Scan(buf)| >= 2 && p == Scan(buf)[1].pos
    ensures p <= |buf| && Scan(buf[p..]) != [] && Rest(buf[p..]) == Rest(buf)
    ensures Pieces(buf) == PieceAt(buf, Scan(buf)[0], Scan(buf)[1]) + Pieces(buf[p..])
  {
    PiecesCut(buf, 1, p);
    RestCut(buf, 1, p);
    CutAligns(buf, 1, p);
  }

  /** The step `take_next_nal` makes when a second code bounds the first. */
  lemma TakeStep(buf: seq<Byte>, codec: Codec)
    requires |Scan(buf)| >= 2
    ensures Scan(buf)[0].len >= 3
    ensures Scan(buf)[0].pos + Scan(buf)[0].len <= Scan(buf)[1].pos <= |buf|
    ensures var c := Scan(buf);
            var cut, piece := buf[c[1].pos..], Piece(buf[c[0].pos..c[1].pos], c[0].len);
            TakeNext(buf, codec, false) ==
            if c[1].pos == c[0].pos + c[0].len then TakeNext(cut, codec, false)
            else if HeaderOnly(piece, codec) then Taken(Failed(EmptyNal), buf)
            else Taken(Got(NalOf(piece, codec)), cut)
  {
    ScanFacts(buf);
    assert Spells(buf, Scan(buf)[0]) && Spells(buf, Scan(buf)[1]);
  }

  /** `take_next_nal` hands out the first piece of its buffer. */
  lemma {:induction false} TakesFirstPiece(buf: seq<Byte>, codec: Codec)
    requires MayHoldCode(buf)
    ensures var t := TakeNext(buf, codec, false);
            match t.outcome
            case Nothing => Pieces(buf) == [] && t.rest == Rest(buf)
            case Failed(e) => e == EmptyNal && Pieces(buf) != [] && HeaderOnly(Pieces(buf)[0], codec)
            case Got(nal) =>
              && Pieces(buf) != [] && !HeaderOnly(Pieces(buf)[0], codec) && nal == NalOf(Pieces(buf)[0], codec)
              && MayHoldCode(t.rest) && Pieces(t.rest) == Pieces(buf)[1..] && Rest(t.rest) == Rest(buf)
    decreases |buf|
  {
    var codes := Scan(buf);
    if |codes| >= 2 {
      FirstPiece(buf, codes[1].pos);
      TakeStep(buf, codec);
      if codes[1].pos == codes[0].pos + codes[0].len {
        TakesFirstPiece(buf[codes[1].pos..], codec);
      }
    }
  }

  /** The loop of `push` is `Feed` on the pieces of its buffer. */
  lemma {:induction false} LoopFeeds(p: Parser)
    requires MayHoldCode(p.buffer)
    ensures var s, f := Loop(p), Feed(p.asm, Pieces(p.buffer));
            && s.parser.asm == f.asm && s.units == f.units && s.error == f.error
            && (s.error.None? ==> s.parser.buffer == Rest(p.buffer))
    decreases |p.buffer|
  {
    TakesFirstPiece(p.buffer, p.asm.codec);
    var t := TakeNext(p.buffer, p.asm.codec, false);
    if t.outcome.Got? {
      var a := Accept(p.asm, t.outcome.nal);
      if a.error.None? {
        LoopFeeds(Parser(a.asm, t.rest));
      }
    }
  }

  lemma LoopGivesUp(p: Parser)
    requires !MayHoldCode(p.buffer)
    ensures Loop(p).error == Some(NoStartCode)
  {
  }

  // ----- A whole run -----

  /** No chunk overfills the buffer, and a code shows up within the first 1024 bytes held. */
  predicate WithinLimits(before: seq<Byte>, chunks: seq<seq<Byte>>)
    decreases |chunks|
  {
    chunks == [] ||
    (&& |Rest(before)| + |chunks[0]| <= 8_388_608
     && MayHoldCode(before + chunks[0])
     && WithinLimits(before + chunks[0], chunks[1..]))
  }

  lemma SameSight(before: seq<Byte>, chunk: seq<Byte>)
    ensures MayHoldCode(Rest(before) + chunk) <==> MayHoldCode(before + chunk)
  {
    if |Scan(before)| >= 2 {
      LastCodeStays(before, chunk);
      var k := |Scan(before)| - 1;
      CutAligns(before + chunk, k, Scan(before)[k].pos);
    }
  }

  /** A run of the parser went as `fed` says, within the limits, and left `rest` in the buffer. */
  predicate Matches(s: Step, fed: Fed, limits: bool, rest: seq<Byte>) {
    && (s.error.None? <==> limits && fed.error.None?)
    && (s.error.None? ==> s.parser == Parser(fed.asm, rest) && s.units == fed.units)
  }

  /** One `push` after the bytes `before`, without error exactly within limits. */
  lemma PushFeeds(a: Assembler, before: seq<Byte>, chunk: seq<Byte>)
    ensures Matches(Push(Parser(a, Rest(before)), chunk), Feed(a, Pieces(Rest(before) + chunk)),
                    |Rest(before)| + |chunk| <= 8_388_608 && MayHoldCode(before + chunk), Rest(before + chunk))
  {
    SameSight(before, chunk);
    PiecesIncremental(before, chunk);
    var q := Parser(a, Rest(before) + chunk);
    if MayHoldCode(q.buffer) {
      LoopFeeds(q);
    } else {
      LoopGivesUp(q);
    }
  }

  lemma PiecesMore(held: seq<Byte>, c: seq<Byte>, more: seq<Byte>)
    ensures Pieces(held + (c + more)) == Pieces(held + c) + Pieces(Rest(held + c) + more)
  {
    PiecesIncremental(held + c, more);
    AppendAssoc(held, c, more);
  }

  lemma FeedMore(a: Assembler, held: seq<Byte>, c: seq<Byte>, more: seq<Byte>)
    ensures Feed(a, Pieces(held + (c + more))) == Join(Feed(a, Pieces(held + c)), Pieces(Rest(held + c) + more))
  {
    PiecesMore(held, c, more);
    FeedAppend(a, Pieces(held + c), Pieces(Rest(held + c) + more));
  }

  /** A first step followed by the rest of the run. */
  lemma MatchesJoin(
    s: Step, chunks: seq<seq<Byte>>, fed: Fed, pieces: seq<Piece>, l: bool, limits: bool, mid: seq<Byte>, rest: seq<Byte>)
    requires Matches(s, fed, l, mid)
    requires s.error.None? ==> Matches(Run(s.parser, chunks), Feed(fed.asm, pieces), limits, rest)
    ensures Matches(if s.error.Some? then s else Prepend(s.units, Run(s.parser, chunks)),
                    Join(fed, pieces), l && limits, rest)
  {
  }

  lemma {:induction false} RunFeeds(a: Assembler, before: seq<Byte>, chunks: seq<seq<Byte>>)
    ensures Matches(Run(Parser(a, Rest(before)), chunks), Feed(a, Pieces(Rest(before) + Concat(chunks))),
                    WithinLimits(before, chunks), Rest(before + Concat(chunks)))
    decreases |chunks|
  {
    var held := Rest(before);
    if chunks == [] {
      assert before + [] == before && held + [] == held;
      PiecesOfRest(before);
    } else {
      var c, more := chunks[0], Concat(chunks[1..]);
      PiecesIncremental(before, c);
      PushFeeds(a, before, c);
      FeedMore(a, held, c, more);
      var fed := Feed(a, Pieces(held + c));
      RunFeeds(fed.asm, before + c, chunks[1..]);
      AppendAssoc(before, c, more);
      MatchesJoin(Push(Parser(a, held), c), chunks[1..], fed, Pieces(Rest(before + c) + more),
                  |held| + |c| <= 8_388_608 && MayHoldCode(before + c), WithinLimits(before + c, chunks[1..]),
                  Rest(before + c), Rest(before + Concat(chunks)));
    }
  }

  lemma PiecesOfRest(buf: seq<Byte>)
    ensures Pieces(Rest(buf)) == []
  {
    var n := |Scan(buf)|;
    if n >= 2 {
      PiecesCut(buf, n - 1, Scan(buf)[n - 1].pos);
    }
  }

  /**
   * A run over chunks succeeds exactly when the limits are kept and the whole stream
   * feeds without error; its units and entire final state are then those of the
   * whole stream, scanned once.
   */
  lemma RunIsWholeStream(codec: Codec, chunks: seq<seq<Byte>>)
    ensures Matches(Run(NewParser(codec), chunks), Feed(NewAssembler(codec), Pieces(Concat(chunks))),
                    WithinLimits([], chunks), Rest(Concat(chunks)))
  {
    assert Rest([]) == [];
    assert [] + Concat(chunks) == Concat(chunks);
    RunFeeds(NewAssembler(codec), [], chunks);
  }

  /** Any two error-free ways of cutting the same bytes give the same units and state. */
  lemma ChunkingDoesNotMatter(codec: Codec, a: seq<seq<Byte>>, b: seq<seq<Byte>>)
    requires Concat(a) == Concat(b)
    requires Run(NewParser(codec), a).error.None? && Run(NewParser(codec), b).error.None?
    ensures Run(NewParser(codec), a) == Run(NewParser(codec), b)
  {
    RunIsWholeStream(codec, a);
    RunIsWholeStream(codec, b);
  }

  // ----- Finishing -----

  /** The piece after the last code, bounded by the end of the stream. */
  function LastPiece(buf: seq<Byte>): seq<Piece> {
    ScanFacts(buf);
    if Scan(buf) == [] then []
    else
      var c := Scan(buf)[|Scan(buf)| - 1];
      if c.pos + c.len < |buf| then [Piece(buf[c.pos..], c.len)] else []
  }

  /** What `finish` leaves in the buffer: everything when there was no code, else nothing. */
  function Unparsed(buf: seq<Byte>): seq<Byte> {
    if Scan(buf) == [] then buf else []
  }

  lemma TakesLastPiece(buf: seq<Byte>, codec: Codec)
    requires |Scan(buf)| <= 1 && MayHoldCode(buf)
    ensures var t := TakeNext(buf, codec, true);
            match t.outcome
            case Nothing => LastPiece(buf) == [] && t.rest == Unparsed(buf)
            case Failed(e) => e == EmptyNal && LastPiece(buf) != [] && HeaderOnly(LastPiece(buf)[0], codec)
            case Got(nal) =>
              && LastPiece(buf) != [] && !HeaderOnly(LastPiece(buf)[0], codec) && nal == NalOf(LastPiece(buf)[0], codec)
              && t.rest == Unparsed(buf)
  {
    ScanFacts(buf);
    if |Scan(buf)| == 1 {
      TakesOnlyPiece(buf, codec, Scan(buf)[0]);
    }
  }

  lemma TakesOnlyPiece(buf: seq<Byte>, codec: Codec, c: StartCode)
    requires Scan(buf) == [c] && Spells(buf, c)
    ensures TakeNext(buf, codec, true) ==
            if c.pos + c.len == |buf| then Taken(Nothing, [])
            else if HeaderOnly(Piece(buf[c.pos..], c.len), codec) then Taken(Failed(EmptyNal), buf)
            else Taken(Got(NalOf(Piece(buf[c.pos..], c.len), codec)), [])
  {
    assert buf[c.pos..|buf|] == buf[c.pos..] && buf[|buf|..] == [];
    assert TakeNext([], codec, true) == Taken(Nothing, []);
  }

  lemma LastPieceOfRest(buf: seq<Byte>)
    ensures |Scan(Rest(buf))| <= 1
    ensures LastPiece(Rest(buf)) == LastPiece(buf)
    ensures Scan(Rest(buf)) == [] <==> Scan(buf) == []
    ensures Unparsed(Rest(buf)) == Unparsed(buf)
  {
    ScanFacts(buf);
    ScanFacts(Rest(buf));
    var n := |Scan(buf)|;
    if n >= 2 {
      var p := Scan(buf)[n - 1].pos;
      CutAligns(buf, n - 1, p);
      assert Scan(buf[p..])[0].pos == 0;
      assert Rest(buf)[0..] == Rest(buf);
    }
  }

  /** `finish` after a run, unless that failed. */
  function Ended(s: Step): Step {
    if s.error.Some? then s
    else
      var f := Finish(s.parser);
      if f.error.Some? then f else Prepend(s.units, f)
  }

  /** `push` on every chunk, then `finish`. */
  function ParseAll(codec: Codec, chunks: seq<seq<Byte>>): Step {
    Ended(Run(NewParser(codec), chunks))
  }

  lemma FeedOne(a: Assembler, p: Piece)
    ensures Feed(a, [p]) ==
            if HeaderOnly(p, a.codec) then Fed(a, [], Some(EmptyNal))
            else
              var acc := Accept(a, NalOf(p, a.codec));
              if acc.error.Some? then Fed(acc.asm, [], acc.error) else Fed(acc.asm, ToSeq(acc.unit), None)
  {
  }

  lemma FinishFeeds(a: Assembler, buf: seq<Byte>)
    requires MayHoldCode(buf)
    ensures var s, f := Finish(Parser(a, Rest(buf))), Feed(a, LastPiece(buf));
            && s.error == f.error
            && (s.error.None? ==>
                  s.units == f.units + ToSeq(Flush(f.asm).unit) && s.parser == Parser(Flush(f.asm).asm, Unparsed(buf)))
  {
    LastPieceOfRest(buf);
    TakesLastPiece(Rest(buf), a.codec);
    if LastPiece(buf) != [] {
      FeedOne(a, LastPiece(buf)[0]);
      assert LastPiece(buf) == [LastPiece(buf)[0]];
    }
  }

  /** Every piece of a finished stream. */
  function AllPieces(buf: seq<Byte>): seq<Piece> {
    Pieces(buf) + LastPiece(buf)
  }

  lemma {:induction false} LimitsHold(before: seq<Byte>, chunks: seq<seq<Byte>>)
    requires WithinLimits(before, chunks) && MayHoldCode(before)
    ensures MayHoldCode(before + Concat(chunks))
    decreases |chunks|
  {
    if chunks == [] {
      assert before + [] == before;
    } else {
      LimitsHold(before + chunks[0], chunks[1..]);
      assert before + Concat(chunks) == (before + chunks[0]) + Concat(chunks[1..]);
    }
  }

  /** The outcome of a finished parse in terms of everything fed. */
  predicate Finishes(s: Step, fed: Fed, limits: bool, rest: seq<Byte>) {
    && (s.error.None? <==> limits && fed.error.None?)
    && (s.error.None? ==>
          s.units == fed.units + ToSeq(Flush(fed.asm).unit) && s.parser == Parser(Flush(fed.asm).asm, rest))
  }

  /** A run that matched `mid`, then `finish`. */
  lemma FinishJoins(run: Step, mid: Fed, buf: seq<Byte>, limits: bool)
    requires Matches(run, mid, limits, Rest(buf)) && (limits ==> MayHoldCode(buf))
    ensures Finishes(Ended(run), Join(mid, LastPiece(buf)), limits, Unparsed(buf))
  {
    if run.error.None? {
      FinishFeeds(mid.asm, buf);
      var f := Feed(mid.asm, LastPiece(buf));
      AppendAssoc(mid.units, f.units, ToSeq(Flush(f.asm).unit));
    }
  }

  /** The same for a finished stream: all pieces fed, the last unit flushed, and the buffer used up. */
  lemma ParseAllIsWholeStream(codec: Codec, chunks: seq<seq<Byte>>)
    ensures Finishes(ParseAll(codec, chunks), Feed(NewAssembler(codec), AllPieces(Concat(chunks))),
                     WithinLimits([], chunks), Unparsed(Concat(chunks)))
  {
    var b := Concat(chunks);
    var a := NewAssembler(codec);
    RunIsWholeStream(codec, chunks);
    FeedAppend(a, Pieces(b), LastPiece(b));
    WithinMayHold(chunks);
    FinishJoins(Run(NewParser(codec), chunks), Feed(a, Pieces(b)), b, WithinLimits([], chunks));
  }

  lemma WithinMayHold(chunks: seq<seq<Byte>>)
    ensures WithinLimits([], chunks) ==> MayHoldCode(Concat(chunks))
  {
    if WithinLimits([], chunks) {
      LimitsHold([], chunks);
      assert [] + Concat(chunks) == Concat(chunks);
    }
  }
}
