/**
 * Whole parses in terms of stream bytes alone: which streams are accepted, how their pieces
 * fall into access units, which of these are keyframes, and which parameter sets are in force.
 */
module StreamBytes {
  import opened Common
  import opened StartCodes
  import opened AnnexB
  import opened ChunkIndependence
  import opened AccessUnits
  import opened ParameterSets
  import opened ByteConservation
  import opened StreamKinds

  // ----- Units -----

  predicate HoldsVcl(group: seq<Piece>, codec: Codec) {
    exists i :: 0 <= i < |group| && VclByte(HeaderByte(group[i]), codec)
  }

  predicate HoldsKey(group: seq<Piece>, codec: Codec) {
    exists i :: 0 <= i < |group| && KeyByte(HeaderByte(group[i]), codec)
  }

  /** Piece `p` may not join a unit that so far holds `group`. */
  predicate StartsUnit(group: seq<Piece>, p: Piece, codec: Codec) {
    var b := HeaderByte(p);
    || AudByte(b, codec)
    || (HoldsVcl(group, codec) &&
        (SetByte(b, codec) || SeiByte(b, codec) || (VclByte(b, codec) && FirstSlice(p, codec))))
  }

  /** The pieces of one unit: none after the first starts another. */
  predicate OneUnit(group: seq<Piece>, codec: Codec) {
    group != [] && forall i :: 0 < i < |group| ==> !StartsUnit(group[..i], group[i], codec)
  }

  /** A stream cut into units: each ends exactly where the next piece starts another. */
  predicate Cut(groups: seq<seq<Piece>>, codec: Codec) {
    && (forall k :: 0 <= k < |groups| ==> OneUnit(groups[k], codec))
    && (forall k :: 0 < k < |groups| ==> StartsUnit(groups[k - 1], groups[k][0], codec))
  }

  /** What an emitted unit says of its pieces. */
  predicate Carries(unit: AccessUnit, group: seq<Piece>, codec: Codec, index: nat) {
    && unit.codec == codec && unit.index == index
    && unit.annexb == PieceBytes(group)
    && (unit.keyframe <==> HoldsKey(group, codec))
  }

  // ----- NALs and pieces -----

  /** The NALs the parser makes of these pieces. */
  predicate Same(pieces: seq<Piece>, nals: seq<NalUnit>, codec: Codec) {
    |pieces| == |nals| && forall i :: 0 <= i < |pieces| ==> Agrees(pieces[i], nals[i], codec)
  }

  lemma NalsSame(pieces: seq<Piece>, codec: Codec)
    requires AllSpelled(pieces) && AllWhole(pieces, codec)
    ensures Same(pieces, NalsOf(pieces, codec), codec)
  {
    forall i | 0 <= i < |pieces|
      ensures Agrees(pieces[i], NalsOf(pieces, codec)[i], codec)
    {
      assert !HeaderOnly(pieces[i], codec);
      NalAgrees(pieces[i], codec);
    }
  }

  lemma SamePart(pieces: seq<Piece>, nals: seq<NalUnit>, codec: Codec, i: nat, j: nat)
    requires Same(pieces, nals, codec) && i <= j <= |pieces|
    ensures Same(pieces[i..j], nals[i..j], codec)
  {
  }

  lemma VclSame(pieces: seq<Piece>, nals: seq<NalUnit>, codec: Codec)
    requires Same(pieces, nals, codec)
    ensures HoldsVcl(pieces, codec) <==> HasVcl(nals, codec)
    ensures HoldsKey(pieces, codec) <==> HasKeyframe(nals, codec)
  {
    forall i | 0 <= i < |pieces|
      ensures Agrees(pieces[i], nals[i], codec)
    {
    }
  }

  lemma BreakSame(group: seq<Piece>, nals: seq<NalUnit>, p: Piece, n: NalUnit, codec: Codec)
    requires Same(group, nals, codec) && Agrees(p, n, codec)
    ensures StartsUnit(group, p, codec) <==> Breaks(nals, n, codec)
  {
    VclSame(group, nals, codec);
  }

  lemma LegalSame(group: seq<Piece>, nals: seq<NalUnit>, codec: Codec)
    requires Same(group, nals, codec) && Legal(nals, codec)
    ensures OneUnit(group, codec)
  {
    forall i | 0 < i < |group|
      ensures !StartsUnit(group[..i], group[i], codec)
    {
      SamePart(group, nals, codec, 0, i);
      assert group[0..i] == group[..i] && nals[0..i] == nals[..i];
      BreakSame(group[..i], nals[..i], group[i], nals[i], codec);
      assert !Breaks(nals[..i], nals[i], codec);
    }
  }

  lemma {:induction false} BytesSame(group: seq<Piece>, nals: seq<NalUnit>, codec: Codec)
    requires Same(group, nals, codec)
    ensures PieceBytes(group) == BytesOf(nals)
    decreases |group|
  {
    if group != [] {
      assert Agrees(group[0], nals[0], codec);
      SamePart(group, nals, codec, 1, |group|);
      assert group[1..|group|] == group[1..] && nals[1..|nals|] == nals[1..];
      BytesSame(group[1..], nals[1..], codec);
    }
  }

  /** The pieces in groups of the sizes of the given ones. */
  function Regroup(pieces: seq<Piece>, groups: seq<seq<NalUnit>>): (r: seq<seq<Piece>>)
    ensures |r| == |groups|
  {
    if groups == [] then []
    else
      var n := if |groups[0]| <= |pieces| then |groups[0]| else |pieces|;
      [pieces[..n]] + Regroup(pieces[n..], groups[1..])
  }

  predicate AllSame(r: seq<seq<Piece>>, groups: seq<seq<NalUnit>>, codec: Codec) {
    |r| == |groups| && forall k :: 0 <= k < |r| ==> Same(r[k], groups[k], codec)
  }

  lemma AllSameCons(
    x: seq<Piece>, r: seq<seq<Piece>>, g: seq<NalUnit>, groups: seq<seq<NalUnit>>, codec: Codec)
    requires Same(x, g, codec) && AllSame(r, groups, codec)
    ensures AllSame([x] + r, [g] + groups, codec)
  {
  }

  lemma SplitFirst(groups: seq<seq<NalUnit>>, all: seq<NalUnit>, n: nat)
    requires groups != [] && all == Concat(groups) && n == |groups[0]|
    ensures n <= |all| && all[..n] == groups[0] && all[n..] == Concat(groups[1..])
    ensures groups == [groups[0]] + groups[1..]
  {
  }

  lemma {:induction false} Regrouped(pieces: seq<Piece>, groups: seq<seq<NalUnit>>, all: seq<NalUnit>, codec: Codec)
    requires all == Concat(groups) && Same(pieces, all, codec)
    ensures Concat(Regroup(pieces, groups)) == pieces && AllSame(Regroup(pieces, groups), groups, codec)
    decreases |groups|
  {
    if groups != [] {
      var n := |groups[0]|;
      SplitFirst(groups, all, n);
      SameSplit(pieces, all, codec, n);
      Regrouped(pieces[n..], groups[1..], all[n..], codec);
      AllSameCons(pieces[..n], Regroup(pieces[n..], groups[1..]), groups[0], groups[1..], codec);
      ConcatCons(pieces[..n], Regroup(pieces[n..], groups[1..]));
    }
  }

  lemma SameSplit(pieces: seq<Piece>, all: seq<NalUnit>, codec: Codec, n: nat)
    requires Same(pieces, all, codec) && n <= |all|
    ensures Same(pieces[..n], all[..n], codec) && Same(pieces[n..], all[n..], codec)
    ensures pieces[..n] + pieces[n..] == pieces
  {
  }

  lemma ConcatCons<T>(x: seq<T>, rest: seq<seq<T>>)
    ensures Concat([x] + rest) == x + Concat(rest)
  {
    assert ([x] + rest)[1..] == rest;
  }

  lemma CutSame(r: seq<seq<Piece>>, groups: seq<seq<NalUnit>>, codec: Codec)
    requires AllSame(r, groups, codec) && Greedy(groups, codec)
    ensures Cut(r, codec)
  {
    forall k | 0 <= k < |r|
      ensures OneUnit(r[k], codec)
    {
      LegalSame(r[k], groups[k], codec);
    }
    forall k | 0 < k < |r|
      ensures StartsUnit(r[k - 1], r[k][0], codec)
    {
      assert Same(r[k], groups[k], codec) && Legal(groups[k], codec);
      BreakSame(r[k - 1], groups[k - 1], r[k][0], groups[k][0], codec);
    }
  }

  lemma CarriesSame(unit: AccessUnit, group: seq<Piece>, codec: Codec, index: nat)
    requires Describes(unit, codec, index) && Same(group, unit.nals, codec)
    ensures Carries(unit, group, codec, index)
  {
    BytesSame(group, unit.nals, codec);
    VclSame(group, unit.nals, codec);
  }

  // ----- The units of a parse -----

  /** Everything emitted carries its group of pieces; one more group may still be held. */
  ghost predicate Emitted(units: seq<AccessUnit>, groups: seq<seq<Piece>>, pieces: seq<Piece>, codec: Codec) {
    && Concat(groups) == pieces && Cut(groups, codec)
    && |units| <= |groups| <= |units| + 1
    && forall k :: 0 <= k < |units| ==> Carries(units[k], groups[k], codec, k)
  }

  lemma FedUnits(codec: Codec, pieces: seq<Piece>, fed: Fed) returns (groups: seq<seq<Piece>>)
    requires AllSpelled(pieces) && fed == Feed(NewAssembler(codec), pieces) && fed.error.None?
    ensures Emitted(fed.units, groups, pieces, codec)
    ensures |groups| == |fed.units| + (if fed.asm.current == [] then 0 else 1)
    ensures fed.asm.current != [] ==> Same(groups[|fed.units|], fed.asm.current, codec)
    ensures fed.asm.index == |fed.units| && fed.asm.codec == codec
  {
    FeedAccepts(NewAssembler(codec), pieces);
    var nals := NalsOf(pieces, codec);
    UnitsAreGreedySplit(codec, nals);
    NalsSame(pieces, codec);
    var split := Groups(fed.units, fed.asm.current);
    groups := Regroup(pieces, split);
    Regrouped(pieces, split, nals, codec);
    CutSame(groups, split, codec);
    forall k | 0 <= k < |fed.units|
      ensures Carries(fed.units[k], groups[k], codec, k)
    {
      assert split[k] == fed.units[k].nals;
      CarriesSame(fed.units[k], groups[k], codec, k);
    }
  }

  /** The units of an error-free run, in terms of the bytes of the stream. */
  lemma UnitsOnBytes(codec: Codec, chunks: seq<seq<Byte>>) returns (groups: seq<seq<Piece>>)
    requires Run(NewParser(codec), chunks).error.None?
    ensures Emitted(Run(NewParser(codec), chunks).units, groups, Pieces(Concat(chunks)), codec)
  {
    var pieces := Pieces(Concat(chunks));
    RunIsWholeStream(codec, chunks);
    PiecesSpelled(Concat(chunks));
    groups := FedUnits(codec, pieces, Feed(NewAssembler(codec), pieces));
  }

  lemma FlushCarries(a: Assembler, group: seq<Piece>)
    requires a.current != [] && Same(group, a.current, a.codec)
    ensures Flush(a).unit.Some? && Carries(Flush(a).unit.value, group, a.codec, a.index)
  {
    CarriesSame(Flush(a).unit.value, group, a.codec, a.index);
  }

  /** After `finish` every piece, the last one included, is in exactly one emitted unit. */
  lemma FinishedUnitsOnBytes(codec: Codec, chunks: seq<seq<Byte>>) returns (groups: seq<seq<Piece>>)
    requires ParseAll(codec, chunks).error.None?
    ensures |groups| == |ParseAll(codec, chunks).units|
    ensures Emitted(ParseAll(codec, chunks).units, groups, AllPieces(Concat(chunks)), codec)
  {
    var pieces := AllPieces(Concat(chunks));
    var fed := Feed(NewAssembler(codec), pieces);
    ParseAllIsWholeStream(codec, chunks);
    PiecesSpelled(Concat(chunks));
    groups := FedUnits(codec, pieces, fed);
    if fed.asm.current != [] {
      FlushCarries(fed.asm, groups[|fed.units|]);
    }
  }

  // ----- Parameter sets -----

  /** The parameter sets since the last picture data or AUD. */
  function OpenSets(pieces: seq<Piece>, codec: Codec): seq<Byte> {
    if pieces == [] then []
    else
      var init, last := pieces[..|pieces| - 1], pieces[|pieces| - 1];
      var b := HeaderByte(last);
      if VclByte(b, codec) || AudByte(b, codec) then []
      else if SetByte(b, codec) then OpenSets(init, codec) + last.bytes
      else OpenSets(init, codec)
  }

  /** Those closed by the most recent picture data that had any. */
  function SetsInForce(pieces: seq<Piece>, codec: Codec): seq<Byte> {
    if pieces == [] then []
    else
      var init, last := pieces[..|pieces| - 1], pieces[|pieces| - 1];
      if VclByte(HeaderByte(last), codec) && OpenSets(init, codec) != [] then OpenSets(init, codec)
      else SetsInForce(init, codec)
  }

  lemma {:induction false} SetsSame(pieces: seq<Piece>, nals: seq<NalUnit>, codec: Codec)
    requires Same(pieces, nals, codec)
    ensures OpenSets(pieces, codec) == Group(nals, codec) && SetsInForce(pieces, codec) == InForce(nals, codec)
    decreases |pieces|
  {
    if pieces != [] {
      var n := |pieces| - 1;
      SameInit(pieces, nals, codec, n);
      SetsSame(pieces[..n], nals[..n], codec);
      SetsStep(pieces[..n], pieces[n], nals[..n], nals[n], codec);
    }
  }

  lemma SameInit(pieces: seq<Piece>, nals: seq<NalUnit>, codec: Codec, n: nat)
    requires Same(pieces, nals, codec) && |pieces| == n + 1
    ensures Same(pieces[..n], nals[..n], codec) && Agrees(pieces[n], nals[n], codec)
    ensures pieces == pieces[..n] + [pieces[n]] && nals == nals[..n] + [nals[n]]
  {
  }

  lemma SetsSnoc(init: seq<Piece>, p: Piece, codec: Codec)
    ensures OpenSets(init + [p], codec) ==
            (if VclByte(HeaderByte(p), codec) || AudByte(HeaderByte(p), codec) then []
             else if SetByte(HeaderByte(p), codec) then OpenSets(init, codec) + p.bytes
             else OpenSets(init, codec))
    ensures SetsInForce(init + [p], codec) ==
            if VclByte(HeaderByte(p), codec) && OpenSets(init, codec) != [] then OpenSets(init, codec)
            else SetsInForce(init, codec)
  {
    assert (init + [p])[..|init|] == init;
  }

  lemma SetsStep(init: seq<Piece>, p: Piece, nals: seq<NalUnit>, n: NalUnit, codec: Codec)
    requires Agrees(p, n, codec)
    requires OpenSets(init, codec) == Group(nals, codec) && SetsInForce(init, codec) == InForce(nals, codec)
    ensures OpenSets(init + [p], codec) == Group(nals + [n], codec)
    ensures SetsInForce(init + [p], codec) == InForce(nals + [n], codec)
  {
    SetsSnoc(init, p, codec);
    GroupSnoc(nals, n, codec);
    InForceSnoc(nals, n, codec);
  }

  lemma FedSets(codec: Codec, pieces: seq<Piece>, fed: Fed)
    requires AllSpelled(pieces) && fed == Feed(NewAssembler(codec), pieces) && fed.error.None?
    ensures fed.asm.codec == codec && fed.asm.pending == OpenSets(pieces, codec)
    ensures fed.asm.collecting <==> fed.asm.pending != []
    ensures fed.asm.parameterSets == SetsInForce(pieces, codec)
    ensures |fed.asm.pending| <= 1024 && |fed.asm.parameterSets| <= 1024
  {
    var a := NewAssembler(codec);
    FeedAccepts(a, pieces);
    var nals := NalsOf(pieces, codec);
    NalsSame(pieces, codec);
    SetsSame(pieces, nals, codec);
    AcceptAllTracks(a, [], nals);
    assert [] + nals == nals;
  }

  /** Pending and committed sets of an error-free run, in terms of the bytes of the stream. */
  lemma SetsOnBytes(codec: Codec, chunks: seq<seq<Byte>>)
    requires Run(NewParser(codec), chunks).error.None?
    ensures var a := Run(NewParser(codec), chunks).parser.asm;
            && a.pending == OpenSets(Pieces(Concat(chunks)), codec)
            && a.parameterSets == SetsInForce(Pieces(Concat(chunks)), codec)
            && |a.pending| <= 1024 && |a.parameterSets| <= 1024
  {
    var pieces := Pieces(Concat(chunks));
    RunIsWholeStream(codec, chunks);
    PiecesSpelled(Concat(chunks));
    FedSets(codec, pieces, Feed(NewAssembler(codec), pieces));
  }

  // ----- Which streams are accepted -----

  /** Every piece goes on after its header, and no group of sets outgrows 1024 bytes. */
  predicate WellFormed(pieces: seq<Piece>, codec: Codec) {
    pieces == [] ||
    var n := |pieces| - 1;
    WellFormed(pieces[..n], codec) && Whole(pieces[n], codec) && |OpenSets(pieces, codec)| <= 1024
  }

  /** What `accept_nal` minds: only a parameter set that makes the group too long. */
  lemma AcceptFails(a: Assembler, nal: NalUnit)
    requires a.collecting <==> a.pending != []
    ensures Accept(a, nal).error.Some? <==> nal.IsParameterSet(a.codec) && |a.pending| + |nal.annexb| > 1024
  {
  }

  lemma NextFeeds(a: Assembler, p: Piece, sets: seq<Byte>)
    requires Spelled(p) && (a.collecting <==> a.pending != []) && |a.pending| <= 1024
    requires sets == (if VclByte(HeaderByte(p), a.codec) || AudByte(HeaderByte(p), a.codec) then []
                      else if SetByte(HeaderByte(p), a.codec) then a.pending + p.bytes else a.pending)
    ensures Feed(a, [p]).error.None? <==> Whole(p, a.codec) && |sets| <= 1024
  {
    FeedOne(a, p);
    if Whole(p, a.codec) {
      NalAgrees(p, a.codec);
      AcceptFails(a, NalOf(p, a.codec));
    }
  }

  lemma {:induction false} FeedSucceeds(codec: Codec, pieces: seq<Piece>)
    requires AllSpelled(pieces)
    ensures Feed(NewAssembler(codec), pieces).error.None? <==> WellFormed(pieces, codec)
    decreases |pieces|
  {
    if pieces != [] {
      var n := |pieces| - 1;
      var init := pieces[..n];
      FeedSucceeds(codec, init);
      FeedAppend(NewAssembler(codec), init, [pieces[n]]);
      assert pieces == init + [pieces[n]];
      var fed := Feed(NewAssembler(codec), init);
      if fed.error.None? {
        FedSets(codec, init, fed);
        NextFeeds(fed.asm, pieces[n], OpenSets(pieces, codec));
      }
    }
  }

  /** Exactly which streams parse, however they are cut, in terms of their bytes. */
  lemma RunSucceedsExactly(codec: Codec, chunks: seq<seq<Byte>>)
    ensures Run(NewParser(codec), chunks).error.None? <==>
            WithinLimits([], chunks) && WellFormed(Pieces(Concat(chunks)), codec)
    ensures ParseAll(codec, chunks).error.None? <==>
            WithinLimits([], chunks) && WellFormed(AllPieces(Concat(chunks)), codec)
  {
    PiecesSpelled(Concat(chunks));
    RunIsWholeStream(codec, chunks);
    ParseAllIsWholeStream(codec, chunks);
    FeedSucceeds(codec, Pieces(Concat(chunks)));
    FeedSucceeds(codec, AllPieces(Concat(chunks)));
  }
}
