/**
 * What the assembled access units are: the greedy split of the NAL list, with the
 * parameter sets in force and every byte accounted for.
 */
module AccessUnits {
  import opened Common
  import opened StartCodes
  import opened AnnexB
  import opened ChunkIndependence

  // ----- NAL by NAL -----

  /** `accept_nal` on each NAL in order, up to the first error. */
  function AcceptAll(a: Assembler, nals: seq<NalUnit>): Fed
    decreases |nals|
  {
    if nals == [] then Fed(a, [], None)
    else
      var acc := Accept(a, nals[0]);
      if acc.error.Some? then Fed(acc.asm, [], acc.error)
      else
        Following(ToSeq(acc.unit), AcceptAll(acc.asm, nals[1..]))
  }

  lemma AcceptAllStep(a: Assembler, nals: seq<NalUnit>)
    requires nals != [] && AcceptAll(a, nals).error.None?
    ensures var acc := Accept(a, nals[0]);
            && acc.error.None?
            && AcceptAll(a, nals) == Following(ToSeq(acc.unit), AcceptAll(acc.asm, nals[1..]))
    ensures nals == [nals[0]] + nals[1..]
  {
  }

  predicate AllWhole(pieces: seq<Piece>, codec: Codec) {
    forall i :: 0 <= i < |pieces| ==> !HeaderOnly(pieces[i], codec)
  }

  function NalsOf(pieces: seq<Piece>, codec: Codec): (nals: seq<NalUnit>)
    requires AllWhole(pieces, codec)
    ensures |nals| == |pieces|
    ensures forall i :: 0 <= i < |nals| ==> nals[i] == NalOf(pieces[i], codec) && nals[i].annexb != []
  {
    if pieces == [] then [] else [NalOf(pieces[0], codec)] + NalsOf(pieces[1..], codec)
  }

  lemma AcceptKeepsCodec(a: Assembler, nal: NalUnit)
    ensures Accept(a, nal).asm.codec == a.codec
  {
  }

  lemma {:induction false} FeedAccepts(a: Assembler, pieces: seq<Piece>)
    requires Feed(a, pieces).error.None?
    ensures AllWhole(pieces, a.codec)
    ensures Feed(a, pieces) == AcceptAll(a, NalsOf(pieces, a.codec))
    ensures Feed(a, pieces).asm.codec == a.codec
    decreases |pieces|
  {
    if pieces != [] {
      var acc := Accept(a, NalOf(pieces[0], a.codec));
      AcceptKeepsCodec(a, NalOf(pieces[0], a.codec));
      FeedAccepts(acc.asm, pieces[1..]);
      var nals := NalsOf(pieces, a.codec);
      assert nals[1..] == NalsOf(pieces[1..], a.codec);
      forall i | 0 <= i < |pieces|
        ensures !HeaderOnly(pieces[i], a.codec)
      {
        if i > 0 { assert pieces[i] == pieces[1..][i - 1]; }
      }
    }
  }

  // ----- The greedy split -----

  predicate HasVcl(nals: seq<NalUnit>, codec: Codec) {
    exists i :: 0 <= i < |nals| && nals[i].IsVcl(codec)
  }

  /** `nal` may not join a unit that so far holds `unit`. */
  predicate Breaks(unit: seq<NalUnit>, nal: NalUnit, codec: Codec) {
    || nal.IsAud(codec)
    || (HasVcl(unit, codec) &&
        (nal.IsParameterSet(codec) || nal.IsSei(codec) || (nal.IsVcl(codec) && nal.StartsNewPicture(codec))))
  }

  /** A unit in which no NAL after the first breaks off from those before it. */
  predicate Legal(unit: seq<NalUnit>, codec: Codec) {
    unit != [] && forall i :: 0 < i < |unit| ==> !Breaks(unit[..i], unit[i], codec)
  }

  /** Legal units, each ended only because the next NAL had to break off. */
  predicate Greedy(units: seq<seq<NalUnit>>, codec: Codec) {
    && (forall k :: 0 <= k < |units| ==> Legal(units[k], codec))
    && (forall k :: 0 < k < |units| ==> Breaks(units[k - 1], units[k][0], codec))
  }

  lemma GreedyTail(us: seq<seq<NalUnit>>, codec: Codec)
    requires Greedy(us, codec) && us != []
    ensures Greedy(us[1..], codec)
  {
  }

  /** How many NALs the first unit takes when its first `i` already belong together. */
  function FirstUnit(nals: seq<NalUnit>, i: nat, codec: Codec): nat
    decreases |nals| - i
  {
    if i >= |nals| || Breaks(nals[..i], nals[i], codec) then i else FirstUnit(nals, i + 1, codec)
  }

  lemma {:induction false} FirstUnitEnds(nals: seq<NalUnit>, i: nat, n: nat, codec: Codec)
    requires i <= n <= |nals|
    requires forall j :: i <= j < n ==> !Breaks(nals[..j], nals[j], codec)
    requires n == |nals| || Breaks(nals[..n], nals[n], codec)
    ensures FirstUnit(nals, i, codec) == n
    decreases n - i
  {
    if i < n {
      FirstUnitEnds(nals, i + 1, n, codec);
    }
  }

  lemma GreedyFirst(us: seq<seq<NalUnit>>, codec: Codec)
    requires Greedy(us, codec) && us != []
    ensures Concat(us) != [] && FirstUnit(Concat(us), 1, codec) == |us[0]|
    ensures Concat(us)[..|us[0]|] == us[0] && Concat(us)[|us[0]|..] == Concat(us[1..])
  {
    var all, n := Concat(us), |us[0]|;
    assert Legal(us[0], codec);
    assert all == us[0] + Concat(us[1..]);
    forall j | 1 <= j < n
      ensures !Breaks(all[..j], all[j], codec)
    {
      assert all[..j] == us[0][..j] && all[j] == us[0][j];
    }
    if |us| > 1 {
      assert Legal(us[1], codec) && Breaks(us[0], us[1][0], codec);
      assert Concat(us[1..]) == us[1] + Concat(us[1..][1..]);
      assert all[n] == us[1][0];
    } else {
      assert Concat(us[1..]) == [];
    }
    FirstUnitEnds(all, 1, n, codec);
  }

  /** There is only one greedy split of a NAL list. */
  lemma {:induction false} GreedyIsUnique(us: seq<seq<NalUnit>>, vs: seq<seq<NalUnit>>, codec: Codec)
    requires Greedy(us, codec) && Greedy(vs, codec) && Concat(us) == Concat(vs)
    ensures us == vs
    decreases |us|
  {
    if us != [] { GreedyFirst(us, codec); }
    if vs != [] { GreedyFirst(vs, codec); }
    if us != [] {
      GreedyTail(us, codec);
      GreedyTail(vs, codec);
      GreedyIsUnique(us[1..], vs[1..], codec);
      assert us == [us[0]] + us[1..] && vs == [vs[0]] + vs[1..];
    }
  }

  /** NALs of the emitted units, followed by those still held. */
  function Groups(units: seq<AccessUnit>, current: seq<NalUnit>): seq<seq<NalUnit>> {
    seq(|units|, k requires 0 <= k < |units| => units[k].nals) + if current == [] then [] else [current]
  }

  /** A unit says what its NALs are. */
  predicate Describes(unit: AccessUnit, codec: Codec, index: nat) {
    && unit.codec == codec
    && unit.index == index
    && unit.annexb == BytesOf(unit.nals)
    && (unit.keyframe <==> HasKeyframe(unit.nals, codec))
  }

  /** Units emitted so far, what is held, and the NALs they came from. */
  ghost predicate Assembled(a: Assembler, units: seq<AccessUnit>, history: seq<NalUnit>) {
    && Concat(Groups(units, a.current)) == history
    && Greedy(Groups(units, a.current), a.codec)
    && (a.hasVcl <==> HasVcl(a.current, a.codec))
    && (a.current == [] ==> history == [])
    && a.index == |units|
    && forall k :: 0 <= k < |units| ==> Describes(units[k], a.codec, k)
  }

  lemma HasVclSnoc(nals: seq<NalUnit>, nal: NalUnit, codec: Codec)
    ensures HasVcl(nals + [nal], codec) <==> HasVcl(nals, codec) || nal.IsVcl(codec)
  {
    var all := nals + [nal];
    if HasVcl(nals, codec) {
      var i :| 0 <= i < |nals| && nals[i].IsVcl(codec);
      assert all[i].IsVcl(codec);
    }
    if nal.IsVcl(codec) {
      assert all[|nals|].IsVcl(codec);
    }
  }

  lemma LegalSnoc(unit: seq<NalUnit>, nal: NalUnit, codec: Codec)
    requires unit == [] || (Legal(unit, codec) && !Breaks(unit, nal, codec))
    ensures Legal(unit + [nal], codec)
  {
  }

  /** Extending the last group. */
  lemma GreedyExtend(groups: seq<seq<NalUnit>>, last: seq<NalUnit>, nal: NalUnit, codec: Codec)
    requires Greedy(groups + [last], codec) && !Breaks(last, nal, codec)
    ensures Greedy(groups + [last + [nal]], codec)
    ensures Concat(groups + [last + [nal]]) == Concat(groups + [last]) + [nal]
  {
    var before, after := groups + [last], groups + [last + [nal]];
    assert Legal(before[|groups|], codec);
    LegalSnoc(last, nal, codec);
    forall k | 0 <= k < |after|
      ensures Legal(after[k], codec)
    {
      if k < |groups| { assert after[k] == before[k]; }
    }
    forall k | 0 < k < |after|
      ensures Breaks(after[k - 1], after[k][0], codec)
    {
      assert Breaks(before[k - 1], before[k][0], codec);
      assert Legal(before[k], codec);
    }
    ConcatSnoc(groups, last);
    ConcatSnoc(groups, last + [nal]);
  }

  lemma LegalSnocs(groups: seq<seq<NalUnit>>, unit: seq<NalUnit>, codec: Codec)
    requires (forall k :: 0 <= k < |groups| ==> Legal(groups[k], codec)) && Legal(unit, codec)
    ensures forall k :: 0 <= k < |groups + [unit]| ==> Legal((groups + [unit])[k], codec)
  {
  }

  lemma BreakSnocs(groups: seq<seq<NalUnit>>, unit: seq<NalUnit>, codec: Codec)
    requires (forall k :: 0 <= k < |groups| ==> groups[k] != []) && unit != []
    requires forall k :: 0 < k < |groups| ==> Breaks(groups[k - 1], groups[k][0], codec)
    requires groups != [] ==> Breaks(groups[|groups| - 1], unit[0], codec)
    ensures forall k :: 0 < k < |groups + [unit]| ==>
              (groups + [unit])[k] != [] && Breaks((groups + [unit])[k - 1], (groups + [unit])[k][0], codec)
  {
    var after := groups + [unit];
    forall k | 0 < k < |after|
      ensures after[k] != [] && Breaks(after[k - 1], after[k][0], codec)
    {
      assert after[k - 1] == groups[k - 1];
      if k < |groups| { assert after[k] == groups[k]; }
    }
  }

  /** Starting a new group. */
  lemma GreedyBreak(groups: seq<seq<NalUnit>>, nal: NalUnit, codec: Codec)
    requires Greedy(groups, codec)
    requires groups != [] ==> Breaks(groups[|groups| - 1], nal, codec)
    ensures Greedy(groups + [[nal]], codec)
    ensures Concat(groups + [[nal]]) == Concat(groups) + [nal]
  {
    LegalSnocs(groups, [nal], codec);
    BreakSnocs(groups, [nal], codec);
    ConcatSnoc(groups, [nal]);
  }

  lemma AcceptShape(a: Assembler, nal: NalUnit)
    requires Accept(a, nal).error.None? && (a.hasVcl <==> HasVcl(a.current, a.codec))
    ensures var b := Accept(a, nal);
            && b.asm.codec == a.codec
            && (b.asm.hasVcl <==> HasVcl(b.asm.current, a.codec))
            && (if Breaks(a.current, nal, a.codec) && a.current != []
                then b.unit == Flush(a).unit && b.asm.current == [nal] && b.asm.index == a.index + 1
                else b.unit.None? && b.asm.current == a.current + [nal] && b.asm.index == a.index)
  {
    HasVclSnoc(a.current, nal, a.codec);
    HasVclSnoc([], nal, a.codec);
    assert [] + [nal] == [nal];
  }

  /** The split and its NAL list after one more NAL. */
  lemma AcceptExtends(a: Assembler, units: seq<AccessUnit>, history: seq<NalUnit>, nal: NalUnit)
    requires Assembled(a, units, history) && Accept(a, nal).error.None?
    ensures var b := Accept(a, nal);
            var g := Groups(units + ToSeq(b.unit), b.asm.current);
            Greedy(g, a.codec) && Concat(g) == history + [nal]
  {
    var b := Accept(a, nal);
    var out := units + ToSeq(b.unit);
    var before := Groups(units, a.current);
    AcceptShape(a, nal);
    if a.current == [] {
      GroupsEmpty(units, a.codec);
      assert out == [] && b.asm.current == [nal];
      assert Groups(out, b.asm.current) == [] + [[nal]];
      GreedyBreak([], nal, a.codec);
    } else if Breaks(a.current, nal, a.codec) {
      assert Groups(out, b.asm.current) == before + [[nal]];
      GreedyBreak(before, nal, a.codec);
    } else {
      var done := before[..|units|];
      assert before == done + [a.current];
      GreedyExtend(done, a.current, nal, a.codec);
      assert Groups(out, b.asm.current) == done + [a.current + [nal]];
    }
  }

  lemma AcceptAssembles(a: Assembler, units: seq<AccessUnit>, history: seq<NalUnit>, nal: NalUnit, acc: Accepted)
    requires Assembled(a, units, history) && acc == Accept(a, nal) && acc.error.None?
    ensures Assembled(acc.asm, units + ToSeq(acc.unit), history + [nal])
  {
    AcceptExtends(a, units, history, nal);
    AcceptShape(a, nal);
  }

  lemma GroupsEmpty(units: seq<AccessUnit>, codec: Codec)
    requires Greedy(Groups(units, []), codec) && Concat(Groups(units, [])) == []
    ensures units == []
  {
  }

  lemma {:induction false} AcceptAllAssembles(
    a: Assembler, units: seq<AccessUnit>, history: seq<NalUnit>, nals: seq<NalUnit>)
    requires Assembled(a, units, history) && AcceptAll(a, nals).error.None?
    ensures Assembled(AcceptAll(a, nals).asm, units + AcceptAll(a, nals).units, history + nals)
    decreases |nals|
  {
    if nals == [] {
      assert history + nals == history && units + [] == units;
    } else {
      AcceptAllStep(a, nals);
      var acc := Accept(a, nals[0]);
      AcceptAssembles(a, units, history, nals[0], acc);
      AcceptAllAssembles(acc.asm, units + ToSeq(acc.unit), history + [nals[0]], nals[1..]);
      AppendAssoc(history, [nals[0]], nals[1..]);
      AppendAssoc(units, ToSeq(acc.unit), AcceptAll(acc.asm, nals[1..]).units);
    }
  }

  /** The units of any NAL list are its greedy split, described by index, bytes and flag. */
  lemma UnitsAreGreedySplit(codec: Codec, nals: seq<NalUnit>)
    requires AcceptAll(NewAssembler(codec), nals).error.None?
    ensures Assembled(AcceptAll(NewAssembler(codec), nals).asm, AcceptAll(NewAssembler(codec), nals).units, nals)
  {
    assert Groups([], []) == [];
    AcceptAllAssembles(NewAssembler(codec), [], [], nals);
    assert [] + nals == nals;
    var f := AcceptAll(NewAssembler(codec), nals);
    assert [] + f.units == f.units;
  }

  /** The same for an error-free run over any chunks. */
  lemma RunSplitsGreedily(codec: Codec, chunks: seq<seq<Byte>>)
    requires Run(NewParser(codec), chunks).error.None?
    ensures AllWhole(Pieces(Concat(chunks)), codec)
    ensures var s := Run(NewParser(codec), chunks);
            Assembled(s.parser.asm, s.units, NalsOf(Pieces(Concat(chunks)), codec))
  {
    RunIsWholeStream(codec, chunks);
    FeedAccepts(NewAssembler(codec), Pieces(Concat(chunks)));
    UnitsAreGreedySplit(codec, NalsOf(Pieces(Concat(chunks)), codec));
  }

  /** Inside a legal unit: an AUD only first, and nothing after picture data that starts a picture. */
  lemma InsideLegalUnit(unit: seq<NalUnit>, codec: Codec, i: nat, v: nat)
    requires Legal(unit, codec) && v < i < |unit|
    ensures !unit[i].IsAud(codec)
    ensures unit[v].IsVcl(codec) ==>
              && !unit[i].IsParameterSet(codec) && !unit[i].IsSei(codec)
              && !(unit[i].IsVcl(codec) && unit[i].StartsNewPicture(codec))
  {
  }
}
