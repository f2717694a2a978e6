/** The parameter-set prefix in force, as a property of the NAL history alone. */
module ParameterSets {
  import opened Common
  import opened StartCodes
  import opened AnnexB
  import opened ChunkIndependence
  import opened AccessUnits

  /** Picture data and AUDs end a group of parameter sets. */
  predicate EndsGroup(nal: NalUnit, codec: Codec) {
    nal.IsVcl(codec) || nal.IsAud(codec)
  }

  /** Number of NALs up to and including the last one that ended a group. */
  function GroupStart(history: seq<NalUnit>, codec: Codec): (i: nat)
    ensures i <= |history|
    ensures i > 0 ==> EndsGroup(history[i - 1], codec)
    ensures forall k :: i <= k < |history| ==> !EndsGroup(history[k], codec)
  {
    if history == [] then 0
    else if EndsGroup(history[|history| - 1], codec) then |history|
    else GroupStart(history[..|history| - 1], codec)
  }

  /** The bytes of a parameter set, nothing for any other NAL. */
  function SetPart(nal: NalUnit, codec: Codec): seq<Byte> {
    if nal.IsParameterSet(codec) then nal.annexb else []
  }

  /** The bytes of the parameter sets among `nals`. */
  function SetBytes(nals: seq<NalUnit>, codec: Codec): seq<Byte> {
    if nals == [] then []
    else SetPart(nals[0], codec) + SetBytes(nals[1..], codec)
  }

  /** The sets seen since the last picture data or AUD. */
  function Group(history: seq<NalUnit>, codec: Codec): seq<Byte> {
    SetBytes(history[GroupStart(history, codec)..], codec)
  }

  /** The `v`-th NAL is picture data that closes a group of sets. */
  predicate CommitsAt(history: seq<NalUnit>, v: nat, codec: Codec) {
    v < |history| && history[v].IsVcl(codec) && Group(history[..v], codec) != []
  }

  /** The most recent NAL that closed a group. */
  function LastCommit(history: seq<NalUnit>, codec: Codec): (v: Option<nat>)
    ensures v.Some? ==> CommitsAt(history, v.value, codec)
    ensures forall w: nat :: CommitsAt(history, w, codec) ==> v.Some? && w <= v.value
  {
    if history == [] then None
    else
      var n := |history| - 1;
      CommitsSnoc(history[..n], history[n], codec);
      assert history == history[..n] + [history[n]];
      if CommitsAt(history, n, codec) then Some(n) else LastCommit(history[..n], codec)
  }

  /** The group closed most recently; empty before the first. */
  function InForce(history: seq<NalUnit>, codec: Codec): seq<Byte> {
    var v := LastCommit(history, codec);
    if v.Some? then Group(history[..v.value], codec) else []
  }

  predicate Tracks(a: Assembler, history: seq<NalUnit>) {
    && a.pending == Group(history, a.codec)
    && (a.collecting <==> a.pending != [])
    && a.parameterSets == InForce(history, a.codec)
    && |a.pending| <= MAX_PARAMETER_SET_BYTES
    && |a.parameterSets| <= MAX_PARAMETER_SET_BYTES
  }

  lemma {:induction false} SetBytesSnoc(nals: seq<NalUnit>, nal: NalUnit, codec: Codec)
    ensures SetBytes(nals + [nal], codec) == SetBytes(nals, codec) + SetPart(nal, codec)
    decreases |nals|
  {
    if nals == [] {
      assert SetBytes([nal], codec) == SetPart(nal, codec) + SetBytes([nal][1..], codec);
      assert [] + [nal] == [nal];
    } else {
      SetBytesSnoc(nals[1..], nal, codec);
      assert (nals + [nal])[1..] == nals[1..] + [nal];
      AppendAssoc(SetPart(nals[0], codec), SetBytes(nals[1..], codec), SetPart(nal, codec));
    }
  }

  lemma GroupSnoc(history: seq<NalUnit>, nal: NalUnit, codec: Codec)
    ensures Group(history + [nal], codec) ==
            if EndsGroup(nal, codec) then []
            else Group(history, codec) + if nal.IsParameterSet(codec) then nal.annexb else []
  {
    var all := history + [nal];
    var i := GroupStart(history, codec);
    assert all[..|all| - 1] == history;
    if EndsGroup(nal, codec) {
      assert all[|all|..] == [];
    } else {
      assert GroupStart(all, codec) == i;
      assert all[i..] == history[i..] + [nal];
      SetBytesSnoc(history[i..], nal, codec);
    }
  }

  lemma CommitsSnoc(history: seq<NalUnit>, nal: NalUnit, codec: Codec)
    ensures forall v: nat :: CommitsAt(history + [nal], v, codec) <==>
              if v < |history| then CommitsAt(history, v, codec)
              else v == |history| && nal.IsVcl(codec) && Group(history, codec) != []
  {
    var all := history + [nal];
    forall v: nat
      ensures CommitsAt(all, v, codec) <==>
              if v < |history| then CommitsAt(history, v, codec)
              else v == |history| && nal.IsVcl(codec) && Group(history, codec) != []
    {
      if v < |history| {
        assert all[..v] == history[..v];
      } else if v == |history| {
        assert all[..v] == history;
      }
    }
  }

  lemma InForceSnoc(history: seq<NalUnit>, nal: NalUnit, codec: Codec)
    ensures InForce(history + [nal], codec) ==
            if nal.IsVcl(codec) && Group(history, codec) != [] then Group(history, codec) else InForce(history, codec)
  {
    var all := history + [nal];
    CommitsSnoc(history, nal, codec);
    assert all[..|history|] == history;
    var v := LastCommit(history, codec);
    if v.Some? {
      assert all[..v.value] == history[..v.value];
    }
  }

  /** How one accepted NAL changes the pending and the committed sets. */
  lemma AcceptSets(a: Assembler, nal: NalUnit)
    requires Accept(a, nal).error.None?
    ensures var b, ps, vcl := Accept(a, nal).asm, nal.IsParameterSet(a.codec), nal.IsVcl(a.codec);
            && b.codec == a.codec
            && (ps ==> b.pending == (if a.collecting then a.pending else []) + nal.annexb && b.collecting)
            && (ps ==> |b.pending| <= MAX_PARAMETER_SET_BYTES && !EndsGroup(nal, a.codec))
            && (vcl && a.collecting ==> b.pending == [] && !b.collecting)
            && (nal.IsAud(a.codec) ==> b.pending == [] && !b.collecting)
            && (!ps && !EndsGroup(nal, a.codec) ==> b.pending == a.pending && b.collecting == a.collecting)
            && (vcl && !a.collecting ==> b.pending == a.pending && !b.collecting)
            && b.parameterSets == if vcl && a.collecting then a.pending else a.parameterSets
  {
  }

  lemma AcceptTracks(a: Assembler, history: seq<NalUnit>, nal: NalUnit, acc: Accepted)
    requires Tracks(a, history) && nal.annexb != [] && acc == Accept(a, nal) && acc.error.None?
    ensures Tracks(acc.asm, history + [nal])
  {
    AcceptSets(a, nal);
    GroupSnoc(history, nal, a.codec);
    InForceSnoc(history, nal, a.codec);
  }

  lemma {:induction false} AcceptAllTracks(a: Assembler, history: seq<NalUnit>, nals: seq<NalUnit>)
    requires Tracks(a, history) && AcceptAll(a, nals).error.None?
    requires forall i :: 0 <= i < |nals| ==> nals[i].annexb != []
    ensures Tracks(AcceptAll(a, nals).asm, history + nals)
    decreases |nals|
  {
    if nals == [] {
      assert history + nals == history;
    } else {
      AcceptAllStep(a, nals);
      var acc := Accept(a, nals[0]);
      AcceptTracks(a, history, nals[0], acc);
      AcceptAllTracks(acc.asm, history + [nals[0]], nals[1..]);
      AppendAssoc(history, [nals[0]], nals[1..]);
    }
  }

  /**
   * After any error-free run: the pending prefix is the group still open, the committed
   * one is the group closed by the latest picture data that had one, both within 1024 bytes.
   */
  lemma RunTracksSets(codec: Codec, chunks: seq<seq<Byte>>)
    requires Run(NewParser(codec), chunks).error.None?
    ensures AllWhole(Pieces(Concat(chunks)), codec)
    ensures Tracks(Run(NewParser(codec), chunks).parser.asm, NalsOf(Pieces(Concat(chunks)), codec))
  {
    var pieces := Pieces(Concat(chunks));
    var a := NewAssembler(codec);
    RunIsWholeStream(codec, chunks);
    FeedAccepts(a, pieces);
    assert Tracks(a, []);
    AcceptAllTracks(a, [], NalsOf(pieces, codec));
    assert [] + NalsOf(pieces, codec) == NalsOf(pieces, codec);
  }
}
