/**
 * NAL units, access-unit assembly and the incremental Annex-B parser. `Loop`,
 * `Push`, `Finish` and `Accept` follow the code step by step; the class below
 * is proved against them.
 */
module AnnexB {
  import opened Common
  import opened StartCodes
  import opened BitReader

  datatype Codec = H264 | Hevc

  const MAX_PARAMETER_SET_BYTES := 1024
  const MAX_BUFFER := 8 * 1024 * 1024

  datatype CodecError = NoStartCode | TruncatedNal | EmptyNal | TooManyParameterSets(n: nat)

  // ----- NAL units -----

  datatype NalUnit = NalUnit(nalType: nat, header: seq<Byte>, annexb: seq<Byte>) {
    predicate IsParameterSet(codec: Codec) {
      match codec
      case H264 => nalType == 7 || nalType == 8
      case Hevc => nalType == 32
    }

    predicate IsKeyframe(codec: Codec) {
      match codec
      case H264 => nalType == 5
      case Hevc => nalType == 19 || nalType == 20 || nalType == 21
    }

    predicate IsSei(codec: Codec) {
      match codec
      case H264 => nalType == 6
      case Hevc => nalType == 39 || nalType == 40
    }

    predicate IsAud(codec: Codec) {
      codec == H264 && nalType == 9
    }

    predicate IsVcl(codec: Codec) {
      match codec
      case H264 => 1 <= nalType <= 5
      case Hevc => nalType <= 31
    }

    function StartCodeLen(): nat {
      if |annexb| >= 4 && annexb[..4] == [0, 0, 0, 1] then 4 else 3
    }

    predicate StartsNewPicture(codec: Codec) {
      var from := StartCodeLen() + HeaderBytes(codec);
      from <= |annexb| &&
      match codec
      case H264 => FirstMb(annexb[from..]) == Some(0)
      case Hevc => from < |annexb| && annexb[from] >= 128
    }
  }

  /** Size of the NAL unit header. */
  function HeaderBytes(codec: Codec): nat {
    if codec == H264 then 1 else 2
  }

  /** A piece whose body ends with, or inside, its header. */
  predicate HeaderOnly(piece: Piece, codec: Codec) {
    |piece.bytes| <= piece.codeLen + HeaderBytes(codec)
  }

  function NalOf(piece: Piece, codec: Codec): NalUnit
    requires !HeaderOnly(piece, codec)
  {
    var body := piece.bytes[piece.codeLen..];
    NalUnit(if codec == H264 then body[0] % 32 else (body[0] / 2) % 64,
            [body[0], body[HeaderBytes(codec)]],
            piece.bytes)
  }

  // ----- Assembling access units -----

  datatype AccessUnit = AccessUnit(codec: Codec, nals: seq<NalUnit>, annexb: seq<Byte>, keyframe: bool, index: nat)

  datatype Assembler = Assembler(
    codec: Codec, parameterSets: seq<Byte>, pending: seq<Byte>, collecting: bool,
    current: seq<NalUnit>, hasVcl: bool, index: nat)

  function NewAssembler(codec: Codec): Assembler {
    Assembler(codec, [], [], false, [], false, 0)
  }

  function BytesOf(nals: seq<NalUnit>): seq<Byte> {
    if nals == [] then [] else nals[0].annexb + BytesOf(nals[1..])
  }

  predicate HasKeyframe(nals: seq<NalUnit>, codec: Codec) {
    exists i :: 0 <= i < |nals| && nals[i].IsKeyframe(codec)
  }

  datatype Flushed = Flushed(asm: Assembler, unit: Option<AccessUnit>)

  function Flush(a: Assembler): Flushed {
    if a.current == [] then Flushed(a, None)
    else Flushed(a.(current := [], hasVcl := false, index := a.index + 1),
                 Some(AccessUnit(a.codec, a.current, BytesOf(a.current), HasKeyframe(a.current, a.codec), a.index)))
  }

  datatype Accepted = Accepted(asm: Assembler, unit: Option<AccessUnit>, error: Option<CodecError>)

  /** The new-picture decision of `accept_nal`. */
  predicate Boundary(a: Assembler, nal: NalUnit) {
    || nal.IsAud(a.codec)
    || (a.hasVcl && nal.IsVcl(a.codec) && nal.StartsNewPicture(a.codec))
    || (a.hasVcl && (nal.IsParameterSet(a.codec) || nal.IsSei(a.codec)))
  }

  /** `pending` and `collecting` after the AUD reset and, for a parameter set, the append. */
  function Collect(a: Assembler, nal: NalUnit): Assembler {
    var b := if nal.IsAud(a.codec) then a.(pending := [], collecting := false) else a;
    if nal.IsParameterSet(b.codec)
    then b.(pending := (if b.collecting then b.pending else []) + nal.annexb, collecting := true)
    else b
  }

  function Commit(a: Assembler, nal: NalUnit): Assembler {
    var b := if !nal.IsVcl(a.codec) then a
             else if a.collecting then a.(parameterSets := a.pending, pending := [], collecting := false, hasVcl := true)
             else a.(hasVcl := true);
    b.(current := b.current + [nal])
  }

  function Accept(a: Assembler, nal: NalUnit): Accepted {
    var f := if Boundary(a, nal) then Flush(a) else Flushed(a, None);
    var c := Collect(f.asm, nal);
    if nal.IsParameterSet(c.codec) && |c.pending| > MAX_PARAMETER_SET_BYTES
    then Accepted(c, None, Some(TooManyParameterSets(|c.pending|)))
    else Accepted(Commit(c, nal), f.unit, None)
  }

  // ----- The parser -----

  datatype Outcome = Failed(error: CodecError) | Nothing | Got(nal: NalUnit)
  datatype Taken = Taken(outcome: Outcome, rest: seq<Byte>)

  /** `take_next_nal`: the next complete NAL, with the buffer that remains. */
  function TakeNext(buf: seq<Byte>, codec: Codec, atEnd: bool): (t: Taken)
    ensures |t.rest| <= |buf|
    ensures t.outcome.Got? ==> |t.rest| < |buf|
    decreases |buf|
  {
    ScanFacts(buf);
    var codes := Scan(buf);
    if codes == [] then
      Taken(if |buf| > MAX_PARAMETER_SET_BYTES then Failed(NoStartCode) else Nothing, buf)
    else
      assert Spells(buf, codes[0]);
      if |codes| == 1 && !atEnd then Taken(Nothing, buf)
      else
        var end := if |codes| > 1 then codes[1].pos else |buf|;
        assert |codes| > 1 ==> Spells(buf, codes[1]);
        if end <= codes[0].pos + codes[0].len then TakeNext(buf[end..], codec, atEnd)
        else
          var piece := Piece(buf[codes[0].pos..end], codes[0].len);
          if HeaderOnly(piece, codec) then Taken(Failed(EmptyNal), buf)
          else Taken(Got(NalOf(piece, codec)), buf[end..])
  }

  datatype Parser = Parser(asm: Assembler, buffer: seq<Byte>)
  datatype Step = Step(parser: Parser, units: seq<AccessUnit>, error: Option<CodecError>)

  function NewParser(codec: Codec): Parser {
    Parser(NewAssembler(codec), [])
  }

  function ToSeq<T>(x: Option<T>): seq<T> {
    if x.Some? then [x.value] else []
  }

  /** The loop of `push`: accept NALs for as long as one is bounded. */
  function Loop(p: Parser): Step
    decreases |p.buffer|
  {
    var t := TakeNext(p.buffer, p.asm.codec, false);
    match t.outcome
    case Failed(e) => Step(p.(buffer := t.rest), [], Some(e))
    case Nothing => Step(p.(buffer := t.rest), [], None)
    case Got(nal) =>
      var a := Accept(p.asm, nal);
      if a.error.Some? then Step(Parser(a.asm, t.rest), [], a.error)
      else
        Prepend(ToSeq(a.unit), Loop(Parser(a.asm, t.rest)))
  }

  /** A step with the units collected before it. */
  function Prepend(units: seq<AccessUnit>, s: Step): Step {
    s.(units := units + s.units)
  }

  lemma LoopStops(p: Parser)
    requires !TakeNext(p.buffer, p.asm.codec, false).outcome.Got?
    ensures var t := TakeNext(p.buffer, p.asm.codec, false);
            Loop(p) == Step(p.(buffer := t.rest), [], if t.outcome.Failed? then Some(t.outcome.error) else None)
  {
  }

  lemma PrependTwice(a: seq<AccessUnit>, b: seq<AccessUnit>, s: Step)
    ensures Prepend(a, Prepend(b, s)) == Prepend(a + b, s)
  {
    AppendAssoc(a, b, s.units);
  }

  lemma LoopGoesOn(p: Parser, nal: NalUnit, units: seq<AccessUnit>)
    requires TakeNext(p.buffer, p.asm.codec, false).outcome == Got(nal)
    ensures var t, a := TakeNext(p.buffer, p.asm.codec, false), Accept(p.asm, nal);
            if a.error.Some? then Loop(p) == Step(Parser(a.asm, t.rest), [], a.error)
            else Prepend(units, Loop(p)) == Prepend(units + ToSeq(a.unit), Loop(Parser(a.asm, t.rest)))
  {
    var t, a := TakeNext(p.buffer, p.asm.codec, false), Accept(p.asm, nal);
    PrependTwice(units, ToSeq(a.unit), Loop(Parser(a.asm, t.rest)));
  }

  /** Units collected before an error are discarded with it. */
  function Discard(s: Step): Step {
    if s.error.Some? then s.(units := []) else s
  }

  function Push(p: Parser, bytes: seq<Byte>): Step {
    var q := p.(buffer := p.buffer + bytes);
    if |q.buffer| > MAX_BUFFER then Step(q, [], Some(TruncatedNal)) else Discard(Loop(q))
  }

  function Finish(p: Parser): Step {
    var t := TakeNext(p.buffer, p.asm.codec, true);
    match t.outcome
    case Failed(e) => Step(p.(buffer := t.rest), [], Some(e))
    case Nothing =>
      var f := Flush(p.asm);
      Step(Parser(f.asm, t.rest), ToSeq(f.unit), None)
    case Got(nal) =>
      var a := Accept(p.asm, nal);
      if a.error.Some? then Step(Parser(a.asm, t.rest), [], a.error)
      else
        var f := Flush(a.asm);
        Step(Parser(f.asm, t.rest), ToSeq(a.unit) + ToSeq(f.unit), None)
  }

  /** A reader feeding chunks until one fails. */
  function Run(p: Parser, chunks: seq<seq<Byte>>): Step
    decreases |chunks|
  {
    if chunks == [] then Step(p, [], None)
    else
      var s := Push(p, chunks[0]);
      if s.error.Some? then s
      else
        Prepend(s.units, Run(s.parser, chunks[1..]))
  }

  // ----- The imperative parser -----

  /** `any` over the NALs of a unit. */
  method AnyKeyframe(nals: seq<NalUnit>, codec: Codec) returns (found: bool)
    ensures found <==> HasKeyframe(nals, codec)
  {
    found := false;
    for i := 0 to |nals|
      invariant found <==> exists k :: 0 <= k < i && nals[k].IsKeyframe(codec)
    {
      found := found || nals[i].IsKeyframe(codec);
    }
  }

  /** The bytes of the NALs, one after the other. */
  method JoinBytes(nals: seq<NalUnit>) returns (bytes: seq<Byte>)
    ensures bytes == BytesOf(nals)
  {
    bytes := [];
    for i := 0 to |nals|
      invariant bytes + BytesOf(nals[i..]) == BytesOf(nals)
    {
      BytesFrom(nals, i, bytes);
      bytes := bytes + nals[i].annexb;
    }
    assert bytes + [] == bytes;
  }

  lemma BytesFrom(nals: seq<NalUnit>, i: nat, bytes: seq<Byte>)
    requires i < |nals|
    ensures bytes + BytesOf(nals[i..]) == (bytes + nals[i].annexb) + BytesOf(nals[i + 1..])
  {
    assert nals[i..][1..] == nals[i + 1..];
    AppendAssoc(bytes, nals[i].annexb, BytesOf(nals[i + 1..]));
  }

  class AnnexBParser {
    const codec: Codec
    var buffer: seq<Byte>
    var parameterSets: seq<Byte>
    var pendingParameterSets: seq<Byte>
    var collectingSets: bool
    var current: seq<NalUnit>
    var currentHasVcl: bool
    var index: nat

    ghost function Asm(): Assembler
      reads this
    {
      Assembler(codec, parameterSets, pendingParameterSets, collectingSets, current, currentHasVcl, index)
    }

    ghost function State(): Parser
      reads this
    {
      Parser(Asm(), buffer)
    }

    constructor (codec: Codec)
      ensures State() == NewParser(codec)
    {
      this.codec := codec;
      buffer, parameterSets, pendingParameterSets := [], [], [];
      collectingSets, currentHasVcl := false, false;
      current, index := [], 0;
    }

    method FlushCurrent() returns (unit: Option<AccessUnit>)
      modifies this
      ensures Flush(old(Asm())) == Flushed(Asm(), unit)
      ensures buffer == old(buffer)
    {
      if current == [] {
        return None;
      }
      var keyframe := AnyKeyframe(current, codec);
      var annexb := JoinBytes(current);
      unit := Some(AccessUnit(codec, current, annexb, keyframe, index));
      current := [];
      currentHasVcl := false;
      index := index + 1;
    }

    method AcceptNal(nal: NalUnit) returns (unit: Option<AccessUnit>, error: Option<CodecError>)
      modifies this
      ensures Accept(old(Asm()), nal) == Accepted(Asm(), unit, error)
      ensures buffer == old(buffer)
    {
      var isAud := nal.IsAud(codec);
      var sliceBoundary := currentHasVcl && nal.IsVcl(codec) && nal.StartsNewPicture(codec);
      var markerBoundary := currentHasVcl && (nal.IsParameterSet(codec) || nal.IsSei(codec));
      unit, error := None, None;
      if (isAud || sliceBoundary || markerBoundary) && current != [] {
        unit := FlushCurrent();
      }
      ghost var flushed := Asm();
      CollectSets(nal);
      assert Asm() == Collect(flushed, nal);
      if nal.IsParameterSet(codec) && |pendingParameterSets| > MAX_PARAMETER_SET_BYTES {
        return None, Some(TooManyParameterSets(|pendingParameterSets|));
      }
      if nal.IsVcl(codec) {
        if collectingSets {
          parameterSets := pendingParameterSets;
          pendingParameterSets := [];
          collectingSets := false;
        }
        currentHasVcl := true;
      }
      current := current + [nal];
    }

    /** An AUD drops the uncommitted group; a parameter set opens or extends one. */
    method CollectSets(nal: NalUnit)
      modifies this
      ensures Asm() == Collect(old(Asm()), nal)
      ensures buffer == old(buffer)
    {
      if nal.IsAud(codec) {
        pendingParameterSets := [];
        collectingSets := false;
      }
      if nal.IsParameterSet(codec) {
        if !collectingSets {
          pendingParameterSets := [];
          collectingSets := true;
        }
        pendingParameterSets := pendingParameterSets + nal.annexb;
      }
    }

    method TakeNextNal(atEnd: bool) returns (outcome: Outcome)
      modifies this
      ensures TakeNext(old(buffer), codec, atEnd) == Taken(outcome, buffer)
      ensures Asm() == old(Asm())
      decreases |buffer|
    {
      var codes := StartCodePositions(buffer);
      ScanFacts(buffer);
      if codes == [] {
        return if |buffer| > MAX_PARAMETER_SET_BYTES then Failed(NoStartCode) else Nothing;
      }
      assert Spells(buffer, codes[0]);
      if |codes| == 1 && !atEnd {
        return Nothing;
      }
      var end := if |codes| > 1 then codes[1].pos else |buffer|;
      assert |codes| > 1 ==> Spells(buffer, codes[1]);
      if end <= codes[0].pos + codes[0].len {
        buffer := buffer[end..];
        outcome := TakeNextNal(atEnd);
        return;
      }
      var piece := Piece(buffer[codes[0].pos..end], codes[0].len);
      if HeaderOnly(piece, codec) {
        return Failed(EmptyNal);
      }
      buffer := buffer[end..];
      outcome := Got(NalOf(piece, codec));
    }

    method PushBytes(bytes: seq<Byte>) returns (units: seq<AccessUnit>, error: Option<CodecError>)
      modifies this
      ensures Push(old(State()), bytes) == Step(State(), units, error)
    {
      buffer := buffer + bytes;
      units, error := [], None;
      if |buffer| > MAX_BUFFER {
        return [], Some(TruncatedNal);
      }
      ghost var start := State();
      while true
        invariant Loop(start) == Prepend(units, Loop(State()))
        decreases |buffer|
      {
        ghost var here := State();
        var outcome := TakeNextNal(false);
        match outcome {
          case Failed(e) =>
            LoopStops(here);
            return [], Some(e);
          case Nothing =>
            LoopStops(here);
            return;
          case Got(nal) =>
            var unit, e := AcceptNal(nal);
            LoopGoesOn(here, nal, units);
            if e.Some? {
              return [], e;
            }
            units := units + ToSeq(unit);
        }
      }
    }

    method FinishStream() returns (units: seq<AccessUnit>, error: Option<CodecError>)
      modifies this
      ensures Finish(old(State())) == Step(State(), units, error)
    {
      units, error := [], None;
      var outcome := TakeNextNal(true);
      match outcome {
        case Failed(e) =>
          return [], Some(e);
        case Nothing =>
        case Got(nal) =>
          var unit, e := AcceptNal(nal);
          if e.Some? {
            return [], e;
          }
          units := ToSeq(unit);
      }
      var last := FlushCurrent();
      units := units + ToSeq(last);
    }
  }
}
