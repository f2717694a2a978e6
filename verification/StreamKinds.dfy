/**
 * What the bytes of a stream say about its pieces: the byte after a start code gives the
 * type (Table 7-1 of ITU-T H.264 and, for HEVC, the types the code goes by), and the first
 * bit of the slice says whether a picture starts.
 */
module StreamKinds {
  import opened Common
  import opened BitReader
  import opened StartCodes
  import opened AnnexB
  import opened ChunkIndependence

  // ----- Kinds, on bytes -----

  /** The byte after the start code. */
  function HeaderByte(p: Piece): Byte {
    if p.codeLen < |p.bytes| then p.bytes[p.codeLen] else 0
  }

  /** A parameter set: low five bits 7 or 8, or in HEVC bits 1 to 6 equal to 32. */
  predicate SetByte(b: Byte, codec: Codec) {
    if codec == H264 then b % 32 == 7 || b % 32 == 8 else b / 2 % 64 == 32
  }

  predicate KeyByte(b: Byte, codec: Codec) {
    if codec == H264 then b % 32 == 5 else 19 <= b / 2 % 64 <= 21
  }

  predicate SeiByte(b: Byte, codec: Codec) {
    if codec == H264 then b % 32 == 6 else 39 <= b / 2 % 64 <= 40
  }

  predicate AudByte(b: Byte, codec: Codec) {
    codec == H264 && b % 32 == 9
  }

  predicate VclByte(b: Byte, codec: Codec) {
    if codec == H264 then 1 <= b % 32 <= 5 else b / 2 % 64 < 32
  }

  /** The slice data begins with a one bit, or in H.264 with the code that wraps to zero. */
  predicate FirstSlice(p: Piece, codec: Codec) {
    var from := p.codeLen + if codec == H264 then 1 else 2;
    from < |p.bytes| &&
    (p.bytes[from] >= 128 || (codec == H264 && WrapsToZero(Remaining(p.bytes[from..], 0, 0))))
  }

  /** Something follows the header. */
  predicate Whole(p: Piece, codec: Codec) {
    |p.bytes| > p.codeLen + if codec == H264 then 1 else 2
  }

  /** The piece opens with 00 00 01 or 00 00 00 01, as its `codeLen` says. */
  predicate Spelled(p: Piece) {
    && (p.codeLen == 3 || p.codeLen == 4)
    && p.codeLen <= |p.bytes|
    && p.bytes[p.codeLen - 1] == 1
    && p.bytes[0] == 0 && p.bytes[1] == 0
    && (p.codeLen == 4 ==> p.bytes[2] == 0)
  }

  // ----- The code's predicates agree -----

  lemma CodeLenIs(p: Piece, n: NalUnit)
    requires Spelled(p) && n.annexb == p.bytes
    ensures n.StartCodeLen() == p.codeLen
  {
    if p.codeLen == 4 {
      assert p.bytes[..4] == [0, 0, 0, 1];
    } else if |p.bytes| >= 4 {
      assert p.bytes[..4][2] == 1;
    }
  }

  lemma TopBit(b: Byte)
    ensures BitAt(b, 0) == 1 <==> b >= 128
  {
    SmallPowers();
  }

  lemma FirstBit(slice: seq<Byte>)
    requires slice != []
    ensures var bits := Remaining(slice, 0, 0);
            bits != [] && (bits[0] == 1 <==> slice[0] >= 128)
  {
    TopBit(slice[0]);
  }

  lemma FirstMbOnBytes(slice: seq<Byte>)
    requires slice != []
    ensures FirstMb(slice) == Some(0) <==> slice[0] >= 128 || WrapsToZero(Remaining(slice, 0, 0))
  {
    FirstMbIsZero(slice);
    FirstBit(slice);
  }

  lemma StartsOnBytes(p: Piece, n: NalUnit, codec: Codec)
    requires Spelled(p) && Whole(p, codec) && n.annexb == p.bytes
    ensures n.StartsNewPicture(codec) <==> FirstSlice(p, codec)
  {
    CodeLenIs(p, n);
    if codec == H264 {
      FirstMbOnBytes(p.bytes[p.codeLen + 1..]);
    }
  }

  lemma TypeOnBytes(p: Piece, codec: Codec)
    requires Whole(p, codec)
    ensures !HeaderOnly(p, codec)
    ensures NalOf(p, codec).nalType == if codec == H264 then HeaderByte(p) % 32 else HeaderByte(p) / 2 % 64
    ensures NalOf(p, codec).annexb == p.bytes
  {
  }

  /** Each test the parser makes on a NAL is the one on the bytes. */
  predicate Agrees(p: Piece, n: NalUnit, codec: Codec) {
    && n.annexb == p.bytes
    && (n.IsParameterSet(codec) <==> SetByte(HeaderByte(p), codec))
    && (n.IsKeyframe(codec) <==> KeyByte(HeaderByte(p), codec))
    && (n.IsSei(codec) <==> SeiByte(HeaderByte(p), codec))
    && (n.IsAud(codec) <==> AudByte(HeaderByte(p), codec))
    && (n.IsVcl(codec) <==> VclByte(HeaderByte(p), codec))
    && (n.StartsNewPicture(codec) <==> FirstSlice(p, codec))
  }

  lemma NalAgrees(p: Piece, codec: Codec)
    requires Spelled(p) && Whole(p, codec)
    ensures !HeaderOnly(p, codec) && Agrees(p, NalOf(p, codec), codec)
  {
    TypeOnBytes(p, codec);
    StartsOnBytes(p, NalOf(p, codec), codec);
  }

  // ----- Every piece of a stream is spelled -----

  predicate AllSpelled(pieces: seq<Piece>) {
    forall i :: 0 <= i < |pieces| ==> Spelled(pieces[i])
  }

  lemma PieceSpelled(buf: seq<Byte>, c: StartCode, end: nat)
    requires Spells(buf, c) && c.pos + c.len <= end <= |buf|
    ensures Spelled(Piece(buf[c.pos..end], c.len))
  {
    var b := buf[c.pos..end];
    assert b[c.len - 1] == buf[c.pos + c.len - 1] && b[0] == buf[c.pos] && b[1] == buf[c.pos + 1];
    assert b[2] == buf[c.pos + 2];
  }

  lemma {:induction false} BetweenSpelled(buf: seq<Byte>, codes: seq<StartCode>, i: nat, j: nat)
    requires SpellsAll(buf, codes) && i <= j < |codes|
    ensures AllSpelled(Between(buf, codes, i, j))
    decreases j - i
  {
    if i < j {
      BetweenSpelled(buf, codes, i + 1, j);
      assert Spells(buf, codes[i]);
      if codes[i].pos + codes[i].len < codes[i + 1].pos <= |buf| {
        PieceSpelled(buf, codes[i], codes[i + 1].pos);
      }
    }
  }

  lemma PiecesSpelled(buf: seq<Byte>)
    ensures AllSpelled(Pieces(buf)) && AllSpelled(LastPiece(buf)) && AllSpelled(AllPieces(buf))
  {
    ScanSpells(buf, 0);
    var codes := Scan(buf);
    if codes != [] {
      var n := |codes| - 1;
      BetweenSpelled(buf, codes, 0, n);
      assert Spells(buf, codes[n]);
      assert buf[codes[n].pos..|buf|] == buf[codes[n].pos..];
      PieceSpelled(buf, codes[n], |buf|);
    }
  }
}
