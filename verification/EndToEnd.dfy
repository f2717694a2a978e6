/**
 * Host to device over a network that loses, reorders, duplicates and injects: what
 * comes out of `open_packet` and the reassembler, for whole runs.
 */
module EndToEnd {
  import opened Common
  import opened BigEndian
  import opened Crypto
  import opened Records
  import opened Packets
  import opened Reassembler
  import RW = ReplayWindow

  // ----- Both ends -----

  /** Frames in the order they were sent, drawing on one counter that runs from `start` to `end`. */
  ghost predicate Sequential(frames: seq<SentFrame>, start: nat, end: nat) {
    && (forall k :: 0 <= k < |frames| ==>
          frames[k].Proper() && start <= frames[k].base && frames[k].base + frames[k].Used() <= end)
    && (forall i, j :: 0 <= i < j < |frames| ==> frames[i].base + frames[i].Used() <= frames[j].base)
  }

  /** Each call starts where the one before left the counter. */
  predicate Chained(frames: seq<SentFrame>, start: nat) {
    && (frames != [] ==> frames[0].base == start)
    && (forall k :: 0 <= k < |frames| ==> frames[k].Proper())
    && (forall k :: 0 < k < |frames| ==> frames[k].base == frames[k - 1].base + frames[k - 1].Used())
  }

  function End(frames: seq<SentFrame>, start: nat): nat {
    if frames == [] then start else frames[|frames| - 1].base + frames[|frames| - 1].Used()
  }

  lemma {:induction false} ChainGrows(frames: seq<SentFrame>, start: nat, i: nat, j: nat)
    requires Chained(frames, start) && i <= j < |frames|
    ensures start <= frames[i].base <= frames[j].base
    ensures i < j ==> frames[i].base + frames[i].Used() <= frames[j].base
    decreases j
  {
    if j > 0 {
      ChainGrows(frames, start, if i < j then i else j - 1, j - 1);
      assert frames[j].base == frames[j - 1].base + frames[j - 1].Used();
    }
  }

  lemma ChainedIsSequential(frames: seq<SentFrame>, start: nat)
    requires Chained(frames, start)
    ensures Sequential(frames, start, End(frames, start))
  {
    forall i, j | 0 <= i < j < |frames|
      ensures frames[i].base + frames[i].Used() <= frames[j].base
    {
      ChainGrows(frames, start, i, j);
    }
    forall k | 0 <= k < |frames|
      ensures start <= frames[k].base && frames[k].base + frames[k].Used() <= End(frames, start)
    {
      ChainGrows(frames, start, k, |frames| - 1);
    }
  }

  datatype Receiver = Receiver(window: RW.Window, pending: State)

  const NEW_RECEIVER := Receiver(RW.FRESH, None)

  predicate Ready(r: Receiver) {
    r.window.Valid() && Valid(r.pending)
  }

  datatype Received = Received(receiver: Receiver, frames: seq<seq<Byte>>)

  /** One datagram at the device: open it and, if it opens, push its record. */
  function Receive(r: Receiver, session: Session, d: Datagram): Received
    requires Ready(r)
  {
    var o := OpenPacket(session, HostToDevice, r.window, d);
    match o.result
    case Err(_) => Received(r.(window := o.window), [])
    case Ok(record) =>
      var p := Push(r.pending, record.header, record.payload);
      Received(Receiver(o.window, p.state), if p.frame.Some? then [p.frame.value] else [])
  }

  lemma ReceiveReady(r: Receiver, session: Session, d: Datagram)
    requires Ready(r)
    ensures Ready(Receive(r, session, d).receiver)
  {
    WindowMovesOnlyOnOk(session, HostToDevice, r.window, d);
    var o := OpenPacket(session, HostToDevice, r.window, d);
    if o.result.Ok? {
      PushValid(r.pending, o.result.value.header, o.result.value.payload);
    }
  }

  function ReceiveAll(r: Receiver, session: Session, ds: seq<Datagram>): Received
    requires Ready(r)
    decreases |ds|
  {
    if ds == [] then Received(r, [])
    else
      var one := Receive(r, session, ds[0]);
      ReceiveReady(r, session, ds[0]);
      var rest := ReceiveAll(one.receiver, session, ds[1..]);
      rest.(frames := one.frames + rest.frames)
  }

  lemma {:induction false} ReceiveAllAppend(r: Receiver, session: Session, a: seq<Datagram>, b: seq<Datagram>)
    requires Ready(r)
    ensures Ready(ReceiveAll(r, session, a).receiver)
    ensures var first := ReceiveAll(r, session, a);
            var later := ReceiveAll(first.receiver, session, b);
            ReceiveAll(r, session, a + b) == Received(later.receiver, first.frames + later.frames)
    decreases |a|
  {
    if a == [] {
      assert a + b == b;
      var all := ReceiveAll(r, session, b);
      assert [] + all.frames == all.frames;
    } else {
      ReceiveReady(r, session, a[0]);
      assert (a + b)[1..] == a[1..] + b;
      var one := Receive(r, session, a[0]);
      ReceiveAllAppend(one.receiver, session, a[1..], b);
      var mid := ReceiveAll(one.receiver, session, a[1..]);
      var last := ReceiveAll(mid.receiver, session, b);
      assert one.frames + (mid.frames + last.frames) == (one.frames + mid.frames) + last.frames;
    }
  }

  // ----- The network -----

  /** Some datagram of some frame was sealed for this box. */
  ghost predicate WasSent(frames: seq<SentFrame>, box: Box) {
    exists f: nat, k: nat :: f < |frames| && k < frames[f].sent <= |frames[f].chunks| && frames[f].Packet(k).box == box
  }

  /**
   * All the network may do: deliver any box sent under the session, with clear bytes of
   * its own choosing, any number of times in any order, and anything not sealed under it.
   */
  ghost predicate Deliverable(frames: seq<SentFrame>, session: Session, d: Datagram) {
    d.box.Sealed? && d.box.session == session && d.box.direction == HostToDevice ==> WasSent(frames, d.box)
  }

  /** Which frame and fragment a sent box carries. */
  lemma OfSent(frames: seq<SentFrame>, session: Session, box: Box) returns (f: nat, k: nat)
    requires WasSent(frames, box) && box.Sealed? && box.session == session
    ensures f < |frames| && k < frames[f].sent <= |frames[f].chunks| && frames[f].session == session
    ensures box == Seal(session, HostToDevice, frames[f].Index(k) % U32, frames[f].RecordBytes(k))
  {
    f, k :| f < |frames| && k < frames[f].sent <= |frames[f].chunks| && frames[f].Packet(k).box == box;
  }

  /** A datagram that does anything at all does what a packet that was sent would do. */
  lemma ReceivesOnlySent(frames: seq<SentFrame>, session: Session, r: Receiver, d: Datagram) returns (f: nat, k: nat)
    requires Ready(r) && Deliverable(frames, session, d)
    requires forall i :: 0 <= i < |frames| ==> frames[i].Proper()
    ensures Receive(r, session, d) != Received(r, []) ==>
              && f < |frames| && k < frames[f].sent <= |frames[f].chunks| && frames[f].session == session
              && RW.Check(r.window, frames[f].Index(k) % U32)
              && Receive(r, session, d) == Receive(r, session, frames[f].Packet(k))
  {
    f, k := 0, 0;
    if |d.clear| >= 5 && d.clear[0] == DATA {
      Widths();
      var sequence := FromBe(d.clear[1..5]);
      if RW.Check(r.window, sequence) && Open(session, HostToDevice, sequence, d.box).Some? {
        f, k := OfSent(frames, session, d.box);
        OpensUnder(frames[f], k, sequence);
        SameOpening(frames[f], k, r.window, d);
      }
    }
  }

  /** A record opens under its own number only. */
  lemma OpensUnder(f: SentFrame, k: nat, sequence: nat)
    requires k < |f.chunks| && sequence < U32
    ensures Open(f.session, HostToDevice, sequence, f.Packet(k).box).Some? <==> sequence == f.Index(k) % U32
  {
    Widths();
    OpensOnlyAsSealed(f.session, HostToDevice, f.Index(k) % U32, f.session, HostToDevice, sequence, f.RecordBytes(k));
  }

  lemma SameOpening(f: SentFrame, k: nat, w: RW.Window, d: Datagram)
    requires f.Proper() && k < |f.chunks| && w.Valid()
    requires |d.clear| >= 5 && d.clear[0] == DATA && FromBe(d.clear[1..5]) == f.Index(k) % U32
    requires d.box == f.Packet(k).box
    ensures OpenPacket(f.session, HostToDevice, w, d) == OpenPacket(f.session, HostToDevice, w, f.Packet(k))
  {
    PacketOpens(f, k, w);
    PacketReads(f, k);
  }

  // ----- Safety -----

  /** A pending frame holds chunks of `f` only, each from a record accepted once. */
  predicate OfFrame(p: PendingFrame, f: SentFrame, seen: set<int>) {
    && p.frameSequence == f.base % U32
    && p.fragCount == |f.chunks| == |p.fragments|
    && forall k :: 0 <= k < |p.fragments| && p.fragments[k].Some? ==>
         p.fragments[k].value == f.chunks[k] && f.Index(k) in seen && k < f.sent
  }

  ghost predicate Assembling(frames: seq<SentFrame>, session: Session, s: State, seen: set<int>) {
    s.Some? ==> exists f: nat :: f < |frames| && frames[f].session == session && OfFrame(s.value, frames[f], seen)
  }

  /** All records of `f` were sent and accepted. */
  predicate Arrived(f: SentFrame, seen: set<int>) {
    f.sent == |f.chunks| && forall k: nat :: k < |f.chunks| ==> f.Index(k) in seen
  }

  /** The frames that came out are exact payloads of the distinct sent frames `ids`. */
  predicate Accounted(frames: seq<SentFrame>, session: Session, outs: seq<seq<Byte>>, ids: seq<nat>) {
    && |ids| == |outs|
    && (forall a, b :: 0 <= a < b < |ids| ==> ids[a] != ids[b])
    && forall o :: 0 <= o < |ids| ==>
         ids[o] < |frames| && frames[ids[o]].session == session && outs[o] == frames[ids[o]].payload
  }

  ghost predicate Consistent(
    frames: seq<SentFrame>, session: Session, start: nat, end: nat,
    r: Receiver, seen: RW.Ideal, outs: seq<seq<Byte>>, ids: seq<nat>)
  {
    && Ready(r)
    && RW.StandsFor(r.window, seen)
    && (forall i :: i in seen.seen ==> start <= i < end)
    && Assembling(frames, session, r.pending, seen.seen)
    && Accounted(frames, session, outs, ids)
    && forall o :: 0 <= o < |ids| ==> Arrived(frames[ids[o]], seen.seen)
  }

  /** Within 2^31 counter values a frame sequence names one frame. */
  lemma FrameSequenceNamesFrame(frames: seq<SentFrame>, start: nat, end: nat, f: nat, g: nat)
    requires Sequential(frames, start, end) && end - start < RW.HALF && f < |frames| && g < |frames|
    requires frames[f].base % U32 == frames[g].base % U32
    ensures f == g
  {
  }

  /** A record accepted for the first time moves its frame on, or completes it. */
  lemma PushSent(
    frames: seq<SentFrame>, session: Session, start: nat, end: nat, s: State, seen: set<int>, f: nat, k: nat)
    requires Sequential(frames, start, end) && end - start < RW.HALF
    requires Valid(s) && Assembling(frames, session, s, seen)
    requires f < |frames| && k < frames[f].sent <= |frames[f].chunks| && frames[f].session == session
    requires frames[f].Index(k) !in seen
    ensures var p := Push(s, frames[f].Header(k), frames[f].chunks[k]);
            if p.frame.Some?
            then p.state.None? && p.frame.value == frames[f].payload && Arrived(frames[f], seen + {frames[f].Index(k)})
            else p.state.Some? && OfFrame(p.state.value, frames[f], seen + {frames[f].Index(k)})
  {
    var fr := frames[f];
    if |fr.chunks| == 1 {
      OneChunk(fr.chunks);
    } else {
      if s.Some? && s.value.frameSequence == fr.base % U32 {
        var g: nat :| g < |frames| && frames[g].session == session && OfFrame(s.value, frames[g], seen);
        FrameSequenceNamesFrame(frames, start, end, f, g);
        FillSlot(s.value, fr, seen, k);
      } else {
        FilledAll(Empty(|fr.chunks|));
        FillSlot(PendingFrame(fr.base % U32, |fr.chunks|, Empty(|fr.chunks|), 0), fr, seen, k);
      }
    }
  }

  lemma OneChunk(chunks: seq<seq<Byte>>)
    requires |chunks| == 1
    ensures Concat(chunks) == chunks[0]
  {
  }

  /** Filling the slot of a chunk whose record is new: the frame is whole or still partial. */
  lemma FillSlot(cur: PendingFrame, f: SentFrame, seen: set<int>, k: nat)
    requires f.Proper() && OfFrame(cur, f, seen) && k < f.sent && f.Index(k) !in seen
    requires cur.received == Filled(cur.fragments)
    ensures cur.fragments[k].None?
    ensures var next := cur.(fragments := cur.fragments[k := Some(f.chunks[k])], received := cur.received + 1);
            && OfFrame(next, f, seen + {f.Index(k)})
            && (next.received == next.fragCount ==>
                  Join(next.fragments) == f.payload && Arrived(f, seen + {f.Index(k)}))
            && next.received <= next.fragCount
  {
    var next := cur.fragments[k := Some(f.chunks[k])];
    FilledUpdate(cur.fragments, k, f.chunks[k]);
    FilledAll(next);
    if Filled(next) == |next| {
      JoinAll(next, f.chunks);
      assert next[|f.chunks| - 1].Some?;
      forall j: nat | j < |f.chunks|
        ensures f.Index(j) in seen + {f.Index(k)} && j < f.sent
      {
        assert next[j].Some?;
      }
    }
  }

  /** The window's part: a record that passes is one never accepted before. */
  lemma AcceptedIsNew(r: Receiver, seen: RW.Ideal, start: nat, end: nat, i: nat)
    requires RW.StandsFor(r.window, seen) && end - start < RW.HALF && start <= i < end
    requires forall j :: j in seen.seen ==> start <= j < end
    requires RW.Check(r.window, i % U32)
    ensures i !in seen.seen
    ensures RW.StandsFor(RW.Commit(r.window, i % U32), RW.Admit(seen, i))
    ensures RW.Admit(seen, i).seen == seen.seen + {i}
  {
    RW.CheckIsFresh(r.window, seen, i);
    RW.CommitIsAdmit(r.window, seen, i);
  }

  lemma SeenMore(frames: seq<SentFrame>, seen: set<int>, i: int, ids: seq<nat>)
    requires forall o :: 0 <= o < |ids| ==> ids[o] < |frames| && Arrived(frames[ids[o]], seen)
    ensures forall o :: 0 <= o < |ids| ==> Arrived(frames[ids[o]], seen + {i})
  {
  }

  /** A frame whose record `i` was not yet seen is not among those that came out. */
  lemma NotYetOut(frames: seq<SentFrame>, seen: set<int>, ids: seq<nat>, f: nat, k: nat)
    requires f < |frames| && k < |frames[f].chunks| && frames[f].Index(k) !in seen
    requires forall o :: 0 <= o < |ids| ==> ids[o] < |frames| && Arrived(frames[ids[o]], seen)
    ensures f !in ids
  {
  }

  lemma AccountedSnoc(
    frames: seq<SentFrame>, session: Session, outs: seq<seq<Byte>>, ids: seq<nat>, f: nat, payload: seq<Byte>)
    requires Accounted(frames, session, outs, ids) && f !in ids
    requires f < |frames| && frames[f].session == session && payload == frames[f].payload
    ensures Accounted(frames, session, outs + [payload], ids + [f])
  {
  }

  /** A record accepted for the first time. */
  lemma AcceptKeeps(
    frames: seq<SentFrame>, session: Session, start: nat, end: nat,
    r: Receiver, seen: RW.Ideal, outs: seq<seq<Byte>>, ids: seq<nat>, f: nat, k: nat)
    returns (ids': seq<nat>)
    requires Sequential(frames, start, end) && end - start < RW.HALF
    requires Consistent(frames, session, start, end, r, seen, outs, ids)
    requires f < |frames| && k < frames[f].sent <= |frames[f].chunks| && frames[f].session == session
    requires RW.Check(r.window, frames[f].Index(k) % U32)
    ensures var o := Receive(r, session, frames[f].Packet(k));
            Consistent(frames, session, start, end, o.receiver, RW.Admit(seen, frames[f].Index(k)), outs + o.frames, ids')
  {
    var fr := frames[f];
    var i := fr.Index(k);
    ids' := ids;
    PacketOpens(fr, k, r.window);
    AcceptedIsNew(r, seen, start, end, i);
    PushSent(frames, session, start, end, r.pending, seen.seen, f, k);
    ReceiveReady(r, session, fr.Packet(k));
    SeenMore(frames, seen.seen, i, ids);
    var p := Push(r.pending, fr.Header(k), fr.chunks[k]);
    if p.frame.Some? {
      NotYetOut(frames, seen.seen, ids, f, k);
      AccountedSnoc(frames, session, outs, ids, f, p.frame.value);
      ids' := ids + [f];
    } else {
      assert outs + [] == outs;
    }
  }

  /** One delivery keeps everything consistent, with at most one more frame accounted for. */
  lemma ReceiveKeeps(
    frames: seq<SentFrame>, session: Session, start: nat, end: nat,
    r: Receiver, seen: RW.Ideal, outs: seq<seq<Byte>>, ids: seq<nat>, d: Datagram)
    returns (seen': RW.Ideal, ids': seq<nat>)
    requires Sequential(frames, start, end) && end - start < RW.HALF
    requires Consistent(frames, session, start, end, r, seen, outs, ids) && Deliverable(frames, session, d)
    ensures var o := Receive(r, session, d);
            Consistent(frames, session, start, end, o.receiver, seen', outs + o.frames, ids')
  {
    var f, k := ReceivesOnlySent(frames, session, r, d);
    if Receive(r, session, d) == Received(r, []) {
      assert outs + [] == outs;
      seen', ids' := seen, ids;
    } else {
      ids' := AcceptKeeps(frames, session, start, end, r, seen, outs, ids, f, k);
      seen' := RW.Admit(seen, frames[f].Index(k));
    }
  }

  lemma FirstKeeps(
    frames: seq<SentFrame>, session: Session, start: nat, end: nat,
    r: Receiver, seen: RW.Ideal, outs: seq<seq<Byte>>, ids: seq<nat>, ds: seq<Datagram>)
    returns (r1: Receiver, out1: seq<seq<Byte>>, seen1: RW.Ideal, ids1: seq<nat>)
    requires Sequential(frames, start, end) && end - start < RW.HALF && ds != []
    requires Consistent(frames, session, start, end, r, seen, outs, ids) && Deliverable(frames, session, ds[0])
    ensures Consistent(frames, session, start, end, r1, seen1, out1, ids1)
    ensures outs + ReceiveAll(r, session, ds).frames == out1 + ReceiveAll(r1, session, ds[1..]).frames
  {
    var one := Receive(r, session, ds[0]);
    seen1, ids1 := ReceiveKeeps(frames, session, start, end, r, seen, outs, ids, ds[0]);
    r1, out1 := one.receiver, outs + one.frames;
    AppendAssoc(outs, one.frames, ReceiveAll(r1, session, ds[1..]).frames);
  }

  lemma {:induction false} ReceiveAllKeeps(
    frames: seq<SentFrame>, session: Session, start: nat, end: nat,
    r: Receiver, seen: RW.Ideal, outs: seq<seq<Byte>>, ids: seq<nat>, ds: seq<Datagram>)
    returns (ids': seq<nat>)
    requires Sequential(frames, start, end) && end - start < RW.HALF
    requires Consistent(frames, session, start, end, r, seen, outs, ids)
    requires forall d :: d in ds ==> Deliverable(frames, session, d)
    ensures Accounted(frames, session, outs + ReceiveAll(r, session, ds).frames, ids')
    decreases |ds|
  {
    if ds == [] {
      assert outs + [] == outs;
      ids' := ids;
    } else {
      var r1, out1, seen1, ids1 := FirstKeeps(frames, session, start, end, r, seen, outs, ids, ds);
      ids' := ReceiveAllKeeps(frames, session, start, end, r1, seen1, out1, ids1, ds[1..]);
    }
  }

  /**
   * Whatever the network loses, reorders, duplicates or forges, over fewer than 2^31
   * counter values: each frame that comes out is the exact payload of a frame sent under
   * the session, and no sent frame comes out twice.
   */
  lemma OnlySentFramesOnce(frames: seq<SentFrame>, start: nat, session: Session, ds: seq<Datagram>)
    requires Chained(frames, start) && End(frames, start) - start < RW.HALF
    requires forall d :: d in ds ==> Deliverable(frames, session, d)
    ensures exists ids :: Accounted(frames, session, ReceiveAll(NEW_RECEIVER, session, ds).frames, ids)
  {
    ChainedIsSequential(frames, start);
    var ids := ReceiveAllKeeps(frames, session, start, End(frames, start), NEW_RECEIVER, RW.NOTHING, [], [], ds);
    var out := ReceiveAll(NEW_RECEIVER, session, ds).frames;
    assert [] + out == out;
  }
}
