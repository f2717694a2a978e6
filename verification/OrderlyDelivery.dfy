/**
 * When nothing is lost and fragments overtake each other by fewer than 64 places inside
 * their frame, the device gets exactly the frames sent, in order, whatever is duplicated
 * or injected on the way.
 */
module OrderlyDelivery {
  import opened Common
  import opened BigEndian
  import opened Crypto
  import opened Records
  import opened Packets
  import opened Reassembler
  import opened EndToEnd
  import RW = ReplayWindow

  /**
   * A delivery: the box of fragment `k` of frame `f` behind any clear bytes, or something
   * not sealed under the session.
   */
  datatype Delivery = Boxed(f: nat, k: nat, clear: seq<Byte>) | Foreign(d: Datagram)

  function Wire(frames: seq<SentFrame>, e: Delivery): Datagram
    requires e.Boxed? ==> e.f < |frames| && e.k < |frames[e.f].chunks|
  {
    match e
    case Boxed(f, k, clear) => Datagram(clear, frames[f].Packet(k).box)
    case Foreign(d) => d
  }

  predicate Mine(frames: seq<SentFrame>, session: Session, f: nat) {
    f < |frames| && frames[f].session == session
  }

  /** Delivered while frame `n` is the latest: boxes of old or present fragments, or foreign ones. */
  predicate Possible(frames: seq<SentFrame>, session: Session, n: nat, e: Delivery) {
    match e
    case Boxed(f, k, _) => f <= n && Mine(frames, session, f) && k < |frames[f].chunks|
    case Foreign(d) => !(d.box.Sealed? && d.box.session == session && d.box.direction == HostToDevice)
  }

  predicate AllPossible(frames: seq<SentFrame>, session: Session, n: nat, batch: seq<Delivery>) {
    forall e :: e in batch ==> Possible(frames, session, n, e)
  }

  function WireAll(frames: seq<SentFrame>, session: Session, n: nat, batch: seq<Delivery>): (ds: seq<Datagram>)
    requires AllPossible(frames, session, n, batch)
    ensures |ds| == |batch|
  {
    if batch == [] then []
    else
      var m := |batch| - 1;
      assert batch[m] in batch;
      WireAll(frames, session, n, batch[..m]) + [Wire(frames, batch[m])]
  }

  /** The clear bytes are those of a data packet with this sequence number. */
  predicate Names(clear: seq<Byte>, sequence: nat) {
    |clear| >= 5 && clear[0] == DATA && FromBe(clear[1..5]) == sequence
  }

  /** A fragment of frame `n` behind its own number. */
  predicate Arrives(frames: seq<SentFrame>, e: Delivery, n: nat) {
    e.Boxed? && e.f == n < |frames| && Names(e.clear, frames[n].Index(e.k) % U32)
  }

  /** Fragments of frame `n` among the deliveries. */
  function Got(frames: seq<SentFrame>, batch: seq<Delivery>, n: nat): set<nat> {
    set e | e in batch && Arrives(frames, e, n) :: e.k
  }

  /** A fragment that arrives for the first time is at most 63 places behind any before it. */
  predicate OnTime(frames: seq<SentFrame>, before: seq<Delivery>, e: Delivery, n: nat) {
    Arrives(frames, e, n) && e.k !in Got(frames, before, n) ==>
      forall j: nat :: j in Got(frames, before, n) ==> j - e.k < 64
  }

  predicate Prompt(frames: seq<SentFrame>, batch: seq<Delivery>, n: nat) {
    batch == [] ||
    var init := batch[..|batch| - 1];
    Prompt(frames, init, n) && OnTime(frames, init, batch[|batch| - 1], n)
  }

  /** The indices seen are those of earlier frames and of the fragments got of frame `n`. */
  ghost predicate Exactly(frames: seq<SentFrame>, session: Session, n: nat, got: set<nat>, seen: set<int>)
    requires n < |frames|
  {
    && (forall f: nat, k: nat :: f < n && Mine(frames, session, f) && k < |frames[f].chunks| ==> frames[f].Index(k) in seen)
    && (forall k: nat :: k in got ==> frames[n].Index(k) in seen)
    && (forall i :: i in seen ==> i < frames[n].base || exists k: nat :: k in got && i == frames[n].Index(k))
  }

  /** The reassembler between the first and the last fragment, and empty otherwise. */
  predicate Waiting(s: State, f: SentFrame, got: set<nat>) {
    if got == {} || Complete(f.chunks, got) then s.None?
    else Partial(s, f.base % U32, f.chunks, got)
  }

  ghost predicate Progress(
    frames: seq<SentFrame>, session: Session, start: nat, end: nat, n: nat, got: set<nat>, r: Receiver, seen: RW.Ideal)
    requires n < |frames|
  {
    && Ready(r)
    && RW.StandsFor(r.window, seen)
    && (forall i :: i in seen.seen ==> start <= i < end)
    && Exactly(frames, session, n, got, seen.seen)
    && Waiting(r.pending, frames[n], got)
    && (forall k: nat :: k in got ==> k < |frames[n].chunks|)
    && (got != {} ==> frames[n].session == session)
  }

  ghost predicate Setting(frames: seq<SentFrame>, session: Session, start: nat, end: nat) {
    && Sequential(frames, start, end) && end - start < RW.HALF
    && forall f: nat :: Mine(frames, session, f) ==> frames[f].sent == |frames[f].chunks|
  }

  /** Foreign boxes do nothing. */
  lemma ForeignIgnored(r: Receiver, session: Session, d: Datagram)
    requires Ready(r)
    requires !(d.box.Sealed? && d.box.session == session && d.box.direction == HostToDevice)
    ensures Receive(r, session, d) == Received(r, [])
  {
  }

  /** Nor does a box behind clear bytes that are not its own. */
  lemma MislabelledIgnored(r: Receiver, f: SentFrame, k: nat, clear: seq<Byte>)
    requires Ready(r) && k < |f.chunks| && !Names(clear, f.Index(k) % U32)
    ensures Receive(r, f.session, Datagram(clear, f.Packet(k).box)) == Received(r, [])
  {
    if |clear| >= 5 {
      Widths();
      OpensUnder(f, k, FromBe(clear[1..5]));
    }
  }

  /** Behind its own number a box does what its packet does. */
  lemma LabelledReceived(r: Receiver, f: SentFrame, k: nat, clear: seq<Byte>)
    requires Ready(r) && f.Proper() && k < |f.chunks| && Names(clear, f.Index(k) % U32)
    ensures Receive(r, f.session, Datagram(clear, f.Packet(k).box)) == Receive(r, f.session, f.Packet(k))
  {
    SameOpening(f, k, r.window, Datagram(clear, f.Packet(k).box));
  }

  /** Neither does a fragment accepted before. */
  lemma RepeatIgnored(
    frames: seq<SentFrame>, session: Session, start: nat, end: nat, r: Receiver, seen: RW.Ideal, f: nat, k: nat)
    requires Sequential(frames, start, end) && end - start < RW.HALF
    requires Ready(r) && RW.StandsFor(r.window, seen) && (forall i :: i in seen.seen ==> start <= i < end)
    requires Mine(frames, session, f) && k < |frames[f].chunks| && frames[f].Index(k) in seen.seen
    ensures Receive(r, session, frames[f].Packet(k)) == Received(r, [])
  {
    var i := frames[f].Index(k);
    RW.CheckIsFresh(r.window, seen, i);
    PacketOpens(frames[f], k, r.window);
  }

  lemma NotYetSeen(frames: seq<SentFrame>, session: Session, n: nat, got: set<nat>, seen: set<int>, k: nat)
    requires n < |frames| && Exactly(frames, session, n, got, seen) && k !in got
    ensures frames[n].Index(k) !in seen
  {
  }

  /** A new fragment of the present frame passes the window. */
  lemma NewFragmentAccepted(
    frames: seq<SentFrame>, session: Session, start: nat, end: nat, n: nat, got: set<nat>,
    r: Receiver, seen: RW.Ideal, k: nat)
    requires Setting(frames, session, start, end) && n < |frames|
    requires Progress(frames, session, start, end, n, got, r, seen)
    requires Mine(frames, session, n) && k < |frames[n].chunks| && k !in got
    requires forall j: nat :: j in got ==> j - k < RW.WIDTH
    ensures start <= frames[n].Index(k) < end
    ensures RW.Check(r.window, frames[n].Index(k) % U32)
    ensures frames[n].Index(k) !in seen.seen
  {
    var i := frames[n].Index(k);
    assert frames[n].sent == |frames[n].chunks|;
    NotYetSeen(frames, session, n, got, seen.seen, k);
    if seen.top.Some? && seen.top.value >= frames[n].base {
      var j: nat :| j in got && seen.top.value == frames[n].Index(j);
    }
    RW.CheckIsFresh(r.window, seen, i);
  }

  lemma SeenAfter(frames: seq<SentFrame>, session: Session, n: nat, got: set<nat>, seen: set<int>, k: nat)
    requires n < |frames| && Exactly(frames, session, n, got, seen)
    ensures Exactly(frames, session, n, got + {k}, seen + {frames[n].Index(k)})
  {
  }

  /** What the reassembler does with it. */
  lemma NewFragmentPushed(s: State, f: SentFrame, got: set<nat>, k: nat)
    requires Valid(s) && f.Proper() && Waiting(s, f, got) && k < |f.chunks| && k !in got
    ensures var p := Push(s, f.Header(k), f.chunks[k]);
            && Waiting(p.state, f, got + {k})
            && p.frame == if Complete(f.chunks, got + {k}) then Some(f.payload) else None
  {
    if |f.chunks| == 1 {
      OneChunk(f.chunks);
      assert Complete(f.chunks, got + {k});
    } else {
      assert !Complete(f.chunks, got);
      PushFragment(s, f.Header(k), f.base % U32, f.chunks, got, k);
    }
  }

  function Emitted(frames: seq<SentFrame>, session: Session, n: nat, got: set<nat>): seq<seq<Byte>>
    requires n < |frames|
  {
    if Mine(frames, session, n) && Complete(frames[n].chunks, got) then [frames[n].payload] else []
  }

  /** One delivery within the batch of frame `n`. */
  lemma DeliverKeeps(
    frames: seq<SentFrame>, session: Session, start: nat, end: nat, n: nat, got: set<nat>,
    r: Receiver, seen: RW.Ideal, k: nat)
    returns (seen': RW.Ideal)
    requires Setting(frames, session, start, end) && n < |frames|
    requires Progress(frames, session, start, end, n, got, r, seen)
    requires Mine(frames, session, n) && k < |frames[n].chunks| && k !in got
    requires forall j: nat :: j in got ==> j - k < RW.WIDTH
    ensures var o := Receive(r, session, frames[n].Packet(k));
            && Progress(frames, session, start, end, n, got + {k}, o.receiver, seen')
            && Emitted(frames, session, n, got) + o.frames == Emitted(frames, session, n, got + {k})
  {
    var i := frames[n].Index(k);
    NewFragmentAccepted(frames, session, start, end, n, got, r, seen, k);
    AcceptedIsNew(r, seen, start, end, i);
    PacketOpens(frames[n], k, r.window);
    NewFragmentPushed(r.pending, frames[n], got, k);
    ReceiveReady(r, session, frames[n].Packet(k));
    SeenAfter(frames, session, n, got, seen.seen, k);
    seen' := RW.Admit(seen, i);
  }

  lemma GotSnoc(frames: seq<SentFrame>, batch: seq<Delivery>, e: Delivery, n: nat)
    ensures Got(frames, batch + [e], n) == Got(frames, batch, n) + if Arrives(frames, e, n) then {e.k} else {}
  {
  }

  /** A delivery that brings no new fragment of frame `n` does nothing. */
  lemma NothingNew(
    frames: seq<SentFrame>, session: Session, start: nat, end: nat, n: nat, got: set<nat>,
    r: Receiver, seen: RW.Ideal, e: Delivery)
    requires Setting(frames, session, start, end) && n < |frames|
    requires Progress(frames, session, start, end, n, got, r, seen) && Possible(frames, session, n, e)
    requires Arrives(frames, e, n) ==> e.k in got
    ensures Receive(r, session, Wire(frames, e)) == Received(r, [])
  {
    match e
    case Foreign(d) => ForeignIgnored(r, session, d);
    case Boxed(f, k, clear) =>
      if Names(clear, frames[f].Index(k) % U32) {
        RepeatIgnored(frames, session, start, end, r, seen, f, k);
        LabelledReceived(r, frames[f], k, clear);
      } else {
        MislabelledIgnored(r, frames[f], k, clear);
      }
  }

  /** Any delivery of the batch: new, repeated, mislabelled or foreign. */
  lemma StepKeeps(
    frames: seq<SentFrame>, session: Session, start: nat, end: nat, n: nat, got: set<nat>,
    r: Receiver, seen: RW.Ideal, e: Delivery)
    returns (seen': RW.Ideal)
    requires Setting(frames, session, start, end) && n < |frames|
    requires Progress(frames, session, start, end, n, got, r, seen) && Possible(frames, session, n, e)
    requires Arrives(frames, e, n) && e.k !in got ==> forall j: nat :: j in got ==> j - e.k < RW.WIDTH
    ensures var o := Receive(r, session, Wire(frames, e));
            var got' := got + if Arrives(frames, e, n) then {e.k} else {};
            && Progress(frames, session, start, end, n, got', o.receiver, seen')
            && Emitted(frames, session, n, got) + o.frames == Emitted(frames, session, n, got')
  {
    if Arrives(frames, e, n) && e.k !in got {
      seen' := DeliverKeeps(frames, session, start, end, n, got, r, seen, e.k);
      LabelledReceived(r, frames[n], e.k, e.clear);
    } else {
      seen' := seen;
      NothingNew(frames, session, start, end, n, got, r, seen, e);
      assert got + (if Arrives(frames, e, n) then {e.k} else {}) == got;
    }
  }

  lemma ReceiveSnoc(r: Receiver, session: Session, ds: seq<Datagram>, d: Datagram)
    requires Ready(r)
    ensures var a := ReceiveAll(r, session, ds);
            && Ready(a.receiver)
            && ReceiveAll(r, session, ds + [d]) ==
               Received(Receive(a.receiver, session, d).receiver, a.frames + Receive(a.receiver, session, d).frames)
  {
    ReceiveAllAppend(r, session, ds, [d]);
    var a := ReceiveAll(r, session, ds);
    var o := Receive(a.receiver, session, d);
    ReceiveReady(a.receiver, session, d);
    assert [d][1..] == [];
    assert o.frames + [] == o.frames;
  }

  lemma NoneYet(frames: seq<SentFrame>, session: Session, n: nat)
    requires n < |frames| && frames[n].Proper()
    ensures Emitted(frames, session, n, {}) == []
  {
    var none: set<nat> := {};
    assert 0 !in none;
  }

  /** The whole batch of frame `n`. */
  lemma {:induction false} BatchKeeps(
    frames: seq<SentFrame>, session: Session, start: nat, end: nat, n: nat, r: Receiver, seen: RW.Ideal, batch: seq<Delivery>)
    returns (seen': RW.Ideal)
    requires Setting(frames, session, start, end) && n < |frames|
    requires Progress(frames, session, start, end, n, {}, r, seen)
    requires AllPossible(frames, session, n, batch) && Prompt(frames, batch, n)
    ensures var o := ReceiveAll(r, session, WireAll(frames, session, n, batch));
            && Progress(frames, session, start, end, n, Got(frames, batch, n), o.receiver, seen')
            && o.frames == Emitted(frames, session, n, Got(frames, batch, n))
    decreases |batch|
  {
    if batch == [] {
      assert Got(frames, batch, n) == {};
      NoneYet(frames, session, n);
      seen' := seen;
    } else {
      var m := |batch| - 1;
      var init, e := batch[..m], batch[m];
      assert e in batch;
      var seen1 := BatchKeeps(frames, session, start, end, n, r, seen, init);
      assert batch == init + [e];
      GotSnoc(frames, init, e, n);
      var ds := WireAll(frames, session, n, init);
      ReceiveSnoc(r, session, ds, Wire(frames, e));
      seen' := StepKeeps(frames, session, start, end, n, Got(frames, init, n), ReceiveAll(r, session, ds).receiver, seen1, e);
    }
  }

  // ----- All frames -----

  /** One batch per frame sent; a frame of this session arrives whole within its batch. */
  predicate Orderly(frames: seq<SentFrame>, session: Session, batches: seq<seq<Delivery>>) {
    && |batches| == |frames|
    && forall n :: 0 <= n < |batches| ==>
         && AllPossible(frames, session, n, batches[n])
         && Prompt(frames, batches[n], n)
         && (frames[n].session == session ==> Complete(frames[n].chunks, Got(frames, batches[n], n)))
  }

  /** Everything delivered up to and including the batch of frame `n - 1`. */
  function Stream(frames: seq<SentFrame>, session: Session, batches: seq<seq<Delivery>>, n: nat): seq<Datagram>
    requires Orderly(frames, session, batches) && n <= |frames|
  {
    if n == 0 then []
    else Stream(frames, session, batches, n - 1) + WireAll(frames, session, n - 1, batches[n - 1])
  }

  /** The payloads sent under the session among the first `n` frames. */
  function Payloads(frames: seq<SentFrame>, session: Session, n: nat): seq<seq<Byte>>
    requires n <= |frames|
  {
    if n == 0 then []
    else Payloads(frames, session, n - 1) + if frames[n - 1].session == session then [frames[n - 1].payload] else []
  }

  /** A finished frame leaves the receiver ready for the next. */
  lemma NextFrame(
    frames: seq<SentFrame>, session: Session, start: nat, end: nat, n: nat, got: set<nat>, r: Receiver, seen: RW.Ideal)
    requires Setting(frames, session, start, end) && n + 1 < |frames|
    requires Progress(frames, session, start, end, n, got, r, seen)
    requires frames[n].session == session ==> Complete(frames[n].chunks, got)
    ensures Progress(frames, session, start, end, n + 1, {}, r, seen)
  {
    var next := frames[n + 1].base;
    assert frames[n].base + frames[n].Used() <= next;
    forall i | i in seen.seen
      ensures i < next
    {
      if i >= frames[n].base {
        var k: nat :| k in got && i == frames[n].Index(k);
        assert Mine(frames, session, n);
      }
    }
    forall f: nat, k: nat | f < n + 1 && Mine(frames, session, f) && k < |frames[f].chunks|
      ensures frames[f].Index(k) in seen.seen
    {
      if f == n {
        assert k in got;
      }
    }
  }

  /** After the batches of the first `m` frames, and `got` of frame `n`. */
  ghost predicate Reached(
    frames: seq<SentFrame>, session: Session, start: nat, end: nat, batches: seq<seq<Delivery>>,
    m: nat, n: nat, got: set<nat>, seen: RW.Ideal)
    requires Orderly(frames, session, batches) && m <= |frames| && n < |frames|
  {
    var o := ReceiveAll(NEW_RECEIVER, session, Stream(frames, session, batches, m));
    && o.frames == Payloads(frames, session, m)
    && Progress(frames, session, start, end, n, got, o.receiver, seen)
  }

  lemma BatchAfter(
    frames: seq<SentFrame>, session: Session, start: nat, end: nat, batches: seq<seq<Delivery>>, n: nat, seen0: RW.Ideal)
    returns (seen: RW.Ideal)
    requires Setting(frames, session, start, end) && Orderly(frames, session, batches) && n < |frames|
    requires Reached(frames, session, start, end, batches, n, n, {}, seen0)
    ensures Reached(frames, session, start, end, batches, n + 1, n, Got(frames, batches[n], n), seen)
  {
    var before := Stream(frames, session, batches, n);
    var a := ReceiveAll(NEW_RECEIVER, session, before);
    ReceiveAllAppend(NEW_RECEIVER, session, before, WireAll(frames, session, n, batches[n]));
    seen := BatchKeeps(frames, session, start, end, n, a.receiver, seen0, batches[n]);
  }

  lemma ReadyForNext(
    frames: seq<SentFrame>, session: Session, start: nat, end: nat, batches: seq<seq<Delivery>>, n: nat, seen: RW.Ideal)
    requires Setting(frames, session, start, end) && Orderly(frames, session, batches) && n + 1 < |frames|
    requires Reached(frames, session, start, end, batches, n + 1, n, Got(frames, batches[n], n), seen)
    ensures Reached(frames, session, start, end, batches, n + 1, n + 1, {}, seen)
  {
    var o := ReceiveAll(NEW_RECEIVER, session, Stream(frames, session, batches, n + 1));
    NextFrame(frames, session, start, end, n, Got(frames, batches[n], n), o.receiver, seen);
  }

  lemma NextBatch(
    frames: seq<SentFrame>, session: Session, start: nat, end: nat, batches: seq<seq<Delivery>>, n: nat, m: nat,
    seen0: RW.Ideal)
    returns (seen: RW.Ideal)
    requires Setting(frames, session, start, end) && Orderly(frames, session, batches) && m == n + 1 < |frames|
    requires Reached(frames, session, start, end, batches, n, n, {}, seen0)
    ensures Reached(frames, session, start, end, batches, m, m, {}, seen)
  {
    seen := BatchAfter(frames, session, start, end, batches, n, seen0);
    ReadyForNext(frames, session, start, end, batches, n, seen);
  }

  lemma AtTheStart(frames: seq<SentFrame>, session: Session, start: nat, end: nat, batches: seq<seq<Delivery>>)
    requires Orderly(frames, session, batches) && 0 < |frames|
    ensures Reached(frames, session, start, end, batches, 0, 0, {}, RW.NOTHING)
  {
  }

  lemma {:induction false} StreamKeeps(
    frames: seq<SentFrame>, session: Session, start: nat, end: nat, batches: seq<seq<Delivery>>, n: nat)
    returns (seen: RW.Ideal)
    requires Setting(frames, session, start, end) && Orderly(frames, session, batches) && n < |frames|
    ensures Reached(frames, session, start, end, batches, n, n, {}, seen)
    decreases n
  {
    if n == 0 {
      AtTheStart(frames, session, start, end, batches);
      seen := RW.NOTHING;
    } else {
      var seen0 := StreamKeeps(frames, session, start, end, batches, n - 1);
      seen := NextBatch(frames, session, start, end, batches, n - 1, n, seen0);
    }
  }

  /**
   * Nothing lost, fragments reordered only within their frame and by fewer than 64
   * places, any duplicates and foreign packets besides: exactly the frames sent, in order.
   */
  lemma ExactlyTheFramesSent(frames: seq<SentFrame>, start: nat, session: Session, batches: seq<seq<Delivery>>)
    requires Chained(frames, start) && End(frames, start) - start < RW.HALF
    requires forall f :: 0 <= f < |frames| && frames[f].session == session ==> frames[f].sent == |frames[f].chunks|
    requires Orderly(frames, session, batches)
    ensures ReceiveAll(NEW_RECEIVER, session, Stream(frames, session, batches, |frames|)).frames
            == Payloads(frames, session, |frames|)
  {
    if frames != [] {
      var end := End(frames, start);
      ChainedIsSequential(frames, start);
      var n := |frames| - 1;
      var seen0 := StreamKeeps(frames, session, start, end, batches, n);
      var seen := BatchAfter(frames, session, start, end, batches, n, seen0);
    }
  }
}
