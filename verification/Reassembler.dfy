/** Putting the fragments of a frame back together. */
module Reassembler {
  import opened Common
  import opened Records

  datatype PendingFrame = PendingFrame(
    frameSequence: nat, fragCount: nat, fragments: seq<Option<seq<Byte>>>, received: nat)

  type State = Option<PendingFrame>

  datatype Pushed = Pushed(state: State, frame: Option<seq<Byte>>)

  /** The fragments present, one after the other. */
  function Join(fragments: seq<Option<seq<Byte>>>): seq<Byte> {
    if fragments == [] then []
    else (if fragments[0].Some? then fragments[0].value else []) + Join(fragments[1..])
  }

  function Filled(fragments: seq<Option<seq<Byte>>>): (n: nat)
    ensures n <= |fragments|
  {
    if fragments == [] then 0 else (if fragments[0].Some? then 1 else 0) + Filled(fragments[1..])
  }

  function Empty(n: nat): (f: seq<Option<seq<Byte>>>)
    ensures |f| == n && forall k :: 0 <= k < n ==> f[k].None?
  {
    seq(n, _ => None)
  }

  /** What the class keeps true: slots match the count, `received` counts the filled ones. */
  predicate Valid(s: State) {
    s.Some? ==>
      && |s.value.fragments| == s.value.fragCount
      && s.value.received == Filled(s.value.fragments) < s.value.fragCount
  }

  function Push(s: State, h: FrameHeader, payload: seq<Byte>): (r: Pushed)
    requires Valid(s)
  {
    if h.fragCount == 0 || h.fragIndex >= h.fragCount then Pushed(s, None)
    else if h.fragCount == 1 then Pushed(None, Some(payload))
    else if s.Some? && s.value.frameSequence == h.frameSequence && s.value.fragCount != h.fragCount then Pushed(s, None)
    else
      var cur := if s.Some? && s.value.frameSequence == h.frameSequence then s.value
                 else PendingFrame(h.frameSequence, h.fragCount, Empty(h.fragCount), 0);
      if cur.fragments[h.fragIndex].Some? then Pushed(Some(cur), None)
      else
        var next := cur.(fragments := cur.fragments[h.fragIndex := Some(payload)], received := cur.received + 1);
        if next.received < next.fragCount then Pushed(Some(next), None)
        else Pushed(None, Some(Join(next.fragments)))
  }

  lemma {:induction false} FilledUpdate(f: seq<Option<seq<Byte>>>, i: nat, x: seq<Byte>)
    requires i < |f| && f[i].None?
    ensures Filled(f[i := Some(x)]) == Filled(f) + 1
  {
    if i > 0 {
      FilledUpdate(f[1..], i - 1, x);
      assert f[i := Some(x)][1..] == f[1..][i - 1 := Some(x)];
    } else {
      assert f[i := Some(x)][1..] == f[1..];
    }
  }

  lemma {:induction false} FilledAll(f: seq<Option<seq<Byte>>>)
    ensures Filled(f) == |f| <==> forall k :: 0 <= k < |f| ==> f[k].Some?
    ensures Filled(f) == 0 <==> forall k :: 0 <= k < |f| ==> f[k].None?
  {
    if f != [] {
      FilledAll(f[1..]);
      forall k | 1 <= k < |f|
        ensures f[k] == f[1..][k - 1]
      {
      }
    }
  }

  /** A fragment that disagrees about the count is refused; a whole frame or another sequence drops the old one. */
  lemma OtherFrames(s: State, h: FrameHeader, payload: seq<Byte>)
    requires Valid(s) && s.Some? && h.fragIndex < h.fragCount
    ensures h.fragCount == 1 ==> Push(s, h, payload) == Pushed(None, Some(payload))
    ensures h.fragCount > 1 && h.frameSequence == s.value.frameSequence && h.fragCount != s.value.fragCount ==>
              Push(s, h, payload) == Pushed(s, None)
    ensures h.fragCount > 1 && h.frameSequence != s.value.frameSequence ==>
              Push(s, h, payload) == Push(None, h, payload)
  {
  }

  /** `received` always equals the number of filled slots. */
  lemma PushValid(s: State, h: FrameHeader, payload: seq<Byte>)
    requires Valid(s)
    ensures Valid(Push(s, h, payload).state)
  {
    if h.fragIndex < h.fragCount && h.fragCount > 1 {
      var cur := if s.Some? && s.value.frameSequence == h.frameSequence then s.value
                 else PendingFrame(h.frameSequence, h.fragCount, Empty(h.fragCount), 0);
      FilledAll(Empty(h.fragCount));
      if |cur.fragments| == h.fragCount && cur.fragments[h.fragIndex].None? {
        FilledUpdate(cur.fragments, h.fragIndex, payload);
      }
    }
  }

  /** The loop over the fragments of a whole frame. */
  method JoinFragments(fragments: seq<Option<seq<Byte>>>) returns (whole: seq<Byte>)
    ensures whole == Join(fragments)
  {
    whole := [];
    for i := 0 to |fragments|
      invariant whole + Join(fragments[i..]) == Join(fragments)
    {
      JoinFrom(fragments, i, whole);
      if fragments[i].Some? {
        whole := whole + fragments[i].value;
      }
    }
    assert whole + [] == whole;
  }

  lemma JoinFrom(fragments: seq<Option<seq<Byte>>>, i: nat, whole: seq<Byte>)
    requires i < |fragments|
    ensures whole + Join(fragments[i..]) ==
            (if fragments[i].Some? then whole + fragments[i].value else whole) + Join(fragments[i + 1..])
  {
    assert fragments[i..][1..] == fragments[i + 1..];
    if fragments[i].Some? {
      AppendAssoc(whole, fragments[i].value, Join(fragments[i + 1..]));
    }
  }

  class Reassembler {
    var current: State

    constructor ()
      ensures current == None
    {
      current := None;
    }

    method PushRecord(h: FrameHeader, payload: seq<Byte>) returns (frame: Option<seq<Byte>>)
      requires Valid(current)
      modifies this
      ensures Valid(current)
      ensures Push(old(current), h, payload) == Pushed(current, frame)
    {
      PushValid(current, h, payload);
      if h.fragCount == 0 || h.fragIndex >= h.fragCount {
        return None;
      }
      if h.fragCount == 1 {
        current := None;
        return Some(payload);
      }
      if current.Some? && current.value.frameSequence == h.frameSequence && current.value.fragCount != h.fragCount {
        return None;
      }
      if current.None? || current.value.frameSequence != h.frameSequence {
        current := Some(PendingFrame(h.frameSequence, h.fragCount, Empty(h.fragCount), 0));
      }
      var cur := current.value;
      if cur.fragments[h.fragIndex].Some? {
        return None;
      }
      cur := cur.(fragments := cur.fragments[h.fragIndex := Some(payload)], received := cur.received + 1);
      current := Some(cur);
      if cur.received < cur.fragCount {
        return None;
      }
      current := None;
      var whole := JoinFragments(cur.fragments);
      frame := Some(whole);
    }
  }

  // ----- Any order, any repeats -----

  /** Slots filled for exactly the indices in `got`, each with its own chunk. */
  predicate Holds(f: seq<Option<seq<Byte>>>, chunks: seq<seq<Byte>>, got: set<nat>) {
    |f| == |chunks| && forall k :: 0 <= k < |f| ==> f[k] == if k in got then Some(chunks[k]) else None
  }

  lemma {:induction false} JoinAll(f: seq<Option<seq<Byte>>>, chunks: seq<seq<Byte>>)
    requires |f| == |chunks| && forall k :: 0 <= k < |f| ==> f[k] == Some(chunks[k])
    ensures Join(f) == Concat(chunks)
  {
    if f != [] {
      JoinAll(f[1..], chunks[1..]);
    }
  }

  /** The pending frame of a partly received frame; nothing before the first fragment. */
  predicate Partial(s: State, frameSequence: nat, chunks: seq<seq<Byte>>, got: set<nat>) {
    if got == {} then s.None? || s.value.frameSequence != frameSequence
    else
      && s.Some? && s.value.frameSequence == frameSequence && s.value.fragCount == |chunks|
      && Holds(s.value.fragments, chunks, got)
  }

  predicate Complete(chunks: seq<seq<Byte>>, got: set<nat>) {
    forall k: nat :: k < |chunks| ==> k in got
  }

  predicate HeaderOf(h: FrameHeader, frameSequence: nat, chunks: seq<seq<Byte>>, k: nat) {
    h.frameSequence == frameSequence && h.fragCount == |chunks| && h.fragIndex == k < |chunks|
  }

  /** One more fragment of a frame of two or more. */
  lemma PushFragment(s: State, h: FrameHeader, frameSequence: nat, chunks: seq<seq<Byte>>, got: set<nat>, k: nat)
    requires Valid(s) && |chunks| >= 2 && Partial(s, frameSequence, chunks, got) && !Complete(chunks, got)
    requires HeaderOf(h, frameSequence, chunks, k)
    ensures var r := Push(s, h, chunks[k]);
            if Complete(chunks, got + {k}) then r == Pushed(None, Some(Concat(chunks)))
            else r.frame.None? && Partial(r.state, frameSequence, chunks, got + {k})
  {
    var cur := if got == {} then PendingFrame(frameSequence, |chunks|, Empty(|chunks|), 0) else s.value;
    FilledAll(Empty(|chunks|));
    assert Holds(cur.fragments, chunks, got);
    if k in got {
      assert got + {k} == got;
    } else {
      var next := cur.fragments[k := Some(chunks[k])];
      FilledUpdate(cur.fragments, k, chunks[k]);
      assert Holds(next, chunks, got + {k});
      FilledAll(next);
      assert Complete(chunks, got + {k}) <==> Filled(next) == |next| by { CompleteIsFull(next, chunks, got + {k}); }
      if Complete(chunks, got + {k}) {
        JoinAll(next, chunks);
      }
    }
  }

  lemma CompleteIsFull(f: seq<Option<seq<Byte>>>, chunks: seq<seq<Byte>>, got: set<nat>)
    requires Holds(f, chunks, got)
    ensures Complete(chunks, got) <==> forall k :: 0 <= k < |f| ==> f[k].Some?
  {
  }

  /** Headers of fragments of one frame; sequence, timestamp and flags are free. */
  predicate AllOf(headers: seq<FrameHeader>, frameSequence: nat, chunks: seq<seq<Byte>>) {
    forall h :: h in headers ==> HeaderOf(h, frameSequence, chunks, h.fragIndex)
  }

  /** What comes out when those fragments are pushed in that order. */
  function PushAll(s: State, headers: seq<FrameHeader>, frameSequence: nat, chunks: seq<seq<Byte>>)
    : (r: seq<Option<seq<Byte>>>)
    requires Valid(s) && AllOf(headers, frameSequence, chunks)
    decreases |headers|
  {
    if headers == [] then []
    else
      assert headers[0] in headers;
      var p := Push(s, headers[0], chunks[headers[0].fragIndex]);
      PushValid(s, headers[0], chunks[headers[0].fragIndex]);
      [p.frame] + PushAll(p.state, headers[1..], frameSequence, chunks)
  }

  function Indices(headers: seq<FrameHeader>): set<nat> {
    set h | h in headers :: h.fragIndex
  }

  function Nones(n: nat): seq<Option<seq<Byte>>> {
    if n == 0 then [] else [None] + Nones(n - 1)
  }

  /**
   * Fragments of a frame of two or more chunks in any order with any repeats: nothing
   * comes out until the last missing index arrives, and then exactly the payload.
   */
  lemma {:induction false} AnyOrder(
    s: State, frameSequence: nat, chunks: seq<seq<Byte>>, got: set<nat>, headers: seq<FrameHeader>, last: FrameHeader,
    all: set<nat>)
    requires Valid(s) && |chunks| >= 2 && Partial(s, frameSequence, chunks, got)
    requires AllOf(headers + [last], frameSequence, chunks) && all == got + Indices(headers)
    requires !Complete(chunks, all) && Complete(chunks, all + {last.fragIndex})
    ensures PushAll(s, headers + [last], frameSequence, chunks) == Nones(|headers|) + [Some(Concat(chunks))]
    decreases |headers|
  {
    if headers == [] {
      assert all == got && [last] + [] == [last] && headers + [last] == [last];
      PushFirst(s, last, [], frameSequence, chunks, got);
    } else {
      var first, rest := headers[0], headers[1..];
      FirstOff(headers, last, got);
      Fewer(chunks, got, all);
      Fewer(chunks, got + {first.fragIndex}, all);
      PushFirst(s, first, rest + [last], frameSequence, chunks, got);
      AnyOrder(
        Push(s, first, chunks[first.fragIndex]).state, frameSequence, chunks, got + {first.fragIndex}, rest, last, all);
      NonesCons(|rest|, [Some(Concat(chunks))]);
    }
  }

  lemma NonesCons(n: nat, rest: seq<Option<seq<Byte>>>)
    ensures [None] + (Nones(n) + rest) == Nones(n + 1) + rest
  {
  }

  lemma FirstOff(headers: seq<FrameHeader>, last: FrameHeader, got: set<nat>)
    requires headers != []
    ensures headers + [last] == [headers[0]] + (headers[1..] + [last])
    ensures got + Indices(headers) == (got + {headers[0].fragIndex}) + Indices(headers[1..])
  {
    assert headers == [headers[0]] + headers[1..];
    IndicesCons(headers[0], headers[1..]);
  }

  lemma IndicesCons(first: FrameHeader, rest: seq<FrameHeader>)
    ensures Indices([first] + rest) == {first.fragIndex} + Indices(rest)
  {
  }

  lemma PushFirst(
    s: State, first: FrameHeader, rest: seq<FrameHeader>, frameSequence: nat, chunks: seq<seq<Byte>>, got: set<nat>)
    requires Valid(s) && |chunks| >= 2 && Partial(s, frameSequence, chunks, got) && !Complete(chunks, got)
    requires AllOf([first] + rest, frameSequence, chunks)
    ensures HeaderOf(first, frameSequence, chunks, first.fragIndex) && AllOf(rest, frameSequence, chunks)
    ensures var p := Push(s, first, chunks[first.fragIndex]);
            && Valid(p.state)
            && PushAll(s, [first] + rest, frameSequence, chunks) == [p.frame] + PushAll(p.state, rest, frameSequence, chunks)
            && if Complete(chunks, got + {first.fragIndex}) then p == Pushed(None, Some(Concat(chunks)))
               else p.frame.None? && Partial(p.state, frameSequence, chunks, got + {first.fragIndex})
  {
    var all := [first] + rest;
    assert all[0] in all && all[1..] == rest;
    PushFragment(s, first, frameSequence, chunks, got, first.fragIndex);
    PushValid(s, first, chunks[first.fragIndex]);
  }

  lemma Fewer(chunks: seq<seq<Byte>>, got: set<nat>, more: set<nat>)
    requires got <= more && !Complete(chunks, more)
    ensures !Complete(chunks, got)
  {
  }

  /** From a fresh reassembler, for every payload that needs two or more records. */
  lemma PayloadInAnyOrder(payload: seq<Byte>, frameSequence: nat, headers: seq<FrameHeader>, last: FrameHeader)
    requires |PayloadChunks(payload)| >= 2 && AllOf(headers + [last], frameSequence, PayloadChunks(payload))
    requires !Complete(PayloadChunks(payload), Indices(headers))
    requires Complete(PayloadChunks(payload), Indices(headers) + {last.fragIndex})
    ensures PushAll(None, headers + [last], frameSequence, PayloadChunks(payload)) == Nones(|headers|) + [Some(payload)]
  {
    assert {} + Indices(headers) == Indices(headers);
    AnyOrder(None, frameSequence, PayloadChunks(payload), {}, headers, last, Indices(headers));
  }
}
