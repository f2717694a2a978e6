/** Whole runs of the pairing store: minting, redeeming, revoking and reloading. */
module PairingRuns {
  import opened Common
  import opened Pairing

  /** The record in memory and the one in the file. */
  datatype Store = Store(db: Db, disk: Db)

  datatype Event =
    | Minted(code: string, salt: nat, now: nat, works: bool)
    | Tried(request: Request, id: string, now: nat, works: bool)
    | Withdrawn(id: string, now: nat, works: bool)
    | Reloaded

  predicate Writes(db: Db, ev: Event) {
    match ev
    case Minted(_, _, _, works) => works
    case Tried(r, _, now, works) => works && Judge(db, r, now) != Rejected && Judge(db, r, now) != Missing
    case Withdrawn(id, _, works) => works && Active(db, id)
    case Reloaded => false
  }

  function Step(s: Store, ev: Event): Store {
    var db := match ev
              case Minted(code, salt, now, _) => Mint(s.db, code, salt, now)
              case Tried(r, id, now, _) => Redeem(s.db, r, id, now)
              case Withdrawn(id, now, _) => Revoke(s.db, id, now)
              case Reloaded => s.disk;
    Store(db, if Writes(s.db, ev) then db else s.disk)
  }

  function After(events: seq<Event>): Store {
    if events == [] then Store(EMPTY, EMPTY) else Step(After(events[..|events| - 1]), events[|events| - 1])
  }

  // ----- What happened -----

  datatype Note =
    | Mints(code: string, salt: nat, expiresAt: nat)
    | WrongGuess
    | Registers(id: string, code: string, now: nat)
    | Lapses
    | Revokes(id: string)
    | Quiet

  function NoteOf(s: Store, ev: Event): Note {
    match ev
    case Minted(code, salt, now, _) => Mints(code, salt, now + CODE_TTL)
    case Tried(r, id, now, _) => TryNote(Judge(s.db, r, now), r, id, now)
    case Withdrawn(id, _, _) => if Active(s.db, id) then Revokes(id) else Quiet
    case Reloaded => if s.disk.pending.None? then Lapses else Quiet
  }

  function TryNote(v: Verdict, r: Request, id: string, now: nat): Note {
    match v
    case Wrong => WrongGuess
    case Burned => WrongGuess
    case Right => Registers(id, if ParseCode(r.code).Some? then ParseCode(r.code).value else "", now)
    case Expired => Lapses
    case Exhausted => Lapses
    case Rejected => Quiet
    case Missing => Quiet
  }

  function Notes(events: seq<Event>): (n: seq<Note>)
    ensures |n| == |events|
  {
    if events == [] then []
    else
      var init := events[..|events| - 1];
      Notes(init) + [NoteOf(After(init), events[|events| - 1])]
  }

  /** The most recent mint. */
  function LatestMint(notes: seq<Note>): Option<Note> {
    if notes == [] then None
    else if notes[|notes| - 1].Mints? then Some(notes[|notes| - 1])
    else LatestMint(notes[..|notes| - 1])
  }

  /** What happened since. */
  function SinceMint(notes: seq<Note>): seq<Note> {
    if notes == [] || notes[|notes| - 1].Mints? then []
    else SinceMint(notes[..|notes| - 1]) + [notes[|notes| - 1]]
  }

  function Wrongs(notes: seq<Note>): nat {
    if notes == [] then 0
    else Wrongs(notes[..|notes| - 1]) + if notes[|notes| - 1].WrongGuess? then 1 else 0
  }

  /** Nothing closed the code: no registration, and it did not lapse. */
  predicate StillOpen(notes: seq<Note>) {
    notes == [] ||
    (StillOpen(notes[..|notes| - 1]) && !notes[|notes| - 1].Registers? && !notes[|notes| - 1].Lapses?)
  }

  /** The last registration or revocation of `id` was a registration. */
  predicate LastRegistered(notes: seq<Note>, id: string) {
    notes != [] &&
    var last := notes[|notes| - 1];
    if last.Registers? && last.id == id then true
    else if last.Revokes? && last.id == id then false
    else LastRegistered(notes[..|notes| - 1], id)
  }

  // ----- The invariant -----

  /** The code a history leaves open: the latest mint, unless it was redeemed, burned or lapsed. */
  function Open(notes: seq<Note>): Option<PendingCode> {
    var mint, since := LatestMint(notes), SinceMint(notes);
    if mint.None? || !mint.value.Mints? || !StillOpen(since) || Wrongs(since) >= MAX_CODE_ATTEMPTS then None
    else Some(PendingCode(CodeHash(mint.value.code, mint.value.salt), mint.value.salt, mint.value.expiresAt, Wrongs(since)))
  }

  /** The pending code is exactly the one the history leaves open, and no code took too many guesses. */
  predicate Follows(db: Db, notes: seq<Note>) {
    db.pending == Open(notes) && Wrongs(SinceMint(notes)) <= MAX_CODE_ATTEMPTS
  }

  /** What one more note changes. */
  lemma NoteAdds(notes: seq<Note>, note: Note)
    ensures LatestMint(notes + [note]) == if note.Mints? then Some(note) else LatestMint(notes)
    ensures SinceMint(notes + [note]) == if note.Mints? then [] else SinceMint(notes) + [note]
  {
    assert (notes + [note])[..|notes|] == notes;
  }

  lemma NoteCounts(since: seq<Note>, note: Note)
    ensures Wrongs(since + [note]) == Wrongs(since) + if note.WrongGuess? then 1 else 0
    ensures StillOpen(since + [note]) <==> StillOpen(since) && !note.Registers? && !note.Lapses?
  {
    assert (since + [note])[..|since|] == since;
  }

  /** What one more note does to the open code. */
  function Noted(p: Option<PendingCode>, note: Note): Option<PendingCode> {
    match note
    case Mints(code, salt, expiresAt) => Some(PendingCode(CodeHash(code, salt), salt, expiresAt, 0))
    case WrongGuess =>
      if p.None? || p.value.attempts + 1 >= MAX_CODE_ATTEMPTS then None
      else Some(p.value.(attempts := p.value.attempts + 1))
    case Registers(_, _, _) => None
    case Lapses => None
    case Revokes(_) => p
    case Quiet => p
  }

  lemma OpenAdds(notes: seq<Note>, note: Note)
    ensures Open(notes + [note]) == Noted(Open(notes), note)
    ensures Wrongs(SinceMint(notes + [note])) ==
            if note.Mints? then 0 else Wrongs(SinceMint(notes)) + if note.WrongGuess? then 1 else 0
  {
    NoteAdds(notes, note);
    NoteCounts(SinceMint(notes), note);
  }

  lemma OpenCounts(notes: seq<Note>)
    requires Open(notes).Some?
    ensures Wrongs(SinceMint(notes)) == Open(notes).value.attempts < MAX_CODE_ATTEMPTS
    ensures Open(notes).value.hash.salt == Open(notes).value.salt
  {
  }

  /** Whether the file holds a code other than the one in memory, which a reload would reopen. */
  predicate Reopens(s: Store, ev: Event) {
    ev.Reloaded? && s.disk.pending.Some? && s.disk.pending != s.db.pending
  }

  /** A guess: memory does what the note says, and a wrong one is only counted against an open code. */
  lemma TryNoted(db: Db, r: Request, id: string, now: nat, note: Note)
    requires note == TryNote(Judge(db, r, now), r, id, now)
    requires db.pending.Some? ==> db.pending.value.attempts < MAX_CODE_ATTEMPTS
    ensures Redeem(db, r, id, now).pending == Noted(db.pending, note)
    ensures note.WrongGuess? ==> db.pending.Some?
  {
  }

  lemma StepPending(s: Store, ev: Event, note: Note)
    requires note == NoteOf(s, ev) && (s.db.pending.Some? ==> s.db.pending.value.attempts < MAX_CODE_ATTEMPTS)
    ensures Step(s, ev).db.pending == Noted(s.db.pending, note) <==> !Reopens(s, ev)
    ensures note.WrongGuess? ==> s.db.pending.Some?
  {
    match ev
    case Tried(r, id, now, _) => TryNoted(s.db, r, id, now, note);
    case Minted(_, _, _, _) =>
    case Withdrawn(_, _, _) =>
    case Reloaded =>
  }

  /**
   * From a store that follows its history, a step leads to one that does exactly unless
   * it is a reload whose file still holds a code that memory has since redeemed, burned,
   * charged with a wrong guess, let lapse or replaced.
   */
  lemma FollowsExactly(s: Store, ev: Event, notes: seq<Note>)
    requires Follows(s.db, notes)
    ensures Follows(Step(s, ev).db, notes + [NoteOf(s, ev)]) <==> !Reopens(s, ev)
  {
    var note := NoteOf(s, ev);
    if Open(notes).Some? {
      OpenCounts(notes);
    }
    OpenAdds(notes, note);
    StepPending(s, ev, note);
  }

  /** No reload reopens a code. */
  predicate NeverReopens(events: seq<Event>) {
    events == [] ||
    var init := events[..|events| - 1];
    NeverReopens(init) && !Reopens(After(init), events[|events| - 1])
  }

  predicate Works(ev: Event) {
    ev.Reloaded? || ev.works
  }

  /** In particular when every save succeeds: file and memory are then the same. */
  lemma {:induction false} SavedRunsLoseNothing(events: seq<Event>)
    requires forall k :: 0 <= k < |events| ==> Works(events[k])
    ensures NeverReopens(events) && After(events).disk == After(events).db
    decreases |events|
  {
    if events != [] {
      SavedRunsLoseNothing(events[..|events| - 1]);
      assert Works(events[|events| - 1]);
    }
  }

  lemma {:induction false} RunFollows(events: seq<Event>)
    requires NeverReopens(events)
    ensures Follows(After(events).db, Notes(events))
    decreases |events|
  {
    if events != [] {
      var init := events[..|events| - 1];
      RunFollows(init);
      FollowsExactly(After(init), events[|events| - 1], Notes(init));
    }
  }

  /** At most five wrong guesses are taken against a code, reloads included. */
  lemma AtMostFiveGuesses(events: seq<Event>)
    requires NeverReopens(events)
    ensures Wrongs(SinceMint(Notes(events))) <= 5
  {
    RunFollows(events);
  }

  /** The attempt limit is only ever met by burning the code, never by the check before it. */
  lemma NeverExhausted(events: seq<Event>, r: Request, now: nat)
    requires NeverReopens(events)
    ensures Judge(After(events).db, r, now) != Exhausted
  {
    RunFollows(events);
  }

  lemma {:induction false} NotesPrefix(events: seq<Event>, k: nat)
    requires k <= |events|
    ensures Notes(events)[..k] == Notes(events[..k])
    ensures NeverReopens(events) ==> NeverReopens(events[..k])
    ensures k < |events| ==> Notes(events)[k] == NoteOf(After(events[..k]), events[k])
    decreases |events|
  {
    if k == |events| {
      assert events[..k] == events;
    } else {
      var init := events[..|events| - 1];
      NotesPrefix(init, k);
      assert init[..k] == events[..k];
      if k == |init| {
        assert init[..k] == init;
      }
    }
  }

  predicate Redeems(n: Note, before: seq<Note>) {
    && n.Registers?
    && LatestMint(before).Some? && LatestMint(before).value.Mints? && LatestMint(before).value.code == n.code
    && n.now <= LatestMint(before).value.expiresAt
    && Wrongs(SinceMint(before)) < MAX_CODE_ATTEMPTS
    && StillOpen(SinceMint(before))
  }

  /**
   * A registration redeems the latest mint: the same code, before it expired, with fewer
   * than five wrong guesses and no other registration since.
   */
  lemma RegistrationRedeemsLatestMint(events: seq<Event>, k: nat)
    requires NeverReopens(events) && k < |events| && Notes(events)[k].Registers?
    ensures Redeems(Notes(events)[k], Notes(events)[..k])
  {
    NotesPrefix(events, k);
    RunFollows(events[..k]);
    RegistersMeans(After(events[..k]), events[k], Notes(events[..k]));
  }

  lemma RegistersMeans(s: Store, ev: Event, before: seq<Note>)
    requires Follows(s.db, before) && NoteOf(s, ev).Registers?
    ensures Redeems(NoteOf(s, ev), before)
  {
    OpenCounts(before);
  }

  /** `j` lies after the latest mint before `k`. */
  lemma {:induction false} AfterLatestMint(notes: seq<Note>, j: nat)
    requires j < |notes| && forall m :: j < m < |notes| ==> !notes[m].Mints?
    requires StillOpen(SinceMint(notes))
    ensures !notes[j].Registers?
    decreases |notes|
  {
    var n := |notes| - 1;
    if !notes[n].Mints? {
      OpenBefore(notes, n);
      if j < n {
        AfterLatestMint(notes[..n], j);
      }
    }
  }

  lemma OpenBefore(notes: seq<Note>, n: nat)
    requires |notes| == n + 1 && !notes[n].Mints? && StillOpen(SinceMint(notes))
    ensures StillOpen(SinceMint(notes[..n])) && !notes[n].Registers?
  {
    NoteCounts(SinceMint(notes[..n]), notes[n]);
  }

  /** Between any two registrations a new code was minted. */
  lemma OneDevicePerCode(events: seq<Event>, j: nat, k: nat)
    requires NeverReopens(events) && j < k < |events|
    requires Notes(events)[j].Registers? && Notes(events)[k].Registers?
    ensures exists m :: j < m < k && Notes(events)[m].Mints?
  {
    RegistrationRedeemsLatestMint(events, k);
    var before := Notes(events)[..k];
    if forall m :: j < m < |before| ==> !before[m].Mints? {
      AfterLatestMint(before, j);
    } else {
      var m :| j < m < |before| && before[m].Mints?;
      assert Notes(events)[m].Mints?;
    }
  }

  // ----- Devices -----

  /** Whether the file and the memory disagree about a device, which a reload makes the file's word. */
  predicate Reverts(s: Store, ev: Event, id: string) {
    ev.Reloaded? && (Active(s.disk, id) <==> !Active(s.db, id))
  }

  lemma StepActive(s: Store, ev: Event, id: string)
    requires !ev.Reloaded?
    ensures var note := NoteOf(s, ev);
            Active(Step(s, ev).db, id) <==>
            if note.Registers? && note.id == id then true
            else if note.Revokes? && note.id == id then false
            else Active(s.db, id)
  {
  }

  /**
   * Once the history tells whether a device is active, it still does after a step exactly
   * unless that is a reload of a file that says otherwise.
   */
  lemma ActiveStep(s: Store, ev: Event, notes: seq<Note>, id: string)
    requires Active(s.db, id) <==> LastRegistered(notes, id)
    ensures (Active(Step(s, ev).db, id) <==> LastRegistered(notes + [NoteOf(s, ev)], id)) <==> !Reverts(s, ev, id)
  {
    assert (notes + [NoteOf(s, ev)])[..|notes|] == notes;
    if !ev.Reloaded? {
      StepActive(s, ev, id);
    }
  }

  predicate NeverReverts(events: seq<Event>, id: string) {
    events == [] ||
    var init := events[..|events| - 1];
    NeverReverts(init, id) && !Reverts(After(init), events[|events| - 1], id)
  }

  /** A device is active exactly when the last word on it was a registration. */
  lemma {:induction false} ActiveExactly(events: seq<Event>, id: string)
    requires NeverReverts(events, id)
    ensures Active(After(events).db, id) <==> LastRegistered(Notes(events), id)
    decreases |events|
  {
    if events != [] {
      var init := events[..|events| - 1];
      ActiveExactly(init, id);
      ActiveStep(After(init), events[|events| - 1], Notes(init), id);
    }
  }

  lemma {:induction false} SavedRunsRevertNothing(events: seq<Event>, id: string)
    requires forall k :: 0 <= k < |events| ==> Works(events[k])
    ensures NeverReverts(events, id)
    decreases |events|
  {
    if events != [] {
      SavedRunsRevertNothing(events[..|events| - 1], id);
      SavedRunsLoseNothing(events[..|events| - 1]);
    }
  }

  // ----- A run that reopens a code -----

  /**
   * A save that fails followed by a reload reopens the code: two devices register with
   * one mint.
   */
  lemma LostSaveReopensCode(code: string, a: Request, b: Request, idA: string, idB: string)
    requires a.Acceptable() && b.Acceptable() && ParseCode(a.code) == ParseCode(b.code) == Some(code)
    ensures Notes([Minted(code, 1, 0, true), Tried(a, idA, 0, false), Reloaded, Tried(b, idB, 0, true)])
            == [Mints(code, 1, CODE_TTL), Registers(idA, code, 0), Quiet, Registers(idB, code, 0)]
  {
    var e1, e2, e3, e4 := Minted(code, 1, 0, true), Tried(a, idA, 0, false), Reloaded, Tried(b, idB, 0, true);
    var s1 := Step(Store(EMPTY, EMPTY), e1);
    RightCode(s1, a, idA, code, false);
    RightCode(s1, b, idB, code, true);
    NotesSnoc([], e1, [e1]);
    NotesSnoc([e1], e2, [e1, e2]);
    NotesSnoc([e1, e2], e3, [e1, e2, e3]);
    NotesSnoc([e1, e2, e3], e4, [e1, e2, e3, e4]);
  }

  /** Guessing right against a code just minted and saved; the file keeps the code when the save fails. */
  lemma RightCode(s: Store, r: Request, id: string, code: string, works: bool)
    requires s == Step(Store(EMPTY, EMPTY), Minted(code, 1, 0, true)) && r.Acceptable() && ParseCode(r.code) == Some(code)
    ensures NoteOf(s, Tried(r, id, 0, works)) == Registers(id, code, 0)
    ensures !works ==> Step(s, Tried(r, id, 0, works)).disk == s.db
    ensures s.disk == s.db && s.db.pending.Some?
  {
    assert Judge(s.db, r, 0) == Right;
  }

  lemma NotesSnoc(events: seq<Event>, ev: Event, all: seq<Event>)
    requires all == events + [ev]
    ensures Notes(all) == Notes(events) + [NoteOf(After(events), ev)]
    ensures After(all) == Step(After(events), ev)
  {
    assert all[..|all| - 1] == events;
  }
}
