/**
 * What the trust store answers, counted from the events themselves: the latest mint, the
 * guesses made against it, and what put an end to it.
 */
module PairingGuesses {
  import opened Common
  import opened Pairing
  import opened PairingRuns

  predicate HexChar(c: char) {
    '0' <= c <= '9' || 'a' <= c <= 'f' || 'A' <= c <= 'F'
  }

  /** A request that is looked at: a code, a key of 64 hex digits, a name of 1 to 64 characters. */
  predicate Proper(r: Request) {
    && ParseCode(r.code).Some?
    && |r.key| == 64 && (forall i :: 0 <= i < |r.key| ==> HexChar(r.key[i]))
    && 1 <= |Trim(r.name)| <= 64
  }

  datatype Code = Code(digits: string, salt: nat, expiresAt: nat)

  /** The latest mint; codes live for 300 seconds. */
  function Latest(events: seq<Event>): Option<Code> {
    if events == [] then None
    else
      match events[|events| - 1]
      case Minted(code, salt, now, _) => Some(Code(code, salt, now + 300))
      case _ => Latest(events[..|events| - 1])
  }

  /** A proper request with another code, in time. */
  predicate Misses(c: Code, r: Request, now: nat) {
    Proper(r) && now <= c.expiresAt && ParseCode(r.code) != Some(c.digits)
  }

  /** A proper request that ends a code: it is right, or it comes too late. */
  predicate Ends(c: Code, r: Request, now: nat) {
    Proper(r) && (now > c.expiresAt || ParseCode(r.code) == Some(c.digits))
  }

  /** Since the latest mint a request ended the code, or a reload found no code in the file. */
  predicate Ended(events: seq<Event>) {
    events != [] &&
    var init := events[..|events| - 1];
    match events[|events| - 1]
    case Minted(_, _, _, _) => false
    case Tried(r, _, now, _) => Ended(init) || (Latest(init).Some? && Ends(Latest(init).value, r, now))
    case Withdrawn(_, _, _) => Ended(init)
    case Reloaded => Ended(init) || After(init).disk.pending.None?
  }

  /** Wrong guesses since the latest mint, while nothing had ended it. */
  function Guesses(events: seq<Event>): nat {
    if events == [] then 0
    else
      var init := events[..|events| - 1];
      match events[|events| - 1]
      case Minted(_, _, _, _) => 0
      case Tried(r, _, now, _) =>
        Guesses(init) + if !Ended(init) && Latest(init).Some? && Misses(Latest(init).value, r, now) then 1 else 0
      case Withdrawn(_, _, _) => Guesses(init)
      case Reloaded => Guesses(init)
  }

  /** The code that should be pending: the latest, not ended, with fewer than five wrong guesses. */
  function Expected(latest: Option<Code>, ended: bool, guesses: nat): Option<PendingCode> {
    if latest.None? || ended || guesses >= 5 then None
    else
      var c := latest.value;
      Some(PendingCode(CodeHash(c.digits, c.salt), c.salt, c.expiresAt, guesses))
  }

  lemma ProperIsAcceptable(r: Request)
    ensures Proper(r) <==> r.Acceptable()
  {
  }

  /** What a request does to the code that is pending. */
  lemma TryExpected(db: Db, r: Request, id: string, now: nat, latest: Option<Code>, ended: bool, guesses: nat)
    requires db.pending == Expected(latest, ended, guesses)
    ensures Redeem(db, r, id, now).pending ==
            Expected(latest, ended || (latest.Some? && Ends(latest.value, r, now)),
                     guesses + if !ended && latest.Some? && Misses(latest.value, r, now) then 1 else 0)
  {
    ProperIsAcceptable(r);
  }

  /** In every run in which no reload reopens a code, the pending code is the one the events leave. */
  lemma {:induction false} PendingExactly(events: seq<Event>)
    requires NeverReopens(events)
    ensures After(events).db.pending == Expected(Latest(events), Ended(events), Guesses(events))
    decreases |events|
  {
    if events != [] {
      var init := events[..|events| - 1];
      PendingExactly(init);
      match events[|events| - 1] {
        case Tried(r, id, now, _) =>
          TryExpected(After(init).db, r, id, now, Latest(init), Ended(init), Guesses(init));
        case _ =>
      }
    }
  }

  /** After five wrong guesses no code is pending. */
  lemma FiveGuessesBurn(events: seq<Event>)
    requires NeverReopens(events) && Guesses(events) >= 5
    ensures After(events).db.pending.None?
  {
    PendingExactly(events);
  }

  predicate NoMint(events: seq<Event>, from: nat) {
    forall i :: from <= i < |events| ==> !events[i].Minted?
  }

  lemma {:induction false} GuessesStay(events: seq<Event>, k: nat)
    requires k <= |events| && NoMint(events, k)
    ensures Guesses(events) >= Guesses(events[..k])
    decreases |events|
  {
    if k == |events| {
      assert events[..k] == events;
    } else {
      var init := events[..|events| - 1];
      assert init[..k] == events[..k];
      GuessesStay(init, k);
      assert !events[|events| - 1].Minted?;
    }
  }

  /** The request is right: it redeems the code that is pending. */
  predicate Redeems(latest: Option<Code>, ended: bool, guesses: nat, r: Request, now: nat) {
    && latest.Some? && !ended && guesses < 5
    && Proper(r) && now <= latest.value.expiresAt && ParseCode(r.code) == Some(latest.value.digits)
  }

  lemma TryRegisters(db: Db, r: Request, id: string, now: nat, latest: Option<Code>, ended: bool, guesses: nat)
    requires db.pending == Expected(latest, ended, guesses)
    ensures Redeem(db, r, id, now).devices ==
            if Redeems(latest, ended, guesses, r, now)
            then db.devices[id := Device(id, Trim(r.name), r.key, now, false, None)]
            else db.devices
  {
    ProperIsAcceptable(r);
  }

  /** A request registers a device exactly when it redeems the code the events leave, and nothing else changes. */
  lemma RegistersExactly(events: seq<Event>, r: Request, id: string, now: nat)
    requires NeverReopens(events)
    ensures Redeem(After(events).db, r, id, now).devices ==
            if Redeems(Latest(events), Ended(events), Guesses(events), r, now)
            then After(events).db.devices[id := Device(id, Trim(r.name), r.key, now, false, None)]
            else After(events).db.devices
  {
    PendingExactly(events);
    TryRegisters(After(events).db, r, id, now, Latest(events), Ended(events), Guesses(events));
  }

  /** Once five guesses were wrong, no request registers until the next mint. */
  lemma NoneUntilNextMint(events: seq<Event>, k: nat, r: Request, id: string, now: nat)
    requires NeverReopens(events) && k <= |events| && NoMint(events, k) && Guesses(events[..k]) >= 5
    ensures After(events).db.pending.None?
    ensures Redeem(After(events).db, r, id, now).devices == After(events).db.devices
  {
    GuessesStay(events, k);
    FiveGuessesBurn(events);
    RegistersExactly(events, r, id, now);
  }

  /** The answer to a request, by what the events left. */
  function Answer(latest: Option<Code>, ended: bool, guesses: nat, r: Request, id: string, now: nat): Result<Device, Error> {
    if !Proper(r) then Err(Invalid("request"))
    else if latest.None? || ended || guesses >= 5 || now > latest.value.expiresAt then Err(NoPendingCode)
    else if ParseCode(r.code) == Some(latest.value.digits) then Ok(Device(id, Trim(r.name), r.key, now, false, None))
    else if guesses == 4 then Err(TooManyAttempts)
    else Err(WrongCode)
  }

  lemma TryAnswers(db: Db, r: Request, id: string, now: nat, latest: Option<Code>, ended: bool, guesses: nat)
    requires db.pending == Expected(latest, ended, guesses)
    ensures RedeemResult(db, r, id, now) == Answer(latest, ended, guesses, r, id, now)
  {
    ProperIsAcceptable(r);
  }

  lemma AnswersExactly(events: seq<Event>, r: Request, id: string, now: nat)
    requires NeverReopens(events)
    ensures RedeemResult(After(events).db, r, id, now)
            == Answer(Latest(events), Ended(events), Guesses(events), r, id, now)
  {
    PendingExactly(events);
    TryAnswers(After(events).db, r, id, now, Latest(events), Ended(events), Guesses(events));
  }

  // ----- The notes of a run -----

  lemma TryNotes(s: Store, r: Request, id: string, now: nat, latest: Option<Code>, ended: bool, guesses: nat)
    requires s.db.pending == Expected(latest, ended, guesses)
    ensures TryNote(Judge(s.db, r, now), r, id, now).WrongGuess? <==>
            latest.Some? && !ended && guesses < 5 && Misses(latest.value, r, now)
  {
    ProperIsAcceptable(r);
  }

  /** Which notes are mints and wrong guesses. */
  lemma NoteKinds(s: Store, ev: Event, latest: Option<Code>, ended: bool, guesses: nat)
    requires s.db.pending == Expected(latest, ended, guesses)
    ensures NoteOf(s, ev).Mints? <==> ev.Minted?
    ensures NoteOf(s, ev).WrongGuess? <==>
            ev.Tried? && latest.Some? && !ended && guesses < 5 && Misses(latest.value, ev.request, ev.now)
  {
    if ev.Tried? {
      TryNotes(s, ev.request, ev.id, ev.now, latest, ended, guesses);
    }
  }

  lemma GuessStep(init: seq<Event>, ev: Event)
    ensures Guesses(init + [ev]) ==
            if ev.Minted? then 0
            else Guesses(init) +
                 if ev.Tried? && !Ended(init) && Latest(init).Some? && Misses(Latest(init).value, ev.request, ev.now)
                 then 1 else 0
  {
    assert (init + [ev])[..|init|] == init;
  }

  /** Notes and guesses, one event on. */
  lemma NotedStep(init: seq<Event>, last: Event, all: seq<Event>)
    requires NeverReopens(init) && all == init + [last]
    requires Wrongs(SinceMint(Notes(init))) == if Guesses(init) < 5 then Guesses(init) else 5
    ensures Wrongs(SinceMint(Notes(all))) == if Guesses(all) < 5 then Guesses(all) else 5
  {
    PendingExactly(init);
    NoteKinds(After(init), last, Latest(init), Ended(init), Guesses(init));
    GuessStep(init, last);
    NotesSnoc(init, last, all);
    OpenAdds(Notes(init), NoteOf(After(init), last));
  }

  /** The wrong guesses a run notes are those made, up to five. */
  lemma {:induction false} NotedGuesses(events: seq<Event>)
    requires NeverReopens(events)
    ensures Wrongs(SinceMint(Notes(events))) == if Guesses(events) < 5 then Guesses(events) else 5
    decreases |events|
  {
    if events != [] {
      var n := |events| - 1;
      NotedGuesses(events[..n]);
      InitLast(events, n);
      NotedStep(events[..n], events[n], events);
    }
  }

  lemma InitLast<T>(s: seq<T>, n: nat)
    requires |s| == n + 1
    ensures s == s[..n] + [s[n]]
  {
  }
}
