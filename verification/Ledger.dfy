/**
 Single-use challenges: each is issued to one subject, presented at most once,
 and good until it expires. The ledger of those not yet presented is bounded.
 */
module Ledger {
  import opened Wrappers
  import opened MachineInt
  import opened Sorting

  const MAX_OUTSTANDING: nat := 4096

  datatype Challenge = Challenge(subject: string, nonce: string, expiresAt: nat)

  datatype ChallengeError = Unknown | Expired

  type Outstanding = map<string, Challenge>

  /** The end of the lifetime, held at the largest value the clock can show. */
  function Expiry(now: nat, ttlSecs: nat): nat {
    if now + ttlSecs * 1000 < U64 then now + ttlSecs * 1000 else U64 - 1
  }

  function Live(held: Outstanding, now: nat): Outstanding {
    map n | n in held && held[n].expiresAt >= now :: held[n]
  }

  /**
   What pruning may leave: the expired go, and if the rest fill the ledger, the soonest to expire go too, until there
   is room for one more. Which of several that expire together goes is not fixed.
   */
  ghost predicate IsPruned(held: Outstanding, now: nat, left: Outstanding) {
    var live := Live(held, now);
    if |live| < MAX_OUTSTANDING then left == live
    else
      && |left| == MAX_OUTSTANDING - 1
      && (forall n :: n in left ==> n in live && left[n] == live[n])
      && (forall d, n :: d in live && d !in left && n in left ==> live[d].expiresAt <= live[n].expiresAt)
  }

  function Answer(held: Outstanding, subject: string, nonce: string, now: nat): Result<Challenge, ChallengeError> {
    if nonce !in held || held[nonce].subject != subject then Err(Unknown)
    else if held[nonce].expiresAt < now then Err(Expired)
    else Ok(held[nonce])
  }

  datatype Event =
    | Issued(subject: string, nonce: string, now: nat, ttlSecs: nat)
    | Presented(subject: string, nonce: string, now: nat, result: Result<Challenge, ChallengeError>)

  function ChallengeOf(e: Event): Challenge
    requires e.Issued?
  {
    Challenge(e.subject, e.nonce, Expiry(e.now, e.ttlSecs))
  }

  ghost predicate Next(held: Outstanding, e: Event, after: Outstanding) {
    match e
    case Issued(_, nonce, now, _) =>
      nonce in after && exists left :: IsPruned(held, now, left) && after == left[nonce := ChallengeOf(e)]
    case Presented(subject, nonce, now, result) =>
      after == held - {nonce} && result == Answer(held, subject, nonce, now)
  }

  // ---- The ledger ----

  class ChallengeLedger {
    var outstanding: Outstanding

    constructor ()
      ensures outstanding == map[]
    {
      outstanding := map[];
    }

    /**
     The random nonce is a parameter. A lifetime whose milliseconds do not fit the word aborts the node, since
     arithmetic is checked; by then the ledger has been pruned, and no challenge comes of it.
     */
    method Issue(subject: string, now: nat, ttlSecs: nat, nonce: string) returns (r: Option<Challenge>)
      modifies this
      ensures r.Some? <==> ttlSecs * 1000 < U64
      ensures r.Some? ==> r.value == Challenge(subject, nonce, Expiry(now, ttlSecs))
      ensures r.Some? ==> Next(old(outstanding), Issued(subject, nonce, now, ttlSecs), outstanding)
      ensures r.None? ==> IsPruned(old(outstanding), now, outstanding)
    {
      hide IsPruned;
      Prune(now);
      if ttlSecs * 1000 >= U64 {
        return None;
      }
      var c := Challenge(subject, nonce, Expiry(now, ttlSecs));
      outstanding := outstanding[nonce := c];
      return Some(c);
    }

    /** The nonce is spent on presentation, whoever presents it. */
    method Consume(subject: string, nonce: string, now: nat) returns (r: Result<Challenge, ChallengeError>)
      modifies this
      ensures Next(old(outstanding), Presented(subject, nonce, now, r), outstanding)
    {
      if nonce !in outstanding {
        assert outstanding - {nonce} == outstanding;
        return Err(Unknown);
      }
      var challenge := outstanding[nonce];
      outstanding := outstanding - {nonce};
      if challenge.subject != subject {
        return Err(Unknown);
      }
      if challenge.expiresAt < now {
        return Err(Expired);
      }
      return Ok(challenge);
    }

    method Prune(now: nat)
      modifies this
      ensures IsPruned(old(outstanding), now, outstanding)
    {
      outstanding := Live(outstanding, now);
      if |outstanding| < MAX_OUTSTANDING {
        return;
      }
      var byExpiry := SoonestFirst(outstanding);
      var excess := |outstanding| + 1 - MAX_OUTSTANDING;
      outstanding := WithoutFirst(outstanding, byExpiry, excess);
    }
  }

  ghost predicate Lists(held: Outstanding, nonces: seq<string>) {
    && Distinct(nonces)
    && |nonces| == |held|
    && forall n :: n in nonces <==> n in held
  }

  ghost predicate InExpiryOrder(held: Outstanding, nonces: seq<string>) {
    forall i, j :: 0 <= i < j < |nonces| && nonces[i] in held && nonces[j] in held ==>
      held[nonces[i]].expiresAt <= held[nonces[j]].expiresAt
  }

  method Enumerate(held: Outstanding) returns (nonces: seq<string>)
    ensures Lists(held, nonces)
  {
    nonces := [];
    var rest := held.Keys;
    while rest != {}
      invariant rest <= held.Keys
      invariant Distinct(nonces) && |nonces| + |rest| == |held|
      invariant forall n :: n in nonces <==> n in held && n !in rest
      decreases |rest|
    {
      var n :| n in rest;
      nonces := nonces + [n];
      rest := rest - {n};
    }
  }

  /** The nonces held, ordered by when they expire. */
  method SoonestFirst(held: Outstanding) returns (nonces: seq<string>)
    ensures Lists(held, nonces) && InExpiryOrder(held, nonces)
  {
    var listed := Enumerate(held);
    var le := (a: string, b: string) =>
      (if a in held then held[a].expiresAt else 0) <= (if b in held then held[b].expiresAt else 0);
    nonces := Sort(listed, le);
    Rearranged(listed, nonces);
    forall i, j | 0 <= i < j < |nonces|
      ensures le(nonces[i], nonces[j])
    {
    }
  }

  method WithoutFirst(held: Outstanding, nonces: seq<string>, excess: nat) returns (left: Outstanding)
    requires Lists(held, nonces) && InExpiryOrder(held, nonces) && excess <= |nonces|
    ensures |left| == |held| - excess
    ensures forall n :: n in left ==> n in held && left[n] == held[n]
    ensures forall d, n :: d in held && d !in left && n in left ==> held[d].expiresAt <= held[n].expiresAt
  {
    hide InExpiryOrder, Lists;
    left := held;
    for i := 0 to excess
      invariant |left| == |held| - i
      invariant forall n :: n in left <==> n in held && n !in nonces[..i]
      invariant forall n :: n in left ==> left[n] == held[n]
    {
      NextToGo(held, nonces, i);
      left := Removed(left, nonces[i]);
    }
    DroppedExpireSooner(held, nonces, excess, left.Keys);
  }

  lemma NextToGo(held: Outstanding, nonces: seq<string>, i: nat)
    requires Lists(held, nonces) && i < |nonces|
    ensures nonces[i] in held && nonces[i] !in nonces[..i]
    ensures forall n :: n in nonces[..i + 1] <==> n in nonces[..i] || n == nonces[i]
  {
    assert nonces[i] in nonces;
    assert nonces[..i + 1] == nonces[..i] + [nonces[i]];
  }

  lemma DroppedExpireSooner(held: Outstanding, nonces: seq<string>, excess: nat, left: set<string>)
    requires Lists(held, nonces) && InExpiryOrder(held, nonces) && excess <= |nonces|
    requires forall n :: n in left <==> n in held && n !in nonces[..excess]
    ensures forall d, n :: d in held && d !in left && n in left ==> held[d].expiresAt <= held[n].expiresAt
  {
    forall d, n | d in held && d !in left && n in left
      ensures held[d].expiresAt <= held[n].expiresAt
    {
      var i :| 0 <= i < excess && nonces[i] == d;
      var j :| 0 <= j < |nonces| && nonces[j] == n;
      assert i < j;
    }
  }

  method Removed(held: Outstanding, nonce: string) returns (left: Outstanding)
    requires nonce in held
    ensures |left| == |held| - 1
    ensures forall n :: n in left <==> n in held && n != nonce
    ensures forall n :: n in left ==> left[n] == held[n]
  {
    left := held - {nonce};
    assert held == left[nonce := held[nonce]];
  }

  // ---- Every run ----

  /** A run from an empty ledger: `states[k + 1]` is one that `events[k]` may leave behind. */
  ghost predicate IsRun(events: seq<Event>, states: seq<Outstanding>) {
    && |states| == |events| + 1
    && states[0] == map[]
    && forall k :: 0 <= k < |events| ==> Next(states[k], events[k], states[k + 1])
  }

  lemma PrunedIsLive(held: Outstanding, now: nat, left: Outstanding)
    requires IsPruned(held, now, left)
    ensures |left| < MAX_OUTSTANDING
    ensures forall n :: n in left ==> n in held && left[n] == held[n] && held[n].expiresAt >= now
  {
  }

  lemma LiveIsNoLarger(held: Outstanding, now: nat)
    ensures |Live(held, now)| <= |held|
  {
    SubsetSize(Live(held, now).Keys, held.Keys);
  }

  lemma InsertedSize(left: Outstanding, nonce: string, c: Challenge)
    ensures |left[nonce := c]| <= |left| + 1
  {
    assert left[nonce := c].Keys == left.Keys + {nonce};
  }

  lemma StepKeepsBound(held: Outstanding, e: Event, after: Outstanding)
    requires |held| <= MAX_OUTSTANDING && Next(held, e, after)
    ensures |after| <= MAX_OUTSTANDING
  {
    hide IsPruned;
    match e
    case Issued(_, nonce, now, _) =>
      var left :| IsPruned(held, now, left) && after == left[nonce := ChallengeOf(e)];
      PrunedIsLive(held, now, left);
      InsertedSize(left, nonce, ChallengeOf(e));
    case Presented(_, nonce, _, _) =>
      SubsetSize(after.Keys, held.Keys);
  }

  /** The ledger never outgrows its ceiling. */
  lemma {:induction false} LedgerIsBounded(events: seq<Event>, states: seq<Outstanding>, k: nat)
    requires IsRun(events, states) && k < |states|
    ensures |states[k]| <= MAX_OUTSTANDING
  {
    hide Next;
    if k > 0 {
      LedgerIsBounded(events, states, k - 1);
      StepKeepsBound(states[k - 1], events[k - 1], states[k]);
    }
  }

  ghost predicate Touches(e: Event, nonce: string) {
    e.nonce == nonce
  }

  /** Issued at `i` and neither presented nor issued again before `k`. */
  ghost predicate Pending(events: seq<Event>, nonce: string, i: nat, k: nat) {
    && i < k <= |events|
    && events[i].Issued? && Touches(events[i], nonce)
    && forall j :: i < j < k ==> !Touches(events[j], nonce)
  }

  /** What a step holds under a nonce it does not name was there before. */
  lemma UntouchedWasHeld(held: Outstanding, e: Event, after: Outstanding, nonce: string)
    requires Next(held, e, after) && !Touches(e, nonce) && nonce in after
    ensures nonce in held && after[nonce] == held[nonce]
    ensures e.Issued? ==> held[nonce].expiresAt >= e.now
  {
    hide IsPruned;
    if e.Issued? {
      var left :| IsPruned(held, e.now, left) && after == left[e.nonce := ChallengeOf(e)];
      PrunedIsLive(held, e.now, left);
    }
  }

  /** Whatever is held is pending, as it was issued. */
  lemma {:induction false} HeldIsPending(events: seq<Event>, states: seq<Outstanding>, k: nat, nonce: string)
    requires IsRun(events, states) && k < |states| && nonce in states[k]
    ensures exists i :: 0 <= i < k && Pending(events, nonce, i, k) && ChallengeOf(events[i]) == states[k][nonce]
  {
    hide IsPruned;
    if k > 0 {
      var e := events[k - 1];
      assert Next(states[k - 1], e, states[k]);
      if Touches(e, nonce) {
        assert Pending(events, nonce, k - 1, k);
      } else {
        hide Next;
        UntouchedWasHeld(states[k - 1], e, states[k], nonce);
        HeldIsPending(events, states, k - 1, nonce);
        var i :| 0 <= i < k - 1 && Pending(events, nonce, i, k - 1) && ChallengeOf(events[i]) == states[k - 1][nonce];
        assert Pending(events, nonce, i, k);
      }
    }
  }

  /**
   A presentation succeeds only for a challenge that was issued to the same subject under that nonce, has not expired,
   and has not been presented by anyone since it was issued.
   */
  lemma SuccessIsFirstPresentation(events: seq<Event>, states: seq<Outstanding>, k: nat)
    requires IsRun(events, states) && k < |events|
    requires events[k].Presented? && events[k].result.Ok?
    ensures exists i :: 0 <= i < k && Pending(events, events[k].nonce, i, k) &&
                        events[i].subject == events[k].subject &&
                        events[k].now <= Expiry(events[i].now, events[i].ttlSecs) &&
                        events[k].result.value == ChallengeOf(events[i])
  {
    assert Next(states[k], events[k], states[k + 1]);
    HeldIsPending(events, states, k, events[k].nonce);
    var i :| 0 <= i < k && Pending(events, events[k].nonce, i, k) &&
             ChallengeOf(events[i]) == states[k][events[k].nonce];
  }

  /**
   What a held challenge is answered: accepted for its own subject no later than a thousand milliseconds a second after
   it was issued, or at the end of time; expired for them afterwards; and to anyone else, as if it did not exist.
   */
  lemma HeldIsAnswered(events: seq<Event>, states: seq<Outstanding>, i: nat, k: nat)
    requires IsRun(events, states) && k < |events| && events[k].Presented? && events[k].now < U64
    requires Pending(events, events[k].nonce, i, k) && events[k].nonce in states[k]
    ensures var own, due := events[k].subject == events[i].subject, events[i].now + 1000 * events[i].ttlSecs;
            && (events[k].result.Ok? <==> own && events[k].now <= due)
            && (events[k].result == Err(Expired) <==> own && events[k].now > due)
            && (events[k].result == Err(Unknown) <==> !own)
  {
    assert Next(states[k], events[k], states[k + 1]);
    HeldIsPending(events, states, k, events[k].nonce);
    var l :| 0 <= l < k && Pending(events, events[k].nonce, l, k) &&
             ChallengeOf(events[l]) == states[k][events[k].nonce];
    assert l == i;
  }

  /** A nonce that is not held is unknown. */
  lemma AbsentIsUnknown(events: seq<Event>, states: seq<Outstanding>, k: nat)
    requires IsRun(events, states) && k < |events| && events[k].Presented? && events[k].nonce !in states[k]
    ensures events[k].result == Err(Unknown)
  {
    assert Next(states[k], events[k], states[k + 1]);
  }

  function Issues(events: seq<Event>, nonce: string): nat {
    if events == [] then 0
    else
      var e := events[|events| - 1];
      Issues(events[..|events| - 1], nonce) + if e.Issued? && e.nonce == nonce then 1 else 0
  }

  function Successes(events: seq<Event>, nonce: string): nat {
    if events == [] then 0
    else
      var e := events[|events| - 1];
      Successes(events[..|events| - 1], nonce) + if e.Presented? && e.nonce == nonce && e.result.Ok? then 1 else 0
  }

  /** A nonce is accepted no more often than it was issued, and one still held leaves an issue unspent. */
  lemma {:induction false} SpentAtMostOncePerIssue(events: seq<Event>, states: seq<Outstanding>, nonce: string)
    requires IsRun(events, states)
    ensures Successes(events, nonce) + (if nonce in states[|events|] then 1 else 0) <= Issues(events, nonce)
  {
    if events != [] {
      var last := |events| - 1;
      SpentAtMostOncePerIssue(events[..last], states[..|events|], nonce);
      assert Next(states[last], events[last], states[last + 1]);
      if events[last].nonce != nonce && nonce in states[last + 1] {
        UntouchedWasHeld(states[last], events[last], states[last + 1], nonce);
      }
    }
  }

  // ---- What issuing does to the challenges of others ----

  /**
   An unexpired challenge leaves the ledger unpresented only because another was issued while the ledger was full. It
   is then the only one to go, and none that stays expires before it.
   */
  lemma DroppedOnlyWhenFull(held: Outstanding, e: Event, after: Outstanding, nonce: string)
    requires Next(held, e, after) && |held| <= MAX_OUTSTANDING
    requires e.Issued? && e.nonce !in held
    requires nonce in Live(held, e.now) && nonce !in after
    ensures |Live(held, e.now)| == MAX_OUTSTANDING
    ensures after.Keys == Live(held, e.now).Keys - {nonce} + {e.nonce}
    ensures forall n :: n in after && n != e.nonce ==> held[nonce].expiresAt <= held[n].expiresAt
  {
    hide IsPruned, Live;
    var left :| IsPruned(held, e.now, left) && after == left[e.nonce := ChallengeOf(e)];
    PrunedWhenFull(held, e.now, left, nonce);
  }

  lemma PrunedWhenFull(held: Outstanding, now: nat, left: Outstanding, nonce: string)
    requires IsPruned(held, now, left) && |held| <= MAX_OUTSTANDING
    requires nonce in Live(held, now) && nonce !in left
    ensures |Live(held, now)| == MAX_OUTSTANDING
    ensures left.Keys == Live(held, now).Keys - {nonce}
    ensures nonce in held
    ensures forall n :: n in left ==> n in held && held[nonce].expiresAt <= held[n].expiresAt
  {
    LiveIsNoLarger(held, now);
    OneIsMissing(left.Keys, Live(held, now).Keys, nonce);
  }

  lemma OneIsMissing<T>(a: set<T>, b: set<T>, x: T)
    requires a <= b && |a| + 1 == |b| && x in b && x !in a
    ensures a == b - {x}
  {
    var rest := b - {x};
    assert a <= rest && |a| == |rest|;
    assert rest == a + (rest - a);
    assert |rest - a| == 0;
  }

  /** Issuing leaves every unexpired challenge in place if and only if the ledger is not full of them. */
  lemma IssueLeavesOthersIff(held: Outstanding, e: Event, after: Outstanding)
    requires Next(held, e, after) && |held| <= MAX_OUTSTANDING
    requires e.Issued? && e.nonce !in held
    ensures (forall n :: n in Live(held, e.now) ==> n in after && after[n] == held[n]) <==>
            |Live(held, e.now)| < MAX_OUTSTANDING
  {
    var live := Live(held, e.now);
    LiveIsNoLarger(held, e.now);
    var left :| IsPruned(held, e.now, left) && after == left[e.nonce := ChallengeOf(e)];
    if |live| == MAX_OUTSTANDING {
      if forall n :: n in live ==> n in left {
        SubsetSize(live.Keys, left.Keys);
        assert false;
      }
      var n :| n in live && n !in left;
    }
  }

  // ---- A run that fills the ledger: one subject asks again and again ----

  /** What is held after `subject` was issued each of `nonces` at one moment. */
  ghost function Crowd(subject: string, nonces: seq<string>, now: nat, ttlSecs: nat): Outstanding {
    map n | n in nonces :: Challenge(subject, n, Expiry(now, ttlSecs))
  }

  ghost function Asks(subject: string, nonces: seq<string>, now: nat, ttlSecs: nat): seq<Event> {
    seq(|nonces|, k requires 0 <= k < |nonces| => Issued(subject, nonces[k], now, ttlSecs))
  }

  ghost function Crowds(subject: string, nonces: seq<string>, now: nat, ttlSecs: nat): seq<Outstanding> {
    seq(|nonces| + 1, k requires 0 <= k <= |nonces| => Crowd(subject, nonces[..k], now, ttlSecs))
  }

  lemma {:induction false} CrowdSize(subject: string, nonces: seq<string>, now: nat, ttlSecs: nat)
    requires Distinct(nonces)
    ensures |Crowd(subject, nonces, now, ttlSecs)| == |nonces|
  {
    if nonces != [] {
      var last := |nonces| - 1;
      var rest := nonces[..last];
      CrowdSize(subject, rest, now, ttlSecs);
      assert nonces == rest + [nonces[last]] && nonces[last] !in rest;
      var smaller := Crowd(subject, rest, now, ttlSecs);
      assert Crowd(subject, nonces, now, ttlSecs) ==
             smaller[nonces[last] := Challenge(subject, nonces[last], Expiry(now, ttlSecs))];
    }
  }

  lemma CrowdIsLive(subject: string, nonces: seq<string>, now: nat, ttlSecs: nat, later: nat)
    requires later <= Expiry(now, ttlSecs)
    ensures Live(Crowd(subject, nonces, now, ttlSecs), later) == Crowd(subject, nonces, now, ttlSecs)
  {
  }

  lemma CrowdGrows(subject: string, nonces: seq<string>, now: nat, ttlSecs: nat, k: nat)
    requires Distinct(nonces) && k < |nonces| <= MAX_OUTSTANDING && now < U64
    ensures Next(Crowd(subject, nonces[..k], now, ttlSecs), Issued(subject, nonces[k], now, ttlSecs),
                 Crowd(subject, nonces[..k + 1], now, ttlSecs))
  {
    var crowd := Crowd(subject, nonces[..k], now, ttlSecs);
    CrowdIsLive(subject, nonces[..k], now, ttlSecs, now);
    CrowdSize(subject, nonces[..k], now, ttlSecs);
    assert IsPruned(crowd, now, crowd);
    assert nonces[..k + 1] == nonces[..k] + [nonces[k]];
    assert Crowd(subject, nonces[..k + 1], now, ttlSecs) ==
           crowd[nonces[k] := ChallengeOf(Issued(subject, nonces[k], now, ttlSecs))];
  }

  lemma CrowdIsRun(subject: string, nonces: seq<string>, now: nat, ttlSecs: nat)
    requires Distinct(nonces) && |nonces| <= MAX_OUTSTANDING && now < U64
    ensures IsRun(Asks(subject, nonces, now, ttlSecs), Crowds(subject, nonces, now, ttlSecs))
  {
    hide Next;
    forall k: nat | k < |nonces|
      ensures Next(Crowds(subject, nonces, now, ttlSecs)[k], Asks(subject, nonces, now, ttlSecs)[k],
                   Crowds(subject, nonces, now, ttlSecs)[k + 1])
    {
      CrowdGrows(subject, nonces, now, ttlSecs, k);
    }
    assert nonces[..0] == [];
  }

  /**
   Any 4096 different nonces fill the ledger, for any subject, clock and lifetime; and whoever asks next, while they
   last, takes away a challenge that has not expired.
   */
  lemma FloodedLedgerDropsAnother(subject: string, nonces: seq<string>, now: nat, ttlSecs: nat, e: Event,
                                  after: Outstanding)
    requires Distinct(nonces) && |nonces| == MAX_OUTSTANDING && now < U64
    requires e.Issued? && e.nonce !in nonces && e.now <= Expiry(now, ttlSecs)
    requires Next(Crowd(subject, nonces, now, ttlSecs), e, after)
    ensures IsRun(Asks(subject, nonces, now, ttlSecs), Crowds(subject, nonces, now, ttlSecs))
    ensures Crowds(subject, nonces, now, ttlSecs)[|nonces|] == Crowd(subject, nonces, now, ttlSecs)
    ensures exists d :: d in Live(Crowd(subject, nonces, now, ttlSecs), e.now) && d !in after
  {
    CrowdIsRun(subject, nonces, now, ttlSecs);
    assert nonces[..|nonces|] == nonces;
    hide Next, IsRun;
    var full := Crowd(subject, nonces, now, ttlSecs);
    CrowdSize(subject, nonces, now, ttlSecs);
    CrowdIsLive(subject, nonces, now, ttlSecs, e.now);
    IssueLeavesOthersIff(full, e, after);
    var d :| d in full && !(d in after && after[d] == full[d]);
    if d in after {
      UntouchedWasHeld(full, e, after, d);
    }
  }

  // ---- Who survives a flood ----

  /** Some challenge held at `now` expires before `time`. */
  ghost predicate SomeSooner(held: Outstanding, now: nat, time: nat) {
    exists d :: d in Live(held, now) && held[d].expiresAt < time
  }

  /** An issue drops no challenge that another, still unexpired, expires sooner than. */
  lemma SpareTheLater(held: Outstanding, e: Event, after: Outstanding, nonce: string)
    requires Next(held, e, after) && |held| <= MAX_OUTSTANDING
    requires e.Issued? && e.nonce != nonce && nonce in Live(held, e.now)
    requires |Live(held, e.now)| < MAX_OUTSTANDING || SomeSooner(held, e.now, held[nonce].expiresAt)
    ensures nonce in after && after[nonce] == held[nonce]
  {
    hide IsPruned;
    var left :| IsPruned(held, e.now, left) && after == left[e.nonce := ChallengeOf(e)];
    if nonce !in left {
      PrunedWhenFull(held, e.now, left, nonce);
    }
    PrunedIsLive(held, e.now, left);
  }

  /** An issue into a full ledger drops the challenge that expires before every other. */
  lemma DropTheSoonest(held: Outstanding, e: Event, after: Outstanding, nonce: string)
    requires Next(held, e, after) && e.Issued? && e.nonce != nonce
    requires |Live(held, e.now)| >= MAX_OUTSTANDING && nonce in held
    requires forall d :: d in Live(held, e.now) && d != nonce ==> held[nonce].expiresAt < held[d].expiresAt
    ensures nonce !in after
  {
    hide IsPruned, Live;
    var left :| IsPruned(held, e.now, left) && after == left[e.nonce := ChallengeOf(e)];
    var d := PrunedDropsOne(held, e.now, left);
  }

  lemma PrunedDropsOne(held: Outstanding, now: nat, left: Outstanding) returns (d: string)
    requires IsPruned(held, now, left) && |Live(held, now)| >= MAX_OUTSTANDING
    ensures d in Live(held, now) && d !in left && d in held
    ensures forall n :: n in left ==> n in held && n in Live(held, now) && held[d].expiresAt <= held[n].expiresAt
  {
    var live := Live(held, now);
    if forall n :: n in live ==> n in left {
      SubsetSize(live.Keys, left.Keys);
      assert false;
    }
    d :| d in live && d !in left;
  }

  /** At every issue between `i` and `k` the ledger had room, or held one that expires sooner than the one of `i`. */
  ghost predicate Spared(events: seq<Event>, states: seq<Outstanding>, i: nat, k: nat)
    requires i < k <= |events| <= |states| && events[i].Issued?
  {
    forall j :: i < j < k && events[j].Issued? ==>
      || |Live(states[j], events[j].now)| < MAX_OUTSTANDING
      || SomeSooner(states[j], events[j].now, ChallengeOf(events[i]).expiresAt)
  }

  lemma {:induction false} PendingStaysHeld(events: seq<Event>, states: seq<Outstanding>, nonce: string, i: nat, k: nat)
    requires IsRun(events, states) && Pending(events, nonce, i, k)
    requires Spared(events, states, i, k)
    requires forall j :: i < j < k ==> events[j].now <= ChallengeOf(events[i]).expiresAt
    ensures nonce in states[k] && states[k][nonce] == ChallengeOf(events[i])
  {
    hide IsPruned, SomeSooner;
    assert Next(states[k - 1], events[k - 1], states[k]);
    if i < k - 1 {
      PendingStaysHeld(events, states, nonce, i, k - 1);
      if events[k - 1].Issued? {
        LedgerIsBounded(events, states, k - 1);
        SpareTheLater(states[k - 1], events[k - 1], states[k], nonce);
      }
    }
  }

  /** A subject who answers in time is accepted, even through a flood in which others were always to expire sooner. */
  lemma PromptAnswerIsAccepted(events: seq<Event>, states: seq<Outstanding>, i: nat, k: nat)
    requires IsRun(events, states) && k < |events|
    requires Pending(events, events[k].nonce, i, k)
    requires events[k].Presented? && events[k].subject == events[i].subject
    requires Spared(events, states, i, k)
    requires forall j :: i < j <= k ==> events[j].now <= ChallengeOf(events[i]).expiresAt
    ensures events[k].result == Ok(ChallengeOf(events[i]))
  {
    assert Next(states[k], events[k], states[k + 1]);
    PendingStaysHeld(events, states, events[k].nonce, i, k);
  }

  lemma {:induction false} GoneStaysGone(events: seq<Event>, states: seq<Outstanding>, nonce: string, j: nat, k: nat)
    requires IsRun(events, states) && j <= k <= |events| && nonce !in states[j]
    requires forall l :: j <= l < k ==> !Touches(events[l], nonce)
    ensures nonce !in states[k]
  {
    hide Next;
    if j < k {
      GoneStaysGone(events, states, nonce, j, k - 1);
      if nonce in states[k] {
        UntouchedWasHeld(states[k - 1], events[k - 1], states[k], nonce);
      }
    }
  }

  /** No other challenge held at an issue between `i` and `k` expires at the very moment the one issued at `i` does. */
  ghost predicate NoTies(events: seq<Event>, states: seq<Outstanding>, i: nat, k: nat)
    requires i < k <= |events| <= |states| && events[i].Issued?
  {
    forall j, d :: i < j < k && events[j].Issued? && d in states[j] && d != events[i].nonce ==>
      states[j][d].expiresAt != ChallengeOf(events[i]).expiresAt
  }

  /**
   Exactly who is unaffected by a flood: of subjects that answer in time, and expiries that do not coincide, precisely
   those whose challenge was never the soonest to expire when one was issued into a full ledger.
   */
  lemma PromptAnswerIff(events: seq<Event>, states: seq<Outstanding>, i: nat, k: nat)
    requires IsRun(events, states) && k < |events|
    requires Pending(events, events[k].nonce, i, k)
    requires events[k].Presented? && events[k].subject == events[i].subject
    requires forall j :: i < j <= k ==> events[j].now <= ChallengeOf(events[i]).expiresAt
    requires NoTies(events, states, i, k)
    ensures events[k].result.Ok? <==> Spared(events, states, i, k)
  {
    hide IsPruned, Live, SomeSooner, NoTies;
    if Spared(events, states, i, k) {
      PromptAnswerIsAccepted(events, states, i, k);
    } else {
      var j :| i < j < k && events[j].Issued? && |Live(states[j], events[j].now)| >= MAX_OUTSTANDING &&
               !SomeSooner(states[j], events[j].now, ChallengeOf(events[i]).expiresAt);
      SoonestIsGone(events, states, i, j, k);
      assert Next(states[k], events[k], states[k + 1]);
    }
  }

  lemma SoonestIsGone(events: seq<Event>, states: seq<Outstanding>, i: nat, j: nat, k: nat)
    requires IsRun(events, states) && k < |events| && i < j < k
    requires Pending(events, events[k].nonce, i, k)
    requires events[j].Issued? && |Live(states[j], events[j].now)| >= MAX_OUTSTANDING
    requires !SomeSooner(states[j], events[j].now, ChallengeOf(events[i]).expiresAt)
    requires NoTies(events, states, i, k)
    ensures events[k].nonce !in states[k]
  {
    hide IsPruned;
    var nonce := events[k].nonce;
    assert Next(states[j], events[j], states[j + 1]);
    if nonce in states[j] {
      HeldIsPending(events, states, j, nonce);
      var l :| 0 <= l < j && Pending(events, nonce, l, j) && ChallengeOf(events[l]) == states[j][nonce];
      assert l == i;
      DropTheSoonest(states[j], events[j], states[j + 1], nonce);
    } else if nonce in states[j + 1] {
      UntouchedWasHeld(states[j], events[j], states[j + 1], nonce);
    }
    GoneStaysGone(events, states, nonce, j + 1, k);
  }
}
