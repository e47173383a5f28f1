/**
 Blockhash announcements: which pairs are still fresh enough not to be
 rebroadcast, and which blockhash to build on (section 6 of OFS-4300). The
 cache forgets; the specification is the whole list of sightings. The clock is
 read once a call and passed in.
 */
module Blockhash {
  import opened Wrappers

  datatype Pair = Pair(blockhash: string, slot: nat)

  datatype Sighting = Sighting(pair: Pair, at: nat)

  datatype Cache = Cache(seen: map<Pair, nat>, current: Option<Sighting>)

  const BLOCKHASH_VALIDITY_MILLIS := 75_000

  function Elapsed(since: nat, now: nat): nat {
    if now > since then now - since else 0
  }

  function Pruned(seen: map<Pair, nat>, validity: nat, now: nat): map<Pair, nat> {
    map p | p in seen && Elapsed(seen[p], now) < validity :: seen[p]
  }

  function Observed(cache: Cache, validity: nat, s: Sighting): Cache {
    Cache(Pruned(cache.seen, validity, s.at)[s.pair := s.at],
          if cache.current.None? || s.pair.slot > cache.current.value.pair.slot then Some(s) else cache.current)
  }

  /** Whether this sighting is one to rebroadcast. */
  predicate IsFirst(cache: Cache, validity: nat, s: Sighting) {
    s.pair !in Pruned(cache.seen, validity, s.at)
  }

  function CurrentOf(cache: Cache, validity: nat, now: nat): Option<Pair> {
    match cache.current
    case None => None
    case Some(s) => if Elapsed(s.at, now) < validity then Some(s.pair) else None
  }

  class BlockhashCache {
    var seen: map<Pair, nat>
    var current: Option<Sighting>
    const validity: nat

    function State(): Cache
      reads this
    {
      Cache(seen, current)
    }

    constructor (validity: nat)
      ensures this.validity == validity && State() == Cache(map[], None)
    {
      this.validity := validity;
      seen := map[];
      current := None;
    }

    method PruneExpired(now: nat)
      modifies this`seen
      ensures seen == Pruned(old(seen), validity, now)
    {
      seen := map p | p in seen && Elapsed(seen[p], now) < validity :: seen[p];
    }

    method Observe(pair: Pair, now: nat) returns (firstSeen: bool)
      modifies this
      ensures firstSeen <==> IsFirst(old(State()), validity, Sighting(pair, now))
      ensures State() == Observed(old(State()), validity, Sighting(pair, now))
    {
      PruneExpired(now);
      firstSeen := pair !in seen;
      seen := seen[pair := now];
      if current.None? || pair.slot > current.value.pair.slot {
        current := Some(Sighting(pair, now));
      }
    }

    method Current(now: nat) returns (r: Option<Pair>)
      ensures r == CurrentOf(State(), validity, now)
    {
      r := None;
      if current.Some? && Elapsed(current.value.at, now) < validity {
        r := Some(current.value.pair);
      }
    }

    method CurrentAge(now: nat) returns (r: Option<nat>)
      ensures r.Some? <==> CurrentOf(State(), validity, now).Some?
      ensures r.Some? ==> current.Some? && r.value == Elapsed(current.value.at, now) < validity
    {
      r := None;
      if current.Some? && Elapsed(current.value.at, now) < validity {
        r := Some(Elapsed(current.value.at, now));
      }
    }
  }

  // ---- The whole history ----

  function Replay(history: seq<Sighting>, validity: nat): Cache {
    if history == [] then Cache(map[], None)
    else Observed(Replay(history[..|history| - 1], validity), validity, history[|history| - 1])
  }

  /** When `pair` was last sighted. */
  function LastSeen(history: seq<Sighting>, pair: Pair): Option<nat> {
    if history == [] then None
    else if history[|history| - 1].pair == pair then Some(history[|history| - 1].at)
    else LastSeen(history[..|history| - 1], pair)
  }

  ghost predicate InOrder(history: seq<Sighting>) {
    forall i, j :: 0 <= i < j < |history| ==> history[i].at <= history[j].at
  }

  /** The cache holds last sightings, and whatever it forgot had expired when it last looked. */
  ghost predicate Remembers(history: seq<Sighting>, cache: Cache, validity: nat) {
    && (forall p :: p in cache.seen ==> LastSeen(history, p) == Some(cache.seen[p]))
    && (forall p :: LastSeen(history, p).Some? && p !in cache.seen ==>
          history != [] && history[|history| - 1].at >= LastSeen(history, p).value + validity)
  }

  lemma {:induction false} LastSeenIsPast(history: seq<Sighting>, p: Pair)
    requires InOrder(history) && LastSeen(history, p).Some?
    ensures history != [] && LastSeen(history, p).value <= history[|history| - 1].at
  {
    if history[|history| - 1].pair != p {
      LastSeenIsPast(history[..|history| - 1], p);
    }
  }

  lemma {:induction false} ReplayRemembers(history: seq<Sighting>, validity: nat)
    requires InOrder(history)
    ensures Remembers(history, Replay(history, validity), validity)
  {
    if history != [] {
      var n := |history| - 1;
      var h, s := history[..n], history[n];
      ReplayRemembers(h, validity);
      var cache := Replay(h, validity);
      forall p | LastSeen(history, p).Some? && p !in Observed(cache, validity, s).seen
        ensures s.at >= LastSeen(history, p).value + validity
      {
        LastSeenIsPast(h, p);
        assert p in cache.seen || h[n - 1].at >= LastSeen(h, p).value + validity;
      }
    }
  }

  /**
   The pruned cache answers as the whole history would: a sighting is to be
   rebroadcast exactly when its pair was never seen, or last seen at least
   `validity` ago.
   */
  lemma FirstIffUnseenOrExpired(history: seq<Sighting>, validity: nat, s: Sighting)
    requires InOrder(history + [s])
    ensures IsFirst(Replay(history, validity), validity, s) <==>
      match LastSeen(history, s.pair) case None => true case Some(t) => s.at >= t + validity
  {
    assert InOrder(history) by {
      forall i, j | 0 <= i < j < |history|
        ensures history[i].at <= history[j].at
      {
        assert (history + [s])[i].at <= (history + [s])[j].at;
      }
    }
    ReplayRemembers(history, validity);
    if LastSeen(history, s.pair).Some? {
      LastSeenIsPast(history, s.pair);
      var n := |history|;
      assert (history + [s])[n - 1].at <= (history + [s])[n].at;
    }
  }

  // ---- Which blockhash is current ----

  /** `k` is the first sighting of the highest slot ever seen. */
  ghost predicate IsFirstOfHighest(history: seq<Sighting>, k: nat) {
    && k < |history|
    && (forall j :: 0 <= j < |history| ==> history[j].pair.slot <= history[k].pair.slot)
    && (forall j :: 0 <= j < k ==> history[j].pair.slot < history[k].pair.slot)
  }

  lemma {:induction false} CurrentIsFirstOfHighest(history: seq<Sighting>, validity: nat) returns (k: nat)
    requires history != []
    ensures IsFirstOfHighest(history, k)
    ensures Replay(history, validity).current == Some(history[k])
  {
    var n := |history| - 1;
    if n == 0 {
      k := 0;
    } else {
      k := CurrentIsFirstOfHighest(history[..n], validity);
      if history[n].pair.slot > history[k].pair.slot {
        k := n;
      }
    }
  }

  ghost predicate Unexpired(history: seq<Sighting>, validity: nat, now: nat, i: nat) {
    i < |history| && Elapsed(history[i].at, now) < validity
  }

  /** What the documentation promises: the highest-slot, not-yet-expired blockhash seen so far. */
  ghost predicate HighestUnexpired(history: seq<Sighting>, validity: nat, now: nat, r: Option<Pair>) {
    match r
    case None => forall i: nat :: !Unexpired(history, validity, now, i)
    case Some(p) =>
      && (exists i: nat :: Unexpired(history, validity, now, i) && history[i].pair == p)
      && (forall i: nat :: Unexpired(history, validity, now, i) ==> history[i].pair.slot <= p.slot)
  }

  /** The code meets that promise exactly when the highest slot's first sighting is unexpired, or all have expired. */
  lemma CurrentMeetsPromiseIff(history: seq<Sighting>, validity: nat, now: nat, k: nat)
    requires IsFirstOfHighest(history, k)
    ensures HighestUnexpired(history, validity, now, CurrentOf(Replay(history, validity), validity, now)) <==>
      Unexpired(history, validity, now, k) || forall i: nat :: !Unexpired(history, validity, now, i)
  {
    var j := CurrentIsFirstOfHighest(history, validity);
    assert j == k;
    if Unexpired(history, validity, now, k) {
      assert history[k].pair == CurrentOf(Replay(history, validity), validity, now).value;
    }
  }

  /** It does not otherwise: a lower slot sighted a moment ago is passed over for a higher one long expired. */
  lemma StaleHighSlotHidesFreshOne(validity: nat) returns (history: seq<Sighting>, now: nat)
    requires validity > 0
    ensures InOrder(history) && CurrentOf(Replay(history, validity), validity, now).None?
    ensures exists i: nat :: Unexpired(history, validity, now, i)
  {
    var high, low := Sighting(Pair("hash-new", 200), 0), Sighting(Pair("hash-old", 100), validity);
    history, now := [high, low], validity;
    var k := CurrentIsFirstOfHighest(history, validity);
    assert k == 0;
    assert Unexpired(history, validity, now, 1);
  }
}
