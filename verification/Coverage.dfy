/**
 How far a blockhash announcement spreads. What is sent is heard, if nothing is
 lost; and in a network small enough for the budget of hops, whose connections
 hold still, an announcement reaches everyone the announcer is connected to,
 however the flood is interleaved and however much of it the caches suppress.
 */
module Coverage {
  import opened Wrappers
  import opened Blockhash
  import opened Flood
  import Graph

  // ---- What is sent is heard ----

  /** Node `n` has seen `pair`, by announcing it or by receiving it. */
  ghost predicate SightedBy(cfg: Config, steps: seq<Step>, n: NodeId, pair: Pair) {
    exists i :: 0 <= i < |steps| && SightsAt(cfg, steps, i, n, pair)
  }

  ghost predicate SightsAt(cfg: Config, steps: seq<Step>, i: nat, n: NodeId, pair: Pair)
    requires i < |steps|
  {
    Sights(After(cfg, steps[..i]), steps[i]) == Some((n, Sighting(pair, steps[i].at)))
  }

  /** An event id is the hash of what it carries: one id, one pair. */
  ghost predicate NamesPairs(content: EventId -> Pair, steps: seq<Step>) {
    forall i :: 0 <= i < |steps| ==>
      match steps[i].act
      case Announce(_, id, pair, _) => pair == content(id)
      case Inject(m) => m.pair == content(m.id)
      case _ => true
  }

  lemma SightedEarlier(cfg: Config, steps: seq<Step>, k: nat, n: NodeId, pair: Pair)
    requires k <= |steps| && SightedBy(cfg, steps[..k], n, pair)
    ensures SightedBy(cfg, steps, n, pair)
  {
    hide After;
    var i :| 0 <= i < k && SightsAt(cfg, steps[..k], i, n, pair);
    assert steps[..k][..i] == steps[..i];
    assert SightsAt(cfg, steps, i, n, pair);
  }

  lemma SentNames(cfg: Config, content: EventId -> Pair, net: Net, step: Step, m: Message)
    requires NamesPairs(content, [step]) && m in Sent(cfg, net, step)
    requires forall d :: d in net.flight ==> d.pair == content(d.id)
    ensures m.pair == content(m.id)
  {
    assert [step][0] == step;
    match step.act
    case Announce(_, _, _, _) =>
      AnnouncementGoesToPeers(cfg, net, step, m);
    case Deliver(i) =>
      ForwardSpendsAHop(cfg, net, step, m);
    case _ =>
  }

  lemma {:induction false} FlightNames(cfg: Config, content: EventId -> Pair, steps: seq<Step>, m: Message)
    requires NamesPairs(content, steps) && m in After(cfg, steps).flight
    ensures m.pair == content(m.id)
  {
    if steps == [] {
      return;
    }
    var k := |steps| - 1;
    assert steps[k..] == [steps[k]] && NamesPairs(content, [steps[k]]);
    hide After, Sent;
    WasSentOrThere(cfg, steps, m);
    forall d | d in After(cfg, steps[..k]).flight
      ensures d.pair == content(d.id)
    {
      FlightNames(cfg, content, steps[..k], d);
    }
    if m !in After(cfg, steps[..k]).flight {
      SentNames(cfg, content, After(cfg, steps[..k]), steps[k], m);
    }
  }

  /** What a node's log holds, the node has seen. */
  lemma {:induction false} StoredWasSighted(cfg: Config, content: EventId -> Pair, steps: seq<Step>, n: NodeId,
                                            id: EventId)
    requires NamesPairs(content, steps) && (n, id) in After(cfg, steps).stored
    ensures SightedBy(cfg, steps, n, content(id))
  {
    if steps == [] {
      return;
    }
    var k := |steps| - 1;
    var before := After(cfg, steps[..k]);
    if (n, id) in before.stored {
      StoredWasSighted(cfg, content, steps[..k], n, id);
      SightedEarlier(cfg, steps, k, n, content(id));
    } else {
      if steps[k].act.Deliver? {
        FlightNames(cfg, content, steps[..k], before.flight[steps[k].act.index]);
      }
      assert SightsAt(cfg, steps, k, n, content(id));
    }
  }

  /** Step `j` takes a copy of `m` off the wire. */
  ghost predicate TakesOff(cfg: Config, steps: seq<Step>, j: nat, m: Message)
    requires j < |steps|
  {
    var flight, act := After(cfg, steps[..j]).flight, steps[j].act;
    (act.Deliver? || act.Lose?) && act.index < |flight| && flight[act.index] == m
  }

  lemma StaysOrIsTaken(cfg: Config, net: Net, step: Step, m: Message)
    requires m in net.flight && m !in Next(cfg, net, step).flight
    ensures (step.act.Deliver? || step.act.Lose?) && step.act.index < |net.flight| && net.flight[step.act.index] == m
  {
    hide Sent, Sights;
    var i :| 0 <= i < |net.flight| && net.flight[i] == m;
  }

  lemma AfterLast(cfg: Config, steps: seq<Step>)
    requires steps != []
    ensures After(cfg, steps) == Next(cfg, After(cfg, steps[..|steps| - 1]), steps[|steps| - 1])
  {
  }

  lemma {:induction false} LeavesWhenTaken(cfg: Config, steps: seq<Step>, k: nat, m: Message)
    requires k <= |steps| && m in After(cfg, steps[..k]).flight && m !in After(cfg, steps).flight
    ensures exists j :: k <= j < |steps| && TakesOff(cfg, steps, j, m)
  {
    hide After, Next;
    assert steps[..|steps|] == steps;
    var last := |steps| - 1;
    assert steps[..last][..k] == steps[..k];
    if m in After(cfg, steps[..last]).flight {
      AfterLast(cfg, steps);
      StaysOrIsTaken(cfg, After(cfg, steps[..last]), steps[last], m);
      assert TakesOff(cfg, steps, last, m);
    } else {
      LeavesWhenTaken(cfg, steps[..last], k, m);
      var j :| k <= j < last && TakesOff(cfg, steps[..last], j, m);
      assert steps[..last][..j] == steps[..j];
      assert TakesOff(cfg, steps, j, m);
    }
  }

  /** Whatever is delivered has been seen by the node it was for, there and then or before. */
  lemma DeliveredIsSighted(cfg: Config, content: EventId -> Pair, steps: seq<Step>, j: nat, m: Message)
    requires NamesPairs(content, steps) && j < |steps| && TakesOff(cfg, steps, j, m) && steps[j].act.Deliver?
    ensures SightedBy(cfg, steps, m.to, m.pair)
  {
    var net := After(cfg, steps[..j]);
    FlightNames(cfg, content, steps[..j], m);
    if (m.to, m.id) in net.stored {
      StoredWasSighted(cfg, content, steps[..j], m.to, m.id);
      SightedEarlier(cfg, steps, j, m.to, m.pair);
    } else {
      assert SightsAt(cfg, steps, j, m.to, m.pair);
    }
  }

  ghost predicate NothingLost(steps: seq<Step>) {
    forall i :: 0 <= i < |steps| ==> !steps[i].act.Lose?
  }

  lemma SentIsInFlight(cfg: Config, steps: seq<Step>, k: nat, m: Message)
    requires k < |steps| && m in Sent(cfg, After(cfg, steps[..k]), steps[k])
    ensures m in After(cfg, steps[..k + 1]).flight
  {
    hide After, Sent, Sights;
    AfterLast(cfg, steps[..k + 1]);
    assert steps[..k + 1][..k] == steps[..k];
  }

  lemma TakenIsDelivered(cfg: Config, steps: seq<Step>, j: nat, m: Message)
    requires NothingLost(steps) && j < |steps| && TakesOff(cfg, steps, j, m)
    ensures steps[j].act.Deliver?
  {
  }

  /** In a run that loses nothing, a message that is no longer on the wire has been heard. */
  lemma SentIsHeard(cfg: Config, content: EventId -> Pair, steps: seq<Step>, k: nat, m: Message)
    requires NamesPairs(content, steps) && NothingLost(steps)
    requires k < |steps| && m in Sent(cfg, After(cfg, steps[..k]), steps[k]) && m !in After(cfg, steps).flight
    ensures SightedBy(cfg, steps, m.to, m.pair)
  {
    hide After, Sent, Next, TakesOff, SightedBy;
    SentIsInFlight(cfg, steps, k, m);
    LeavesWhenTaken(cfg, steps, k + 1, m);
    var j :| k + 1 <= j < |steps| && TakesOff(cfg, steps, j, m);
    TakenIsDelivered(cfg, steps, j, m);
    DeliveredIsSighted(cfg, content, steps, j, m);
  }

  /**
   Once the wire has run dry without loss, every peer an announcer had when its announcement was accepted has seen the
   pair, whatever else went on.
   */
  lemma EveryPeerHears(cfg: Config, content: EventId -> Pair, steps: seq<Step>, k: nat, p: NodeId)
    requires NamesPairs(content, steps) && NothingLost(steps) && After(cfg, steps).flight == []
    requires k < |steps| && steps[k].act.Announce? && steps[k].act.accepted
    requires p in PeersOf(After(cfg, steps[..k]), steps[k].act.node)
    ensures SightedBy(cfg, steps, p, steps[k].act.pair)
  {
    hide After, Sent;
    var Announce(n, id, pair, _) := steps[k].act;
    var m := Message(p, n, id, pair, ANNOUNCE_TTL);
    AnnouncementGoesToPeers(cfg, After(cfg, steps[..k]), steps[k], m);
    SentIsHeard(cfg, content, steps, k, m);
  }

  // ---- Who has seen a pair ----

  /** The nodes that have seen `pair`. */
  ghost function Sighters(cfg: Config, steps: seq<Step>, pair: Pair): set<NodeId> {
    if steps == [] then {}
    else
      var k := |steps| - 1;
      var before := Sighters(cfg, steps[..k], pair);
      match Sights(After(cfg, steps[..k]), steps[k])
      case Some((n, s)) => if s.pair == pair then before + {n} else before
      case None => before
  }

  lemma {:induction false} SightersIff(cfg: Config, steps: seq<Step>, pair: Pair, n: NodeId)
    ensures n in Sighters(cfg, steps, pair) <==> SightedBy(cfg, steps, n, pair)
  {
    hide After, Sights;
    if steps != [] {
      var k := |steps| - 1;
      SightersIff(cfg, steps[..k], pair, n);
      SightingNow(cfg, steps, k);
      if SightedBy(cfg, steps[..k], n, pair) {
        SightedEarlier(cfg, steps, k, n, pair);
      }
      if i :| 0 <= i < |steps| && SightsAt(cfg, steps, i, n, pair) {
        if i < k {
          assert steps[..k][..i] == steps[..i];
          assert SightsAt(cfg, steps[..k], i, n, pair);
        }
      }
      assert SightsAt(cfg, steps, k, n, pair) ==> SightedBy(cfg, steps, n, pair);
    }
  }

  lemma SightingNow(cfg: Config, steps: seq<Step>, k: nat)
    requires k < |steps|
    ensures match Sights(After(cfg, steps[..k]), steps[k]) case None => true case Some((n, s)) => s.at == steps[k].at
  {
  }

  lemma {:induction false} SightersGrow(cfg: Config, steps: seq<Step>, k: nat, pair: Pair)
    requires k <= |steps|
    ensures Sighters(cfg, steps[..k], pair) <= Sighters(cfg, steps, pair)
  {
    hide After, Sights;
    if k == |steps| {
      assert steps[..k] == steps;
    } else {
      var last := |steps| - 1;
      assert steps[..last][..k] == steps[..k];
      SightersGrow(cfg, steps[..last], k, pair);
    }
  }

  // ---- Inside one window the cache knows exactly who has seen what ----

  lemma {:induction false} RememberedWasSighted(cfg: Config, steps: seq<Step>, n: NodeId, pair: Pair)
    requires LastSeen(History(cfg, steps, n), pair).Some?
    ensures n in Sighters(cfg, steps, pair)
  {
    hide After, Sights;
    if steps != [] {
      var k := |steps| - 1;
      var h := History(cfg, steps[..k], n);
      match Sights(After(cfg, steps[..k]), steps[k])
      case None =>
        RememberedWasSighted(cfg, steps[..k], n, pair);
      case Some((m, s)) =>
        LastSeenAppend(h, s, pair);
        if !(m == n && s.pair == pair) {
          RememberedWasSighted(cfg, steps[..k], n, pair);
        }
    }
  }

  /** A sighting is new to its node exactly when the node has not seen the pair in this run. */
  lemma NewIffNotSighter(cfg: Config, steps: seq<Step>, i: nat, n: NodeId, pair: Pair)
    requires InOneWindow(cfg, steps) && i < |steps| && SightsAt(cfg, steps, i, n, pair)
    ensures IsFirst(CacheAt(After(cfg, steps[..i]), n), cfg.validity, Sighting(pair, steps[i].at)) <==>
            n !in Sighters(cfg, steps[..i], pair)
  {
    hide After, Sights, Replay, LastSeen, History, Sighters;
    var run, s := steps[..i], Sighting(pair, steps[i].at);
    var h := History(cfg, run, n);
    CacheIsReplay(cfg, run, n);
    HistoryInOrder(cfg, run, n);
    assert InOrder(h + [s]) by {
      assert forall k :: 0 <= k < |h| ==> h[k] in h;
    }
    FirstIffUnseenOrExpired(h, cfg.validity, s);
    SightersIff(cfg, run, pair, n);
    if n in Sighters(cfg, run, pair) {
      var k :| 0 <= k < i && SightsAt(cfg, run, k, n, pair);
      SightingIsRemembered(cfg, run, k, n, Sighting(pair, run[k].at));
    } else if LastSeen(h, pair).Some? {
      RememberedWasSighted(cfg, run, n, pair);
    }
  }

  // ---- A message that has travelled far has left many sighters behind ----

  /** Who sent it has seen it, and at least as many have as it has spent hops. */
  ghost predicate IsTrailed(cfg: Config, steps: seq<Step>, m: Message) {
    && m.from in Sighters(cfg, steps, m.pair)
    && 1 <= m.ttl <= ANNOUNCE_TTL
    && |Sighters(cfg, steps, m.pair)| >= ANNOUNCE_TTL + 1 - m.ttl
  }

  /** No stranger injects this pair. */
  ghost predicate NotInjected(steps: seq<Step>, pair: Pair) {
    forall i :: 0 <= i < |steps| && steps[i].act.Inject? ==> steps[i].act.message.pair != pair
  }

  lemma TrailGrows(cfg: Config, steps: seq<Step>, m: Message)
    requires steps != [] && IsTrailed(cfg, steps[..|steps| - 1], m)
    ensures IsTrailed(cfg, steps, m)
  {
    hide Sighters;
    SightersGrow(cfg, steps, |steps| - 1, m.pair);
    SubsetSize(Sighters(cfg, steps[..|steps| - 1], m.pair), Sighters(cfg, steps, m.pair));
  }

  lemma WindowStart(cfg: Config, steps: seq<Step>, k: nat)
    requires InOneWindow(cfg, steps) && k <= |steps|
    ensures InOneWindow(cfg, steps[..k])
  {
  }

  lemma {:induction false} FlightIsTrailed(cfg: Config, steps: seq<Step>, m: Message)
    requires InOneWindow(cfg, steps) && NotInjected(steps, m.pair) && m in After(cfg, steps).flight
    ensures IsTrailed(cfg, steps, m)
  {
    if steps == [] {
      return;
    }
    hide After, Sent, IsTrailed, InOneWindow;
    var k := |steps| - 1;
    var before := After(cfg, steps[..k]);
    WasSentOrThere(cfg, steps, m);
    WindowStart(cfg, steps, k);
    if m in before.flight {
      FlightIsTrailed(cfg, steps[..k], m);
      TrailGrows(cfg, steps, m);
    } else if steps[k].act.Announce? {
      AnnouncedIsTrailed(cfg, steps, m);
    } else {
      SentHops(cfg, before, steps[k]);
      assert steps[k].act.Deliver?;
      var d := before.flight[steps[k].act.index];
      ForwardKeepsPair(cfg, before, steps[k], m);
      FlightIsTrailed(cfg, steps[..k], d);
      ForwardedIsTrailed(cfg, steps, d, m);
    }
  }

  lemma AnnouncedIsTrailed(cfg: Config, steps: seq<Step>, m: Message)
    requires steps != [] && steps[|steps| - 1].act.Announce?
    requires m in Sent(cfg, After(cfg, steps[..|steps| - 1]), steps[|steps| - 1])
    ensures IsTrailed(cfg, steps, m)
  {
    var k := |steps| - 1;
    AnnouncementGoesToPeers(cfg, After(cfg, steps[..k]), steps[k], m);
    hide After, Sent;
    SubsetSize({m.from}, Sighters(cfg, steps, m.pair));
  }

  lemma ForwardKeepsPair(cfg: Config, net: Net, step: Step, m: Message)
    requires step.act.Deliver? && step.act.index < |net.flight| && m in Sent(cfg, net, step)
    ensures Forwards(cfg, net, step)
    ensures var d := net.flight[step.act.index];
            m.pair == d.pair && m.from == d.to && Capped(d.ttl) > 1 && m.ttl == Capped(d.ttl) - 1
  {
    ForwardSpendsAHop(cfg, net, step, m);
  }

  lemma ForwardedIsTrailed(cfg: Config, steps: seq<Step>, d: Message, m: Message)
    requires InOneWindow(cfg, steps) && steps != [] && steps[|steps| - 1].act.Deliver?
    requires var k := |steps| - 1; var net := After(cfg, steps[..k]);
             && steps[k].act.index < |net.flight| && net.flight[steps[k].act.index] == d
             && Forwards(cfg, net, steps[k])
    requires IsTrailed(cfg, steps[..|steps| - 1], d)
    requires m.pair == d.pair && m.from == d.to && m.ttl == Capped(d.ttl) - 1 && m.ttl > 0
    ensures IsTrailed(cfg, steps, m)
  {
    var k := |steps| - 1;
    assert SightsAt(cfg, steps, k, d.to, d.pair);
    NewIffNotSighter(cfg, steps, k, d.to, d.pair);
    hide After;
    assert Sighters(cfg, steps, d.pair) == Sighters(cfg, steps[..k], d.pair) + {d.to};
  }

  // ---- The reach of a flood ----

  /** The run is one announcement's: in one window, nothing lost, one id a pair, all within the network. */
  ghost predicate IsClean(cfg: Config, content: EventId -> Pair, pairs: set<Pair>, steps: seq<Step>) {
    && InOneWindow(cfg, steps) && NothingLost(steps) && NamesPairs(content, steps)
    && Wired(cfg, steps) && Within(cfg, pairs, steps)
    && forall i :: 0 <= i < |steps| && steps[i].act.Announce? ==> steps[i].act.node in cfg.nodes
  }

  /** From step `k` on connections hold still, and nobody had seen `pair` before; no announcement of it is refused. */
  ghost predicate IsSettled(cfg: Config, steps: seq<Step>, k: nat, pair: Pair) {
    && k <= |steps|
    && Sighters(cfg, steps[..k], pair) == {}
    && (forall i :: k <= i < |steps| ==> !steps[i].act.Rewire?)
    && (forall i :: 0 <= i < |steps| && steps[i].act.Announce? && steps[i].act.pair == pair ==> steps[i].act.accepted)
  }

  lemma {:induction false} SightersInNetwork(cfg: Config, content: EventId -> Pair, pairs: set<Pair>, steps: seq<Step>,
                                             k: nat, pair: Pair)
    requires IsClean(cfg, content, pairs, steps) && k <= |steps|
    ensures Sighters(cfg, steps[..k], pair) <= cfg.nodes
  {
    if k > 0 {
      SightersInNetwork(cfg, content, pairs, steps, k - 1, pair);
      assert steps[..k][..k - 1] == steps[..k - 1];
      RunStaysWithin(cfg, pairs, steps[..k - 1]);
    }
  }

  lemma {:induction false} PeersHoldStill(cfg: Config, steps: seq<Step>, i: nat, n: NodeId)
    requires i <= |steps| && forall j :: i <= j < |steps| ==> !steps[j].act.Rewire?
    ensures PeersOf(After(cfg, steps[..i]), n) == PeersOf(After(cfg, steps), n)
  {
    if i == |steps| {
      assert steps[..i] == steps;
    } else {
      var last := |steps| - 1;
      assert steps[..last][..i] == steps[..i];
      PeersHoldStill(cfg, steps[..last], i, n);
    }
  }

  /** The step at which a sighter first saw the pair. */
  lemma {:induction false} FirstSighting(cfg: Config, steps: seq<Step>, n: NodeId, pair: Pair) returns (i: nat)
    requires n in Sighters(cfg, steps, pair)
    ensures i < |steps| && SightsAt(cfg, steps, i, n, pair) && n !in Sighters(cfg, steps[..i], pair)
  {
    var k := |steps| - 1;
    SightingNow(cfg, steps, k);
    hide After, Sights;
    if n in Sighters(cfg, steps[..k], pair) {
      i := FirstSighting(cfg, steps[..k], n, pair);
      assert steps[..k][..i] == steps[..i];
    } else {
      i := k;
    }
  }

  /** In a network of at most nine, the peers of whoever has seen the pair have seen it too. */
  lemma PeersOfSightersSight(cfg: Config, content: EventId -> Pair, pairs: set<Pair>, steps: seq<Step>, k: nat,
                             pair: Pair, n: NodeId, p: NodeId)
    requires IsClean(cfg, content, pairs, steps) && IsSettled(cfg, steps, k, pair) && NotInjected(steps, pair)
    requires |cfg.nodes| <= ANNOUNCE_TTL + 1 && After(cfg, steps).flight == []
    requires n in Sighters(cfg, steps, pair) && p in PeersOf(After(cfg, steps), n)
    ensures p in Sighters(cfg, steps, pair)
  {
    hide After, Sights, Sighters, Sent, InOneWindow, NamesPairs, Within;
    var i := FirstSighting(cfg, steps, n, pair);
    SettledSince(cfg, steps, k, pair, i, n);
    PeersHoldStill(cfg, steps, i, n);
    SightersIff(cfg, steps, pair, p);
    SightingStep(cfg, steps, i, n, pair);
    if steps[i].act.Announce? {
      EveryPeerHears(cfg, content, steps, i, p);
    } else {
      PeersOfReceiverSight(cfg, content, pairs, steps, i, pair, n, p);
    }
  }

  lemma SightingStep(cfg: Config, steps: seq<Step>, i: nat, n: NodeId, pair: Pair)
    requires i < |steps| && SightsAt(cfg, steps, i, n, pair)
    ensures steps[i].act.Announce? ==> steps[i].act.node == n && steps[i].act.pair == pair
    ensures !steps[i].act.Announce? ==>
      && steps[i].act.Deliver? && steps[i].act.index < |After(cfg, steps[..i]).flight|
      && var d := After(cfg, steps[..i]).flight[steps[i].act.index]; d.to == n && d.pair == pair
  {
  }

  lemma SettledSince(cfg: Config, steps: seq<Step>, k: nat, pair: Pair, i: nat, n: NodeId)
    requires IsSettled(cfg, steps, k, pair) && i < |steps| && SightsAt(cfg, steps, i, n, pair)
    ensures k <= i
  {
    if i < k {
      assert steps[..k][..i] == steps[..i];
      assert SightsAt(cfg, steps[..k], i, n, pair);
      SightersIff(cfg, steps[..k], pair, n);
    }
  }

  lemma PeersOfReceiverSight(cfg: Config, content: EventId -> Pair, pairs: set<Pair>, steps: seq<Step>, i: nat,
                             pair: Pair, n: NodeId, p: NodeId)
    requires IsClean(cfg, content, pairs, steps) && NotInjected(steps, pair)
    requires |cfg.nodes| <= ANNOUNCE_TTL + 1 && After(cfg, steps).flight == []
    requires i < |steps| && steps[i].act.Deliver? && steps[i].act.index < |After(cfg, steps[..i]).flight|
    requires var d := After(cfg, steps[..i]).flight[steps[i].act.index]; d.to == n && d.pair == pair
    requires SightsAt(cfg, steps, i, n, pair) && n !in Sighters(cfg, steps[..i], pair)
    requires p in PeersOf(After(cfg, steps[..i]), n)
    ensures p in Sighters(cfg, steps, pair)
  {
    var net := After(cfg, steps[..i]);
    var d := net.flight[steps[i].act.index];
    NewIffNotSighter(cfg, steps, i, n, pair);
    assert Forwards(cfg, net, steps[i]);
    hide After, Sights, Sighters, Sent, Forwards;
    WindowStart(cfg, steps, i);
    FlightIsTrailed(cfg, steps[..i], d);
    SightersGrow(cfg, steps, i, pair);
    if p != d.from && d.ttl > 1 {
      var m := Message(p, n, d.id, pair, Capped(d.ttl) - 1);
      ForwardSpendsAHop(cfg, net, steps[i], m);
      SentIsHeard(cfg, content, steps, i, m);
      SightersIff(cfg, steps, pair, p);
    } else if d.ttl == 1 {
      LastHopKnowsAll(cfg, content, pairs, steps, i, pair, n, p);
    }
  }

  /** A message on its last hop has been through every other node. */
  lemma LastHopKnowsAll(cfg: Config, content: EventId -> Pair, pairs: set<Pair>, steps: seq<Step>, i: nat,
                        pair: Pair, n: NodeId, p: NodeId)
    requires IsClean(cfg, content, pairs, steps) && i < |steps|
    requires |cfg.nodes| <= ANNOUNCE_TTL + 1 && |Sighters(cfg, steps[..i], pair)| >= ANNOUNCE_TTL
    requires SightsAt(cfg, steps, i, n, pair) && n !in Sighters(cfg, steps[..i], pair)
    requires p in PeersOf(After(cfg, steps[..i]), n)
    ensures p in Sighters(cfg, steps, pair)
  {
    hide After, Sights, Sighters;
    var before := Sighters(cfg, steps[..i], pair);
    SightersInNetwork(cfg, content, pairs, steps, i, pair);
    SightersInNetwork(cfg, content, pairs, steps, |steps|, pair);
    assert steps[..|steps|] == steps;
    SightersGrow(cfg, steps, i, pair);
    assert SightedBy(cfg, steps, n, pair);
    SightersIff(cfg, steps, pair, n);
    PeersStayWired(cfg, steps[..i], n);
    SubsetSize(before + {n}, cfg.nodes);
  }

  /**
   A pair announced in a network of at most nine nodes, one more than its budget of hops, is seen by every node that can
   be reached from the announcer along connections, once the wire has run dry.
   */
  lemma FloodReachesEveryone(cfg: Config, content: EventId -> Pair, pairs: set<Pair>, steps: seq<Step>, k: nat,
                             pair: Pair, n: NodeId, p: NodeId)
    requires IsClean(cfg, content, pairs, steps) && IsSettled(cfg, steps, k, pair) && NotInjected(steps, pair)
    requires |cfg.nodes| <= ANNOUNCE_TTL + 1 && After(cfg, steps).flight == []
    requires SightedBy(cfg, steps, n, pair)
    requires Graph.Reachable(v => PeersOf(After(cfg, steps), v), n, p)
    ensures SightedBy(cfg, steps, p, pair)
  {
    hide After, Sights, Sighters, IsClean, IsSettled, NotInjected;
    var kids := (v: NodeId) => PeersOf(After(cfg, steps), v);
    var s := iset v | v in Sighters(cfg, steps, pair);
    forall v, w | v in s && w in kids(v)
      ensures w in s
    {
      PeersOfSightersSight(cfg, content, pairs, steps, k, pair, v, w);
    }
    SightersIff(cfg, steps, pair, n);
    SightersIff(cfg, steps, pair, p);
    Graph.ReachableStaysIn(kids, s, n, p);
  }
}
