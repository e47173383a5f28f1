/**
 Blockhash announcements flooding a gossip network. Every node keeps a blockhash
 cache and uses it as its forward filter; messages are delivered in any order,
 lost, duplicated and replayed; connections come and go; and nodes forget events
 their logs have pruned. A run is any list of such steps under one clock that
 never goes back.
 */
module Flood {
  import opened Wrappers
  import opened Blockhash
  import MachineInt

  type NodeId = nat
  type EventId = nat

  const ANNOUNCE_TTL: nat := 8
  const MAX_TTL: nat := 16

  /** Who may be in the network, how many peers a node may have at once, and how long a pair stays seen. */
  datatype Config = Config(nodes: set<NodeId>, degree: nat, validity: nat)

  ghost predicate IsWiring(cfg: Config, peers: seq<NodeId>) {
    |peers| <= cfg.degree && forall p :: p in peers ==> p in cfg.nodes
  }

  datatype Message = Message(to: NodeId, from: NodeId, id: EventId, pair: Pair, ttl: nat)

  /** Each node's cache, the events in its log, its peers of the moment, and the messages on the wire. */
  datatype Net = Net(
    caches: map<NodeId, Cache>,
    stored: set<(NodeId, EventId)>,
    peers: map<NodeId, seq<NodeId>>,
    flight: seq<Message>)

  datatype Action =
    | Announce(node: NodeId, id: EventId, pair: Pair, accepted: bool)
    | Deliver(index: nat)
    | Lose(index: nat)
    | Inject(message: Message)
    | Forget(node: NodeId, id: EventId)
    | Rewire(node: NodeId, peers: seq<NodeId>)

  datatype Step = Step(at: nat, act: Action)

  const QUIET := Net(map[], {}, map[], [])

  function CacheAt(net: Net, n: NodeId): Cache {
    if n in net.caches then net.caches[n] else Cache(map[], None)
  }

  function PeersOf(net: Net, n: NodeId): seq<NodeId> {
    if n in net.peers then net.peers[n] else []
  }

  /** One message to each of `peers` but `exclude`. */
  function Messages(peers: seq<NodeId>, exclude: Option<NodeId>, m: Message): (ms: seq<Message>)
    ensures |ms| <= |peers|
  {
    if peers == [] then []
    else
      var rest := Messages(peers[1..], exclude, m);
      if exclude == Some(peers[0]) then rest else [m.(to := peers[0])] + rest
  }

  function Remove<T>(s: seq<T>, i: nat): seq<T>
    requires i < |s|
  {
    s[..i] + s[i + 1..]
  }

  function Capped(ttl: nat): nat {
    if ttl < MAX_TTL then ttl else MAX_TTL
  }

  /** The sighting a step makes its node's cache record, if any: an event already stored stops before the filter. */
  function Sights(net: Net, step: Step): Option<(NodeId, Sighting)> {
    match step.act
    case Announce(n, _, pair, _) => Some((n, Sighting(pair, step.at)))
    case Deliver(i) =>
      if i < |net.flight| && (net.flight[i].to, net.flight[i].id) !in net.stored
      then Some((net.flight[i].to, Sighting(net.flight[i].pair, step.at)))
      else None
    case _ => None
  }

  /** The forward filter of a receiving node lets the event through. */
  predicate Forwards(cfg: Config, net: Net, step: Step) {
    && step.act.Deliver?
    && Sights(net, step).Some?
    && var (n, s) := Sights(net, step).value;
       IsFirst(CacheAt(net, n), cfg.validity, s)
  }

  /** What a step puts on the wire. */
  function Sent(cfg: Config, net: Net, step: Step): (ms: seq<Message>)
  {
    match step.act
    case Announce(n, id, pair, accepted) =>
      if accepted then Messages(PeersOf(net, n), None, Message(n, n, id, pair, ANNOUNCE_TTL)) else []
    case Deliver(i) =>
      if Forwards(cfg, net, step) && Capped(net.flight[i].ttl) > 1 then
        var m := net.flight[i];
        Messages(PeersOf(net, m.to), Some(m.from), m.(from := m.to, ttl := Capped(m.ttl) - 1))
      else []
    case Inject(m) => [m]
    case _ => []
  }

  function Next(cfg: Config, net: Net, step: Step): Net {
    var caches := match Sights(net, step)
                  case None => net.caches
                  case Some((n, s)) => net.caches[n := Observed(CacheAt(net, n), cfg.validity, s)];
    var stored := match step.act
                  case Announce(n, id, _, accepted) => if accepted then net.stored + {(n, id)} else net.stored
                  case Deliver(i) =>
                    if i < |net.flight| then net.stored + {(net.flight[i].to, net.flight[i].id)} else net.stored
                  case Forget(n, id) => net.stored - {(n, id)}
                  case _ => net.stored;
    var kept := if (step.act.Deliver? || step.act.Lose?) && step.act.index < |net.flight|
                then Remove(net.flight, step.act.index) else net.flight;
    var peers := if step.act.Rewire? then net.peers[step.act.node := step.act.peers] else net.peers;
    Net(caches, stored, peers, kept + Sent(cfg, net, step))
  }

  function After(cfg: Config, steps: seq<Step>): Net {
    if steps == [] then QUIET else Next(cfg, After(cfg, steps[..|steps| - 1]), steps[|steps| - 1])
  }

  /** The clock never goes back. */
  ghost predicate Clocked(steps: seq<Step>) {
    forall i, j :: 0 <= i < j < |steps| ==> steps[i].at <= steps[j].at
  }

  /** Connections come and go at any time, within the network and the number a node may have. */
  ghost predicate Wired(cfg: Config, steps: seq<Step>) {
    forall i :: 0 <= i < |steps| && steps[i].act.Rewire? ==> IsWiring(cfg, steps[i].act.peers)
  }

  lemma {:induction false} PeersStayWired(cfg: Config, steps: seq<Step>, n: NodeId)
    requires Wired(cfg, steps)
    ensures IsWiring(cfg, PeersOf(After(cfg, steps), n))
  {
    if steps != [] {
      PeersStayWired(cfg, steps[..|steps| - 1], n);
    }
  }

  // ---- One node's end of it ----

  /** What the forward filter is shown: an announcement it can read, one it cannot, or something else altogether. */
  datatype Event = BlockhashAnnounced(pair: Pair) | UnreadableAnnouncement | OtherEvent

  class ChainBridge {
    const cache: BlockhashCache

    constructor ()
      ensures fresh(cache) && cache.State() == Cache(map[], None)
      ensures cache.validity == BLOCKHASH_VALIDITY_MILLIS
    {
      cache := new BlockhashCache(BLOCKHASH_VALIDITY_MILLIS);
    }

    /** Suppresses an announcement whose content this node has seen, whatever event carries it; passes all else. */
    method ForwardFilter(event: Event, now: nat) returns (forward: bool)
      modifies cache
      ensures !event.BlockhashAnnounced? ==> forward && cache.State() == old(cache.State())
      ensures event.BlockhashAnnounced? ==>
        && (forward <==> IsFirst(old(cache.State()), cache.validity, Sighting(event.pair, now)))
        && cache.State() == Observed(old(cache.State()), cache.validity, Sighting(event.pair, now))
    {
      match event
      case BlockhashAnnounced(pair) =>
        forward := cache.Observe(pair, now);
      case UnreadableAnnouncement =>
        forward := true;
      case OtherEvent =>
        forward := true;
    }

    /** The announcing node records its own sighting; no filter runs for what it originates. */
    method AnnounceBlockhash(pair: Pair, now: nat)
      modifies cache
      ensures cache.State() == Observed(old(cache.State()), cache.validity, Sighting(pair, now))
    {
      var _ := cache.Observe(pair, now);
    }
  }

  // ---- What goes on the wire ----

  /** A broadcast reaches exactly the peers it does not exclude. */
  lemma {:induction false} MessagesReachPeers(peers: seq<NodeId>, exclude: Option<NodeId>, m: Message, sent: Message)
    ensures sent in Messages(peers, exclude, m) <==>
            sent.to in peers && exclude != Some(sent.to) && sent == m.(to := sent.to)
  {
    if peers != [] {
      MessagesReachPeers(peers[1..], exclude, m, sent);
      assert sent.to in peers <==> sent.to == peers[0] || sent.to in peers[1..];
    }
  }

  /**
   A forward carries the same event to exactly the other peers, with one hop less to live than the message that was
   delivered, however large a number that one claimed.
   */
  lemma ForwardSpendsAHop(cfg: Config, net: Net, step: Step, sent: Message)
    requires step.act.Deliver? && step.act.index < |net.flight| && Forwards(cfg, net, step)
    ensures
      var m := net.flight[step.act.index];
      sent in Sent(cfg, net, step) <==>
        && sent.to in PeersOf(net, m.to) && sent.to != m.from
        && m.ttl > 1
        && sent == Message(sent.to, m.to, m.id, m.pair, (if m.ttl < MAX_TTL then m.ttl else MAX_TTL) - 1)
  {
    var m := net.flight[step.act.index];
    if Capped(m.ttl) > 1 {
      MessagesReachPeers(PeersOf(net, m.to), Some(m.from), m.(from := m.to, ttl := Capped(m.ttl) - 1), sent);
    }
  }

  /** An announcement goes to exactly the announcer's peers of the moment, with its full budget, if it is accepted. */
  lemma AnnouncementGoesToPeers(cfg: Config, net: Net, step: Step, sent: Message)
    requires step.act.Announce?
    ensures
      var Announce(n, id, pair, accepted) := step.act;
      sent in Sent(cfg, net, step) <==>
        && accepted
        && sent.to in PeersOf(net, n)
        && sent == Message(sent.to, n, id, pair, ANNOUNCE_TTL)
  {
    var Announce(n, id, pair, accepted) := step.act;
    MessagesReachPeers(PeersOf(net, n), None, Message(n, n, id, pair, ANNOUNCE_TTL), sent);
  }

  /** An announcer sees its own pair, whether or not the announcement is then accepted. */
  lemma AnnouncerSees(cfg: Config, net: Net, step: Step)
    requires step.act.Announce?
    ensures Sights(net, step) == Some((step.act.node, Sighting(step.act.pair, step.at)))
    ensures var cache := CacheAt(Next(cfg, net, step), step.act.node);
            step.act.pair in cache.seen && cache.seen[step.act.pair] == step.at
  {
  }

  /** A node's log holds what it announced with acceptance and what it received, until it forgets. */
  lemma LogAfter(cfg: Config, net: Net, step: Step, n: NodeId, id: EventId)
    ensures (n, id) in Next(cfg, net, step).stored <==>
      || ((n, id) in net.stored && step.act != Forget(n, id))
      || (step.act.Announce? && step.act.accepted && step.act.node == n && step.act.id == id)
      || (step.act.Deliver? && step.act.index < |net.flight| &&
          net.flight[step.act.index].to == n && net.flight[step.act.index].id == id)
  {
  }

  /** An event in the log is dropped before the filter sees it: nothing is sent, sighted or stored. */
  lemma DuplicateIsIgnored(cfg: Config, net: Net, step: Step)
    requires step.act.Deliver? && step.act.index < |net.flight|
    requires (net.flight[step.act.index].to, net.flight[step.act.index].id) in net.stored
    ensures Sent(cfg, net, step) == [] && Sights(net, step).None?
    ensures Next(cfg, net, step) == net.(flight := Remove(net.flight, step.act.index))
  {
    var m := net.flight[step.act.index];
    assert net.stored + {(m.to, m.id)} == net.stored;
    assert Remove(net.flight, step.act.index) + [] == Remove(net.flight, step.act.index);
  }

  ghost predicate LivesBetween(flight: seq<Message>, low: nat, high: nat) {
    forall m :: m in flight ==> low <= m.ttl <= high
  }

  ghost predicate Injected(steps: seq<Step>, m: Message) {
    exists i :: 0 <= i < |steps| && steps[i].act == Inject(m)
  }

  lemma WasSentOrThere(cfg: Config, steps: seq<Step>, m: Message)
    requires steps != [] && m in After(cfg, steps).flight
    ensures var before, last := After(cfg, steps[..|steps| - 1]), steps[|steps| - 1];
            m in before.flight || m in Sent(cfg, before, last)
  {
    hide Sent, Sights;
  }

  /**
   In every run, whatever strangers inject and whatever budget they claim, a message on the wire is one they injected or
   has at least one hop left and fewer than the ceiling.
   */
  lemma {:induction false} HopsAreBounded(cfg: Config, steps: seq<Step>, m: Message)
    requires m in After(cfg, steps).flight
    ensures Injected(steps, m) || 1 <= m.ttl < MAX_TTL
  {
    if steps == [] {
      return;
    }
    hide After, Sent;
    var k := |steps| - 1;
    var before := After(cfg, steps[..k]);
    WasSentOrThere(cfg, steps, m);
    SentHops(cfg, before, steps[k]);
    if m in before.flight {
      HopsAreBounded(cfg, steps[..k], m);
      if i :| 0 <= i < k && steps[..k][i].act == Inject(m) {
        assert steps[i].act == Inject(m);
      }
    }
  }

  /** With no strangers, no message has more hops left than its announcer gave it. */
  lemma {:induction false} AnnouncedHops(cfg: Config, steps: seq<Step>)
    requires forall i :: 0 <= i < |steps| ==> !steps[i].act.Inject?
    ensures LivesBetween(After(cfg, steps).flight, 1, ANNOUNCE_TTL)
  {
    if steps == [] {
      return;
    }
    hide After, Sent;
    var k := |steps| - 1;
    AnnouncedHops(cfg, steps[..k]);
    SentHops(cfg, After(cfg, steps[..k]), steps[k]);
    forall m | m in After(cfg, steps).flight
      ensures 1 <= m.ttl <= ANNOUNCE_TTL
    {
      WasSentOrThere(cfg, steps, m);
    }
  }

  lemma SentHops(cfg: Config, net: Net, step: Step)
    ensures step.act.Announce? ==> LivesBetween(Sent(cfg, net, step), ANNOUNCE_TTL, ANNOUNCE_TTL)
    ensures step.act.Deliver? ==>
      forall m :: m in Sent(cfg, net, step) ==>
        step.act.index < |net.flight| && 1 <= m.ttl < MAX_TTL && m.ttl < net.flight[step.act.index].ttl
    ensures !step.act.Announce? && !step.act.Deliver? ==>
      forall m :: m in Sent(cfg, net, step) ==> step.act == Inject(m)
  {
    forall m | m in Sent(cfg, net, step)
      ensures step.act.Announce? ==> m.ttl == ANNOUNCE_TTL
      ensures step.act.Deliver? ==>
        step.act.index < |net.flight| && 1 <= m.ttl < MAX_TTL && m.ttl < net.flight[step.act.index].ttl
    {
      match step.act
      case Announce(n, id, pair, accepted) =>
        MessagesReachPeers(PeersOf(net, n), None, Message(n, n, id, pair, ANNOUNCE_TTL), m);
      case Deliver(i) =>
        ForwardSpendsAHop(cfg, net, step, m);
      case _ =>
    }
  }

  // ---- Each cache is the replay of its node's own sightings ----

  function History(cfg: Config, steps: seq<Step>, n: NodeId): seq<Sighting> {
    if steps == [] then []
    else
      var k := |steps| - 1;
      var h := History(cfg, steps[..k], n);
      match Sights(After(cfg, steps[..k]), steps[k])
      case Some((m, s)) => if m == n then h + [s] else h
      case None => h
  }

  lemma {:induction false} CacheIsReplay(cfg: Config, steps: seq<Step>, n: NodeId)
    ensures CacheAt(After(cfg, steps), n) == Replay(History(cfg, steps, n), cfg.validity)
  {
    if steps != [] {
      var k := |steps| - 1;
      CacheIsReplay(cfg, steps[..k], n);
      var h := History(cfg, steps[..k], n);
      match Sights(After(cfg, steps[..k]), steps[k])
      case None =>
      case Some((m, s)) =>
        assert (h + [s])[..|h|] == h;
    }
  }

  lemma {:induction false} HistoryInOrder(cfg: Config, steps: seq<Step>, n: NodeId)
    requires Clocked(steps)
    ensures InOrder(History(cfg, steps, n))
    ensures forall s :: s in History(cfg, steps, n) ==> steps != [] && s.at <= steps[|steps| - 1].at
  {
    if steps != [] {
      var k := |steps| - 1;
      HistoryInOrder(cfg, steps[..k], n);
      var h := History(cfg, steps[..k], n);
      assert forall i :: 0 <= i < |h| ==> h[i] in h;
    }
  }

  /** Once made, a sighting bounds the last one from below. */
  lemma {:induction false} SightingIsRemembered(cfg: Config, steps: seq<Step>, i: nat, n: NodeId, s: Sighting)
    requires Clocked(steps) && i < |steps|
    requires Sights(After(cfg, steps[..i]), steps[i]) == Some((n, s))
    ensures LastSeen(History(cfg, steps, n), s.pair).Some?
    ensures LastSeen(History(cfg, steps, n), s.pair).value >= steps[i].at
  {
    hide Sights, After;
    var k := |steps| - 1;
    var h := History(cfg, steps[..k], n);
    if i == k {
      LastSeenAppend(h, s, s.pair);
      SightedNow(cfg, steps, k);
    } else {
      assert steps[..k][..i] == steps[..i];
      SightingIsRemembered(cfg, steps[..k], i, n, s);
      match Sights(After(cfg, steps[..k]), steps[k])
      case None =>
      case Some((m, t)) =>
        LastSeenAppend(h, t, s.pair);
        SightedNow(cfg, steps, k);
    }
  }

  lemma SightedNow(cfg: Config, steps: seq<Step>, k: nat)
    requires k < |steps| && Sights(After(cfg, steps[..k]), steps[k]).Some?
    ensures Sights(After(cfg, steps[..k]), steps[k]).value.1.at == steps[k].at
  {
  }

  lemma LastSeenAppend(h: seq<Sighting>, s: Sighting, p: Pair)
    ensures LastSeen(h + [s], p) == if s.pair == p then Some(s.at) else LastSeen(h, p)
  {
    assert (h + [s])[..|h|] == h;
  }

  /** Step `i` is a forward of `pair` by `n`. */
  ghost predicate ForwardsAt(cfg: Config, steps: seq<Step>, i: nat, n: NodeId, pair: Pair) {
    && i < |steps|
    && Forwards(cfg, After(cfg, steps[..i]), steps[i])
    && Sights(After(cfg, steps[..i]), steps[i]) == Some((n, Sighting(pair, steps[i].at)))
  }

  /**
   Over every run, of any length: a node never forwards a pair within `validity`
   of having announced, received or forwarded it.
   */
  lemma ForwardsAreFarApart(cfg: Config, steps: seq<Step>, i: nat, j: nat, n: NodeId, pair: Pair)
    requires Clocked(steps) && i < j
    requires i < |steps| && Sights(After(cfg, steps[..i]), steps[i]) == Some((n, Sighting(pair, steps[i].at)))
    requires ForwardsAt(cfg, steps, j, n, pair)
    ensures steps[j].at >= steps[i].at + cfg.validity
  {
    hide After, Sights, Replay, LastSeen, History;
    var run, s := steps[..j], Sighting(pair, steps[j].at);
    assert run[..i] == steps[..i];
    SightingIsRemembered(cfg, run, i, n, Sighting(pair, steps[i].at));
    CacheIsReplay(cfg, run, n);
    HistoryInOrder(cfg, run, n);
    var h := History(cfg, run, n);
    assert InOrder(h + [s]) by {
      assert forall k :: 0 <= k < |h| ==> h[k] in h;
    }
    FirstIffUnseenOrExpired(h, cfg.validity, s);
  }

  // ---- Inside one validity window the flood is bounded ----

  /** The whole run fits inside the time a pair stays seen. */
  ghost predicate InOneWindow(cfg: Config, steps: seq<Step>) {
    Clocked(steps) && forall i, j :: 0 <= i < j < |steps| ==> steps[j].at < steps[i].at + cfg.validity
  }

  function Forwarded(cfg: Config, steps: seq<Step>): seq<(NodeId, Pair)> {
    if steps == [] then []
    else
      var k := |steps| - 1;
      var net := After(cfg, steps[..k]);
      if Forwards(cfg, net, steps[k])
      then Forwarded(cfg, steps[..k]) + [(Sights(net, steps[k]).value.0, Sights(net, steps[k]).value.1.pair)]
      else Forwarded(cfg, steps[..k])
  }

  lemma {:induction false} ForwardedHasStep(cfg: Config, steps: seq<Step>, f: (NodeId, Pair)) returns (i: nat)
    requires f in Forwarded(cfg, steps)
    ensures ForwardsAt(cfg, steps, i, f.0, f.1)
  {
    var k := |steps| - 1;
    var net := After(cfg, steps[..k]);
    if Forwards(cfg, net, steps[k]) && f == (Sights(net, steps[k]).value.0, Sights(net, steps[k]).value.1.pair) {
      i := k;
    } else {
      i := ForwardedHasStep(cfg, steps[..k], f);
      assert steps[..k][..i] == steps[..i];
    }
  }

  lemma WindowPrefix(cfg: Config, steps: seq<Step>)
    requires steps != [] && InOneWindow(cfg, steps)
    ensures InOneWindow(cfg, steps[..|steps| - 1])
  {
  }

  /** Each node forwards each pair at most once. */
  lemma {:induction false} ForwardsOnce(cfg: Config, steps: seq<Step>)
    requires InOneWindow(cfg, steps)
    ensures Distinct(Forwarded(cfg, steps))
  {
    if steps != [] {
      hide After, Sights, Forwards;
      var k := |steps| - 1;
      var net := After(cfg, steps[..k]);
      WindowPrefix(cfg, steps);
      ForwardsOnce(cfg, steps[..k]);
      if Forwards(cfg, net, steps[k]) {
        var f := (Sights(net, steps[k]).value.0, Sights(net, steps[k]).value.1.pair);
        if f in Forwarded(cfg, steps[..k]) {
          var i := ForwardedHasStep(cfg, steps[..k], f);
          assert steps[..k][..i] == steps[..i];
          ForwardsAreFarApart(cfg, steps, i, k, f.0, f.1);
        }
      }
    }
  }

  // ---- Counting broadcasts ----

  function Announcements(steps: seq<Step>, pair: Pair): nat {
    if steps == [] then 0
    else
      var last := steps[|steps| - 1].act;
      Announcements(steps[..|steps| - 1], pair) + (if last.Announce? && last.pair == pair then 1 else 0)
  }

  /** Broadcasts of `pair`: accepted announcements, and forwards with hops to spare. */
  function Broadcasts(cfg: Config, steps: seq<Step>, pair: Pair): nat {
    if steps == [] then 0
    else
      var k := |steps| - 1;
      var net, act := After(cfg, steps[..k]), steps[k].act;
      Broadcasts(cfg, steps[..k], pair) +
      match act
      case Announce(_, _, p, accepted) => if accepted && p == pair then 1 else 0
      case Deliver(i) =>
        if Forwards(cfg, net, steps[k]) && net.flight[i].pair == pair && Capped(net.flight[i].ttl) > 1 then 1 else 0
      case _ => 0
  }

  function ForwardersOf(fs: seq<(NodeId, Pair)>, pair: Pair): seq<NodeId> {
    if fs == [] then []
    else
      var rest := ForwardersOf(fs[..|fs| - 1], pair);
      if fs[|fs| - 1].1 == pair then rest + [fs[|fs| - 1].0] else rest
  }

  lemma {:induction false} BroadcastsAreAnnouncedOrForwarded(cfg: Config, steps: seq<Step>, pair: Pair)
    ensures Broadcasts(cfg, steps, pair) <= Announcements(steps, pair) + |ForwardersOf(Forwarded(cfg, steps), pair)|
  {
    if steps != [] {
      var k := |steps| - 1;
      BroadcastsAreAnnouncedOrForwarded(cfg, steps[..k], pair);
      var fs := Forwarded(cfg, steps[..k]);
      var net := After(cfg, steps[..k]);
      if Forwards(cfg, net, steps[k]) {
        var f := (Sights(net, steps[k]).value.0, Sights(net, steps[k]).value.1.pair);
        assert (fs + [f])[..|fs|] == fs;
      }
    }
  }

  lemma {:induction false} ForwardersDistinct(fs: seq<(NodeId, Pair)>, pair: Pair)
    requires Distinct(fs)
    ensures Distinct(ForwardersOf(fs, pair))
    ensures forall n :: n in ForwardersOf(fs, pair) <==> (n, pair) in fs
  {
    if fs != [] {
      var k := |fs| - 1;
      ForwardersDistinct(fs[..k], pair);
      assert forall f :: f in fs <==> f == fs[k] || f in fs[..k];
      if fs[k].1 == pair {
        assert fs[k].0 !in ForwardersOf(fs[..k], pair);
      }
    }
  }

  /** Announcements and injections name only `pairs`, and injections reach only nodes of the network. */
  ghost predicate Within(cfg: Config, pairs: set<Pair>, steps: seq<Step>) {
    forall i :: 0 <= i < |steps| ==>
      match steps[i].act
      case Announce(_, _, p, _) => p in pairs
      case Inject(m) => m.to in cfg.nodes && m.pair in pairs
      case _ => true
  }

  ghost predicate Travels(cfg: Config, pairs: set<Pair>, ms: seq<Message>) {
    forall m :: m in ms ==> m.to in cfg.nodes && m.pair in pairs
  }

  lemma {:induction false} MessagesTravel(cfg: Config, pairs: set<Pair>, peers: seq<NodeId>,
                                          exclude: Option<NodeId>, m: Message)
    requires (forall p :: p in peers ==> p in cfg.nodes) && m.pair in pairs
    ensures Travels(cfg, pairs, Messages(peers, exclude, m))
  {
    if peers != [] {
      MessagesTravel(cfg, pairs, peers[1..], exclude, m);
    }
  }

  lemma SentTravels(cfg: Config, pairs: set<Pair>, net: Net, step: Step)
    requires (forall n :: IsWiring(cfg, PeersOf(net, n)))
    requires Within(cfg, pairs, [step]) && Travels(cfg, pairs, net.flight)
    ensures Travels(cfg, pairs, Next(cfg, net, step).flight)
    ensures Forwards(cfg, net, step) ==>
      Sights(net, step).value.0 in cfg.nodes && Sights(net, step).value.1.pair in pairs
  {
    assert [step][0] == step;
    match step.act
    case Announce(n, id, pair, _) =>
      MessagesTravel(cfg, pairs, PeersOf(net, n), None, Message(n, n, id, pair, ANNOUNCE_TTL));
    case Deliver(i) =>
      if i < |net.flight| {
        var m := net.flight[i];
        assert m in net.flight;
        MessagesTravel(cfg, pairs, PeersOf(net, m.to), Some(m.from),
                       m.(from := m.to, ttl := Capped(m.ttl) - if Capped(m.ttl) > 0 then 1 else 0));
      }
    case _ =>
  }

  /** Whatever travels or is forwarded stays within the network and the pairs it was given. */
  lemma {:induction false} RunStaysWithin(cfg: Config, pairs: set<Pair>, steps: seq<Step>)
    requires Wired(cfg, steps) && Within(cfg, pairs, steps)
    ensures Travels(cfg, pairs, After(cfg, steps).flight)
    ensures forall f :: f in Forwarded(cfg, steps) ==> f.0 in cfg.nodes && f.1 in pairs
  {
    if steps != [] {
      var k := |steps| - 1;
      RunStaysWithin(cfg, pairs, steps[..k]);
      assert Within(cfg, pairs, [steps[k]]);
      forall n
        ensures IsWiring(cfg, PeersOf(After(cfg, steps[..k]), n))
      {
        PeersStayWired(cfg, steps[..k], n);
      }
      SentTravels(cfg, pairs, After(cfg, steps[..k]), steps[k]);
    }
  }

  /** Inside one window, a pair is broadcast at most once a node, plus once an announcement. */
  lemma BroadcastsAreBounded(cfg: Config, pairs: set<Pair>, steps: seq<Step>, pair: Pair)
    requires Wired(cfg, steps) && InOneWindow(cfg, steps) && Within(cfg, pairs, steps)
    ensures Broadcasts(cfg, steps, pair) <= |cfg.nodes| + Announcements(steps, pair)
  {
    BroadcastsAreAnnouncedOrForwarded(cfg, steps, pair);
    ForwardsOnce(cfg, steps);
    RunStaysWithin(cfg, pairs, steps);
    var fs := Forwarded(cfg, steps);
    ForwardersDistinct(fs, pair);
    DistinctWithin(ForwardersOf(fs, pair), cfg.nodes);
  }

  // ---- Termination ----

  datatype Tally = Tally(arrivals: nat, announced: nat, injected: nat, forwarded: nat)

  /** How many messages left the wire, announcements and injections were made, and forwards happened. */
  function Count(cfg: Config, steps: seq<Step>): Tally {
    if steps == [] then Tally(0, 0, 0, 0)
    else
      var k := |steps| - 1;
      var t, net, act := Count(cfg, steps[..k]), After(cfg, steps[..k]), steps[k].act;
      match act
      case Announce(_, _, _, _) => t.(announced := t.announced + 1)
      case Inject(_) => t.(injected := t.injected + 1)
      case Forget(_, _) => t
      case Rewire(_, _) => t
      case Lose(i) => if i < |net.flight| then t.(arrivals := t.arrivals + 1) else t
      case Deliver(i) =>
        if i >= |net.flight| then t
        else t.(arrivals := t.arrivals + 1, forwarded := t.forwarded + if Forwards(cfg, net, steps[k]) then 1 else 0)
  }

  lemma {:induction false} MessagesAreConserved(cfg: Config, steps: seq<Step>)
    requires Wired(cfg, steps)
    ensures var t := Count(cfg, steps);
            |After(cfg, steps).flight| + t.arrivals <= t.injected + cfg.degree * (t.announced + t.forwarded)
  {
    hide *;
    if steps == [] {
      EmptyTally(cfg);
      StepBalances(cfg.degree, 0, 0, 0, 0, 0, 0);
    } else {
      var t, t' := Count(cfg, steps[..|steps| - 1]), Count(cfg, steps);
      WiredPrefix(cfg, steps);
      MessagesAreConserved(cfg, steps[..|steps| - 1]);
      NextTally(cfg, steps);
      StepBalances(cfg.degree, |After(cfg, steps[..|steps| - 1]).flight| + t.arrivals, t.injected,
                   t.announced + t.forwarded, |After(cfg, steps).flight| + t'.arrivals, t'.injected,
                   t'.announced + t'.forwarded);
    }
  }

  lemma WiredPrefix(cfg: Config, steps: seq<Step>)
    requires Wired(cfg, steps) && steps != []
    ensures Wired(cfg, steps[..|steps| - 1])
  {
  }

  lemma EmptyTally(cfg: Config)
    ensures |After(cfg, []).flight| == 0 && Count(cfg, []) == Tally(0, 0, 0, 0)
  {
  }

  lemma StepBalances(degree: nat, out: nat, injected: nat, made: nat, out': nat, injected': nat, made': nat)
    requires out <= injected + degree * made
    requires made' == made || made' == made + 1
    requires out' <= out + injected' - injected + (if made' == made + 1 then degree else 0)
    ensures out' <= injected' + degree * made'
  {
    MulStep(degree, made);
  }

  lemma {:induction false} ForwardsAreCounted(cfg: Config, steps: seq<Step>)
    ensures Count(cfg, steps).forwarded == |Forwarded(cfg, steps)|
  {
    if steps != [] {
      ForwardsAreCounted(cfg, steps[..|steps| - 1]);
    }
  }

  lemma MulStep(d: nat, x: nat)
    ensures d * (x + 1) == d * x + d
  {
  }

  /** One step moves at most `degree` messages onto the wire for each announcement or forward it makes. */
  lemma NextTally(cfg: Config, steps: seq<Step>)
    requires Wired(cfg, steps) && steps != []
    ensures var t, t' := Count(cfg, steps[..|steps| - 1]), Count(cfg, steps);
            var flight, flight' := |After(cfg, steps[..|steps| - 1]).flight|, |After(cfg, steps).flight|;
            var made := t'.announced + t'.forwarded - t.announced - t.forwarded;
            && 0 <= made <= 1
            && flight' + t'.arrivals <=
               flight + t.arrivals + t'.injected - t.injected + (if made == 1 then cfg.degree else 0)
            && t.injected <= t'.injected
  {
    var k := |steps| - 1;
    forall n
      ensures IsWiring(cfg, PeersOf(After(cfg, steps[..k]), n))
    {
      PeersStayWired(cfg, steps[..k], n);
    }
    SentIsBounded(cfg, After(cfg, steps[..k]), steps[k]);
  }

  lemma SentIsBounded(cfg: Config, net: Net, step: Step)
    requires forall n :: |PeersOf(net, n)| <= cfg.degree
    ensures step.act.Announce? || Forwards(cfg, net, step) ==> |Sent(cfg, net, step)| <= cfg.degree
    ensures step.act.Deliver? && !Forwards(cfg, net, step) ==> Sent(cfg, net, step) == []
  {
  }

  ghost function Grid(nodes: set<NodeId>, pairs: set<Pair>): set<(NodeId, Pair)> {
    set n, p | n in nodes && p in pairs :: (n, p)
  }

  lemma {:induction false} GridSize(nodes: set<NodeId>, pairs: set<Pair>)
    ensures |Grid(nodes, pairs)| == |pairs| * |nodes|
    decreases |nodes|
  {
    if nodes == {} {
      assert Grid(nodes, pairs) == {};
    } else {
      var n :| n in nodes;
      GridSize(nodes - {n}, pairs);
      RowSize(n, pairs);
      GridSplit(nodes, pairs, n);
      MulStep(|pairs|, |nodes - {n}|);
    }
  }

  lemma GridSplit(nodes: set<NodeId>, pairs: set<Pair>, n: NodeId)
    requires n in nodes
    ensures |Grid(nodes, pairs)| == |Grid(nodes - {n}, pairs)| + |Grid({n}, pairs)|
    ensures |nodes| == |nodes - {n}| + 1
  {
    assert Grid(nodes, pairs) == Grid(nodes - {n}, pairs) + Grid({n}, pairs);
    assert Grid(nodes - {n}, pairs) !! Grid({n}, pairs);
  }

  lemma {:induction false} RowSize(n: NodeId, pairs: set<Pair>)
    ensures |Grid({n}, pairs)| == |pairs|
    decreases |pairs|
  {
    if pairs == {} {
      assert Grid({n}, pairs) == {};
    } else {
      var p :| p in pairs;
      RowSize(n, pairs - {p});
      assert Grid({n}, pairs) == Grid({n}, pairs - {p}) + {(n, p)};
    }
  }

  /**
   The flood dies out: in a run inside one window, with `pairs` all the pairs
   announced or injected, the number of messages taken off the wire is bounded by
   the announcements and injections made, whatever the order of delivery.
   */
  lemma FloodTerminates(cfg: Config, pairs: set<Pair>, steps: seq<Step>)
    requires Wired(cfg, steps) && InOneWindow(cfg, steps) && Within(cfg, pairs, steps)
    ensures var t := Count(cfg, steps);
            t.arrivals <= t.injected + cfg.degree * (t.announced + |pairs| * |cfg.nodes|)
  {
    hide *;
    MessagesAreConserved(cfg, steps);
    ForwardsAreFew(cfg, pairs, steps);
    ForwardsAreCounted(cfg, steps);
    var t := Count(cfg, steps);
    MachineInt.MulMonotone(t.announced + t.forwarded, t.announced + |pairs| * |cfg.nodes|, cfg.degree);
  }

  lemma ForwardsAreFew(cfg: Config, pairs: set<Pair>, steps: seq<Step>)
    requires Wired(cfg, steps) && InOneWindow(cfg, steps) && Within(cfg, pairs, steps)
    ensures |Forwarded(cfg, steps)| <= |pairs| * |cfg.nodes|
  {
    ForwardsOnce(cfg, steps);
    RunStaysWithin(cfg, pairs, steps);
    DistinctWithin(Forwarded(cfg, steps), Grid(cfg.nodes, pairs));
    GridSize(cfg.nodes, pairs);
  }
}
