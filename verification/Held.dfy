/**
 The blocks a node keeps: what it accepts, what it is still missing, and the
 sweep that drops everything not reachable from a root worth keeping.
 */
module Held {
  import opened Wrappers
  import opened Cids
  import opened Graph
  import opened Fetching
  import opened Assembly

  const MAX_BLOCK_BYTES := 262_144

  /** Blocks by identifier; an identifier's text is the store's key. */
  type Store = map<Cid, Block>

  function HeldLook(store: Store): Lookup {
    (c: Cid) => if c in store then Some(store[c]) else None
  }

  /** The links this node can follow: those of blocks it holds and can read. */
  ghost function HeldKids(store: Store): Cid -> seq<Cid> {
    LookedUpKids(HeldLook(store))
  }

  /** The identifiers a walk from `root` visits, in order, up to the cap. */
  ghost function WalkOf(store: Store, root: Cid): seq<Cid> {
    Traverse(HeldKids(store), Start(root), MAX_DAG_BLOCKS).order
  }

  function Outside(cs: seq<Cid>, held: set<Cid>): (r: seq<Cid>)
    ensures forall c :: c in r <==> c in cs && c !in held
  {
    if cs == [] then []
    else if cs[0] in held then Outside(cs[1..], held)
    else [cs[0]] + Outside(cs[1..], held)
  }

  /** `xs` is `ys` with some entries left out. */
  predicate IsSubsequence<T(==)>(xs: seq<T>, ys: seq<T>) {
    xs == [] || (ys != [] && ((xs[0] == ys[0] && IsSubsequence(xs[1..], ys[1..])) || IsSubsequence(xs, ys[1..])))
  }

  lemma {:induction false} OutsideInOrder(cs: seq<Cid>, held: set<Cid>)
    ensures IsSubsequence(Outside(cs, held), cs)
  {
    if cs != [] {
      OutsideInOrder(cs[1..], held);
      var rest := Outside(cs[1..], held);
      assert ([cs[0]] + rest)[1..] == rest;
    }
  }

  /** What is still needed before this node holds all of `root`, as far as the walk can see. */
  ghost function Missing(store: Store, root: Cid): seq<Cid> {
    Outside(WalkOf(store, root), store.Keys)
  }

  ghost predicate IsKept(store: Store, roots: seq<Cid>, c: Cid) {
    exists root :: root in roots && c in WalkOf(store, root)
  }

  /** The sweep: what a walk from some kept root visits stays, the rest goes. */
  ghost function Evict(store: Store, roots: seq<Cid>): Store {
    Restrict(store, KeptSet(store, roots))
  }

  ghost function KeptSet(store: Store, roots: seq<Cid>): set<Cid> {
    set c | c in store && IsKept(store, roots, c)
  }

  function Restrict(store: Store, keep: set<Cid>): Store {
    map c | c in store && c in keep :: store[c]
  }

  /** Giving up one more key drops it, if it was not to be kept anyway. */
  lemma RestrictStep(store: Store, keep: set<Cid>, keys: set<Cid>, key: Cid)
    requires key in keys && keys <= store.Keys
    ensures var before, after := Restrict(store, keep + keys), Restrict(store, keep + (keys - {key}));
            && after == (if key in keep then before else before - {key})
            && |after| == |before| - if key in keep then 0 else 1
  {
    var before, after := Restrict(store, keep + keys), Restrict(store, keep + (keys - {key}));
    if key in keep {
      assert keep + keys == keep + (keys - {key});
    } else {
      assert after.Keys == before.Keys - {key};
    }
  }

  ghost predicate Keepable(sha: Hash, c: Cid, block: Block) {
    |block| <= MAX_BLOCK_BYTES && Matches(sha, c, block)
  }

  ghost function Keep(sha: Hash, store: Store, c: Cid, block: Block): Store {
    if Keepable(sha, c, block) then store[c := block] else store
  }

  /** Every block is the one its identifier names, and no larger than a chunk. */
  ghost predicate Authentic(sha: Hash, store: Store) {
    forall c :: c in store ==> Keepable(sha, c, store[c])
  }

  // ---- Eviction ----

  /** A kept root is walked exactly as before the sweep. */
  lemma EvictionKeepsWalk(store: Store, roots: seq<Cid>, root: Cid)
    requires root in roots
    ensures WalkOf(Evict(store, roots), root) == WalkOf(store, root)
    ensures forall c :: c in WalkOf(store, root) ==> HeldLook(Evict(store, roots))(c) == HeldLook(store)(c)
  {
    var swept := Evict(store, roots);
    forall c | c in WalkOf(store, root)
      ensures HeldLook(swept)(c) == HeldLook(store)(c)
    {
      if c in store {
        assert IsKept(store, roots, c);
      }
    }
    SameAnswersSameWalk(HeldLook(store), HeldLook(swept), root);
  }

  lemma SameAnswersSameWalk(look: Lookup, look': Lookup, root: Cid)
    requires forall c :: c in Traverse(LookedUpKids(look), Start(root), MAX_DAG_BLOCKS).order ==> look(c) == look'(c)
    ensures Traverse(LookedUpKids(look), Start(root), MAX_DAG_BLOCKS) ==
            Traverse(LookedUpKids(look'), Start(root), MAX_DAG_BLOCKS)
  {
    TraverseLocal(LookedUpKids(look), LookedUpKids(look'), Start(root), MAX_DAG_BLOCKS);
  }

  lemma {:induction false} OutsideAgree(cs: seq<Cid>, s: set<Cid>, t: set<Cid>)
    requires forall c :: c in cs ==> (c in s <==> c in t)
    ensures Outside(cs, s) == Outside(cs, t)
  {
    if cs != [] {
      OutsideAgree(cs[1..], s, t);
    }
  }

  /** What a kept root still lacks is what it lacked before. */
  lemma EvictionKeepsMissing(store: Store, roots: seq<Cid>, root: Cid)
    requires root in roots
    ensures Missing(Evict(store, roots), root) == Missing(store, root)
  {
    EvictionKeepsWalk(store, roots, root);
    forall c | c in WalkOf(store, root)
      ensures c in Evict(store, roots) <==> c in store
    {
      assert HeldLook(Evict(store, roots))(c) == HeldLook(store)(c);
    }
    OutsideAgree(WalkOf(store, root), Evict(store, roots).Keys, store.Keys);
  }

  lemma RestrictToAll(store: Store)
    ensures Restrict(store, store.Keys) == store
  {
  }

  /** A second sweep with the same roots drops nothing. */
  lemma EvictionIsIdempotent(store: Store, roots: seq<Cid>)
    ensures Evict(Evict(store, roots), roots) == Evict(store, roots)
  {
    var swept := Evict(store, roots);
    forall c | c in swept
      ensures IsKept(swept, roots, c)
    {
      var root :| root in roots && c in WalkOf(store, root);
      EvictionKeepsWalk(store, roots, root);
    }
    assert KeptSet(swept, roots) == swept.Keys;
    RestrictToAll(swept);
  }

  ghost predicate WithinCap(store: Store, root: Cid) {
    exists vs: seq<Cid> :: |vs| <= MAX_DAG_BLOCKS && forall c :: Reachable(HeldKids(store), root, c) ==> c in vs
  }

  /** The walk sees everything reachable exactly when that is within the visit cap. */
  lemma WalkIsCompleteIffWithinCap(store: Store, root: Cid)
    ensures WithinCap(store, root) <==> forall c :: Reachable(HeldKids(store), root, c) ==> c in WalkOf(store, root)
    ensures forall c :: c in WalkOf(store, root) ==> Reachable(HeldKids(store), root, c)
    ensures root in WalkOf(store, root) && |WalkOf(store, root)| <= MAX_DAG_BLOCKS
  {
    var kids := HeldKids(store);
    CoversIffWithinBudget(kids, root, MAX_DAG_BLOCKS);
    StartInv(kids, root);
    TraverseKeepsInv(kids, root, Start(root), MAX_DAG_BLOCKS);
    var t := Traverse(kids, Start(root), MAX_DAG_BLOCKS);
    assert t.order + t.pending != [] && (t.pending == [] || |t.order| == MAX_DAG_BLOCKS);
    assert t.order[0] == (t.order + t.pending)[0];
    assert forall c :: c in t.order ==> c in t.order + t.pending;
    if t.pending == [] {
      DryMeansAll(kids, root, t);
    }
  }

  /**
   Whatever a sweep leaves was held and is reachable from a kept root; and with every kept root within the cap, it
   leaves all of that.
   */
  lemma EvictionLeavesTheReachable(store: Store, roots: seq<Cid>, c: Cid)
    ensures c in Evict(store, roots) ==>
            c in store && exists root :: root in roots && Reachable(HeldKids(store), root, c)
    ensures (forall root :: root in roots ==> WithinCap(store, root)) ==>
            (c in Evict(store, roots) <==>
             c in store && exists root :: root in roots && Reachable(HeldKids(store), root, c))
  {
    hide WithinCap, Reachable, WalkOf;
    forall root | root in roots
      ensures c in WalkOf(store, root) ==> Reachable(HeldKids(store), root, c)
      ensures WithinCap(store, root) ==> (c in WalkOf(store, root) <==> Reachable(HeldKids(store), root, c))
    {
      WalkIsCompleteIffWithinCap(store, root);
    }
  }

  /** Past the cap a sweep drops blocks of a root it keeps: it leaves a whole DAG alone exactly when within the cap. */
  lemma EvictionKeepsAllIff(store: Store, root: Cid)
    requires HoldsReachable(store, root)
    ensures (forall c :: Reachable(HeldKids(store), root, c) ==> c in Evict(store, [root])) <==> WithinCap(store, root)
  {
    hide WithinCap, Reachable, WalkOf;
    WalkIsCompleteIffWithinCap(store, root);
    forall c | c in store
      ensures c in Evict(store, [root]) <==> c in WalkOf(store, root)
    {
      assert root in [root];
    }
  }

  /** Eviction never breaks a file it was told to keep. */
  lemma EvictionKeepsFiles(sha: Hash, store: Store, roots: seq<Cid>, root: Cid)
    requires root in roots && Assemble(sha, HeldLook(store), root).Ok?
    ensures Assemble(sha, HeldLook(Evict(store, roots)), root) == Assemble(sha, HeldLook(store), root)
  {
    var vs := FileIsBounded(sha, HeldLook(store), root);
    assert WithinCap(store, root);
    WalkIsCompleteIffWithinCap(store, root);
    EvictionKeepsWalk(store, roots, root);
    AssembleLocal(sha, HeldLook(store), HeldLook(Evict(store, roots)), root);
  }

  // ---- What an empty list of missing blocks means ----

  /** Every block under `root` is here, as far as the links of held blocks lead. */
  ghost predicate HoldsReachable(store: Store, root: Cid) {
    forall c :: Reachable(HeldKids(store), root, c) ==> c in store
  }

  /** And each of them can be followed, so that nothing lies hidden behind it. */
  ghost predicate HoldsWholeDag(store: Store, root: Cid) {
    forall c :: Reachable(HeldKids(store), root, c) ==> c in store && LinksOf(c, store[c]).Some?
  }

  /** The links of every held block the walk meets can be read. */
  ghost predicate WalkIsReadable(store: Store, root: Cid) {
    forall c :: c in WalkOf(store, root) && c in store ==> LinksOf(c, store[c]).Some?
  }

  /** The missing blocks are those of the walk that are not held, in the order of the walk. */
  lemma MissingFollowsTheWalk(store: Store, root: Cid)
    ensures IsSubsequence(Missing(store, root), WalkOf(store, root))
    ensures forall c :: c in Missing(store, root) <==> c in WalkOf(store, root) && c !in store
    ensures Distinct(WalkOf(store, root))
  {
    OutsideInOrder(WalkOf(store, root), store.Keys);
    StartInv(HeldKids(store), root);
    TraverseKeepsInv(HeldKids(store), root, Start(root), MAX_DAG_BLOCKS);
    var t := Traverse(HeldKids(store), Start(root), MAX_DAG_BLOCKS);
    assert forall i :: 0 <= i < |t.order| ==> t.order[i] == (t.order + t.pending)[i];
  }

  lemma NothingMissingIff(store: Store, root: Cid)
    ensures Missing(store, root) == [] <==> forall c :: c in WalkOf(store, root) ==> c in store
  {
    var missing := Missing(store, root);
    if missing != [] {
      assert missing[0] in missing;
    }
  }

  /** Within the cap, the whole DAG is here exactly when nothing is missing and what was met can be read. */
  lemma NothingMissingMeansWhole(store: Store, root: Cid)
    requires WithinCap(store, root)
    ensures HoldsReachable(store, root) <==> Missing(store, root) == []
    ensures HoldsWholeDag(store, root) <==> Missing(store, root) == [] && WalkIsReadable(store, root)
  {
    hide WithinCap, Reachable, WalkOf, Missing;
    WalkIsCompleteIffWithinCap(store, root);
    NothingMissingIff(store, root);
  }

  /** Two stores that answer alike about every block the walk of the first meets. */
  ghost predicate SameOnWalk(store: Store, other: Store, root: Cid) {
    forall c :: c in WalkOf(store, root) ==> HeldLook(store)(c) == HeldLook(other)(c)
  }

  lemma SameOnWalkSameMissing(store: Store, other: Store, root: Cid)
    requires SameOnWalk(store, other, root)
    ensures WalkOf(other, root) == WalkOf(store, root) && Missing(other, root) == Missing(store, root)
  {
    SameAnswersSameWalk(HeldLook(store), HeldLook(other), root);
    hide WalkOf;
    forall c | c in WalkOf(store, root)
      ensures c in store <==> c in other
    {
      assert HeldLook(store)(c) == HeldLook(other)(c);
    }
    OutsideAgree(WalkOf(store, root), store.Keys, other.Keys);
  }

  /** Past the cap some reachable block is off the walk: lose it, and the walk and what it misses are as before. */
  lemma HoleOffTheWalk(store: Store, root: Cid) returns (hole: Cid)
    requires !WithinCap(store, root)
    ensures hole !in WalkOf(store, root) && Reachable(HeldKids(store), root, hole)
    ensures SameOnWalk(store, store - {hole}, root)
    ensures Reachable(HeldKids(store - {hole}), root, hole)
  {
    var parent;
    hole, parent := WalkStopsShort(store, root);
    var less := store - {hole};
    hide WithinCap, Reachable, WalkOf;
    assert SameOnWalk(store, less, root);
    SameOnWalkSameMissing(store, less, root);
    WalkIsCompleteIffWithinCap(store, root);
    WalkIsCompleteIffWithinCap(less, root);
    assert HeldLook(store)(parent) == HeldLook(less)(parent);
    ReachesKid(HeldKids(store), root, parent, hole);
    ReachesKid(HeldKids(less), root, parent, hole);
  }

  lemma WalkStopsShort(store: Store, root: Cid) returns (hole: Cid, parent: Cid)
    requires !WithinCap(store, root)
    ensures hole !in WalkOf(store, root) && parent in WalkOf(store, root) && hole in HeldKids(store)(parent)
  {
    hide Reachable, HeldKids;
    CoversIffWithinBudget(HeldKids(store), root, MAX_DAG_BLOCKS);
    hole, parent := CutShort(HeldKids(store), root, MAX_DAG_BLOCKS);
  }

  /**
   An empty list of missing blocks proves that the whole DAG is here, in every store that looks the same along the
   walk, if and only if the walk was not cut short by the cap and could read every block it met.
   */
  lemma NothingMissingProvesWholeIff(store: Store, root: Cid)
    requires Missing(store, root) == []
    ensures (forall other :: SameOnWalk(store, other, root) ==> HoldsWholeDag(other, root)) <==>
            WithinCap(store, root) && WalkIsReadable(store, root)
  {
    hide WithinCap, Reachable, WalkOf, Missing;
    if WithinCap(store, root) && WalkIsReadable(store, root) {
      forall other | SameOnWalk(store, other, root)
        ensures HoldsWholeDag(other, root)
      {
        WholeOnTheSameWalk(store, other, root);
      }
    } else if WithinCap(store, root) {
      NothingMissingMeansWhole(store, root);
      assert SameOnWalk(store, store, root);
    } else {
      var hole := HoleOffTheWalk(store, root);
      assert !HoldsWholeDag(store - {hole}, root);
    }
  }

  lemma WholeOnTheSameWalk(store: Store, other: Store, root: Cid)
    requires Missing(store, root) == [] && WithinCap(store, root) && WalkIsReadable(store, root)
    requires SameOnWalk(store, other, root)
    ensures HoldsWholeDag(other, root)
  {
    SameOnWalkSameMissing(store, other, root);
    WalkIsCompleteIffWithinCap(store, root);
    NothingMissingIff(store, root);
    hide WithinCap, Missing;
    var s := iset c | c in WalkOf(store, root);
    forall v, w | v in s && w in HeldKids(other)(v)
      ensures w in s
    {
      assert HeldLook(store)(v) == HeldLook(other)(v);
      ReachesKid(HeldKids(store), root, v, w);
    }
    hide WalkOf;
    forall c | Reachable(HeldKids(other), root, c)
      ensures c in other && LinksOf(c, other[c]).Some?
    {
      ReachableStaysIn(HeldKids(other), s, root, c);
      assert HeldLook(store)(c) == HeldLook(other)(c);
    }
  }

  /** A root over a block whose links cannot be read is never assembled. */
  lemma UnreadableCannotAssemble(sha: Hash, store: Store, root: Cid, c: Cid)
    requires Reachable(HeldKids(store), root, c) && c in store && LinksOf(c, store[c]).None?
    ensures Assemble(sha, HeldLook(store), root).Err?
  {
    if Assemble(sha, HeldLook(store), root).Ok? {
      var vs := FileIsBounded(sha, HeldLook(store), root);
    }
  }

  // ---- The node's own copy ----

  class HeldContent {
    const sha: Hash
    var store: Store

    ghost predicate Valid()
      reads this
    {
      Authentic(sha, store)
    }

    constructor (sha: Hash)
      ensures Valid() && this.sha == sha && store == map[]
    {
      this.sha := sha;
      store := map[];
    }

    method KeepBlock(cid: Cid, block: Block) returns (kept: bool)
      requires Valid()
      modifies this
      ensures Valid()
      ensures kept <==> Keepable(sha, cid, block)
      ensures store == Keep(sha, old(store), cid, block)
    {
      if |block| > MAX_BLOCK_BYTES {
        return false;
      }
      var matched := MatchesContent(sha, cid, block);
      if !matched {
        return false;
      }
      store := store[cid := block];
      return true;
    }

    method Get(cid: Cid) returns (block: Option<Block>)
      requires Valid()
      ensures block == HeldLook(store)(cid)
      ensures block.Some? ==> Matches(sha, cid, block.value)
    {
      block := if cid in store then Some(store[cid]) else None;
    }

    /** The shared walk: visits `root` and, for every dag-pb block already here, its links. */
    method Walk(root: Cid) returns (order: seq<Cid>)
      ensures order == WalkOf(store, root)
    {
      order := [];
      var pending, seen := [root], {root};
      StartAt(HeldKids(store), root);
      while pending != []
        invariant |order| <= MAX_DAG_BLOCKS
        invariant At(HeldKids(store), root, Frontier(order, pending, seen), |order|)
        decreases MAX_DAG_BLOCKS + 1 - |order|
      {
        if |order| == MAX_DAG_BLOCKS {
          return;
        }
        var cid := pending[0];
        var links := FollowHeld(cid);
        VisitAt(HeldKids(store), root, Frontier(order, pending, seen), |order|);
        order := order + [cid];
        pending, seen := Enqueue(links, pending[1..], seen);
      }
      TraverseDry(HeldKids(store), Start(root), |order|, MAX_DAG_BLOCKS);
    }

    /** The links of a held, chunked, readable block; nothing to follow otherwise. */
    method FollowHeld(cid: Cid) returns (links: seq<Cid>)
      ensures links == HeldKids(store)(cid)
    {
      if cid !in store {
        return [];
      }
      var read := FollowedLinks(cid, store[cid]);
      return if read.Some? then read.value else [];
    }

    method MissingBlocks(root: Cid) returns (missing: seq<Cid>)
      ensures missing == Missing(store, root)
    {
      var order := Walk(root);
      missing := Outside(order, store.Keys);
    }

    /** Drops what no walk from a kept root visits, and counts the drops. */
    method EvictOutside(roots: seq<Cid>) returns (dropped: nat)
      requires Valid()
      modifies this
      ensures Valid()
      ensures store == Evict(old(store), roots)
      ensures dropped == |old(store)| - |store|
    {
      var keep := ReachableFrom(roots);
      assert keep == KeptSet(store, roots);
      dropped := DropOutside(keep);
    }

    method DropOutside(keep: set<Cid>) returns (dropped: nat)
      modifies this
      ensures store == Restrict(old(store), keep)
      ensures dropped == |old(store)| - |store|
    {
      RestrictToAll(store);
      assert keep + store.Keys >= store.Keys;
      assert Restrict(store, keep + store.Keys) == store;
      hide Restrict;
      var keys := store.Keys;
      dropped := 0;
      while keys != {}
        invariant keys <= old(store).Keys
        invariant store == Restrict(old(store), keep + keys)
        invariant dropped == |old(store)| - |store|
        decreases |keys|
      {
        var key :| key in keys;
        RestrictStep(old(store), keep, keys, key);
        keys := keys - {key};
        if key !in keep {
          store := store - {key};
          dropped := dropped + 1;
        }
      }
      assert keep + {} == keep;
    }

    method ReachableFrom(roots: seq<Cid>) returns (keep: set<Cid>)
      ensures forall c :: c in keep <==> c in store && IsKept(store, roots, c)
    {
      keep := {};
      for i := 0 to |roots|
        invariant forall c :: c in keep <==> c in store && IsKept(store, roots[..i], c)
      {
        var order := Walk(roots[i]);
        assert roots[..i + 1] == roots[..i] + [roots[i]];
        KeptSplit(store, roots[..i], roots[i]);
        keep := keep + set c | c in order && c in store;
      }
      assert roots[..|roots|] == roots;
    }
  }

  lemma KeptSplit(store: Store, roots: seq<Cid>, root: Cid)
    ensures forall c :: IsKept(store, roots + [root], c) <==> IsKept(store, roots, c) || c in WalkOf(store, root)
  {
    forall c
      ensures IsKept(store, roots + [root], c) <==> IsKept(store, roots, c) || c in WalkOf(store, root)
    {
      if r :| r in roots && c in WalkOf(store, r) {
        assert r in roots + [root];
      }
      if c in WalkOf(store, root) {
        assert root in roots + [root];
      }
    }
  }
}
