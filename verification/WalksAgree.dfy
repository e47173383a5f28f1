/**
 The three walks over the same links agree: what fetching collects, once kept,
 is what the held-content walk finds complete and what assembling reads. And the
 two ways in which "nothing missing" can be said of a DAG that is not whole.
 */
module WalksAgree {
  import opened Wrappers
  import opened MachineInt
  import opened Cids
  import opened DagPb
  import opened Graph
  import opened Fetching
  import opened Assembly
  import opened Held

  // ---- Fetched, kept, and read back ----

  /** Keeping blocks one after another. */
  ghost function KeepAll(sha: Hash, store: Store, blocks: seq<(Cid, Block)>): Store {
    if blocks == [] then store
    else
      var n := |blocks| - 1;
      Keep(sha, KeepAll(sha, store, blocks[..n]), blocks[n].0, blocks[n].1)
  }

  /** `store` holds each of `blocks` under its own identifier. */
  ghost predicate HoldsAll(store: Store, blocks: seq<(Cid, Block)>) {
    forall i :: 0 <= i < |blocks| ==> blocks[i].0 in store && store[blocks[i].0] == blocks[i].1
  }

  ghost predicate AllKeepable(sha: Hash, blocks: seq<(Cid, Block)>) {
    forall i :: 0 <= i < |blocks| ==> Keepable(sha, blocks[i].0, blocks[i].1)
  }

  lemma {:induction false} KeepAllHolds(sha: Hash, store: Store, blocks: seq<(Cid, Block)>)
    requires AllKeepable(sha, blocks) && Distinct(Names(blocks))
    ensures HoldsAll(KeepAll(sha, store, blocks), blocks)
  {
    hide Keepable;
    if blocks != [] {
      var n := |blocks| - 1;
      var rest := blocks[..n];
      forall i, j | 0 <= i < j < |Names(rest)|
        ensures Names(rest)[i] != Names(rest)[j]
      {
        assert Names(blocks)[i] != Names(blocks)[j];
      }
      KeepAllHolds(sha, store, rest);
      forall i | 0 <= i < n
        ensures blocks[i].0 in KeepAll(sha, store, blocks) && KeepAll(sha, store, blocks)[blocks[i].0] == blocks[i].1
      {
        assert rest[i] == blocks[i];
        assert Names(blocks)[i] != Names(blocks)[n];
      }
    }
  }

  /** Nothing beyond the blocks of a whole DAG is reachable in a store that holds them. */
  lemma ReachableIsFetched(sha: Hash, fetch: Fetcher, root: Cid, blocks: seq<(Cid, Block)>, store: Store, c: Cid)
    requires IsWholeDag(sha, fetch, root, blocks) && HoldsAll(store, blocks)
    requires Reachable(HeldKids(store), root, c)
    ensures c in Names(blocks) && c in store && fetch(c) == Ok(store[c]) && Sound(sha, fetch, c)
  {
    var names := Names(blocks);
    var s := iset d | d in names;
    forall d | d in names
      ensures d in store && fetch(d) == Ok(store[d]) && Sound(sha, fetch, d)
      ensures HeldKids(store)(d) == FetchedKids(fetch)(d)
    {
      var i :| 0 <= i < |names| && names[i] == d;
    }
    forall v, w | v in s && w in HeldKids(store)(v)
      ensures w in s
    {
      ReachesKid(FetchedKids(fetch), root, v, w);
    }
    ReachableStaysIn(HeldKids(store), s, root, c);
  }

  /** A fetched DAG whose blocks all fit is whole once kept: nothing is missing, whatever else the store holds. */
  lemma FetchedThenKeptIsWhole(sha: Hash, fetch: Fetcher, root: Cid, blocks: seq<(Cid, Block)>, store: Store)
    requires IsWholeDag(sha, fetch, root, blocks)
    requires forall i :: 0 <= i < |blocks| ==> |blocks[i].1| <= MAX_BLOCK_BYTES
    ensures HoldsWholeDag(KeepAll(sha, store, blocks), root)
    ensures Missing(KeepAll(sha, store, blocks), root) == []
  {
    var kept := KeepAll(sha, store, blocks);
    KeepAllHolds(sha, store, blocks);
    forall c | Reachable(HeldKids(kept), root, c)
      ensures c in Names(blocks) && c in kept && LinksOf(c, kept[c]).Some?
    {
      ReachableIsFetched(sha, fetch, root, blocks, kept, c);
    }
    assert WithinCap(kept, root) by {
      assert |Names(blocks)| <= MAX_DAG_BLOCKS;
    }
    NothingMissingMeansWhole(kept, root);
    WalkIsCompleteIffWithinCap(kept, root);
  }

  /** From an empty store, only blocks that were kept are held, and no oversized one is. */
  lemma {:induction false} KeptBlocksFit(sha: Hash, fetch: Fetcher, blocks: seq<(Cid, Block)>, c: Cid)
    requires AllSound(sha, fetch, blocks) && c in KeepAll(sha, map[], blocks)
    ensures fetch(c) == Ok(KeepAll(sha, map[], blocks)[c]) && |fetch(c).value| <= MAX_BLOCK_BYTES
  {
    var n := |blocks| - 1;
    var rest := blocks[..n];
    forall i | 0 <= i < |rest|
      ensures rest[i] == blocks[i]
    {
    }
    if c in KeepAll(sha, map[], rest) {
      KeptBlocksFit(sha, fetch, rest, c);
    }
  }

  /** So the DAG a fetch returned is whole once kept if and only if no block of it is larger than a chunk. */
  lemma FetchedIsWholeIffItFits(sha: Hash, fetch: Fetcher, root: Cid, blocks: seq<(Cid, Block)>)
    requires IsWholeDag(sha, fetch, root, blocks)
    ensures HoldsWholeDag(KeepAll(sha, map[], blocks), root) <==>
            forall i :: 0 <= i < |blocks| ==> |blocks[i].1| <= MAX_BLOCK_BYTES
  {
    var kept := KeepAll(sha, map[], blocks);
    if forall i :: 0 <= i < |blocks| ==> |blocks[i].1| <= MAX_BLOCK_BYTES {
      FetchedThenKeptIsWhole(sha, fetch, root, blocks, map[]);
    } else if HoldsWholeDag(kept, root) {
      var i :| 0 <= i < |blocks| && |blocks[i].1| > MAX_BLOCK_BYTES;
      var c := Names(blocks)[i];
      WholeHoldsFetched(sha, fetch, root, blocks, c);
      KeptBlocksFit(sha, fetch, blocks, c);
    }
  }

  lemma WholeHoldsFetched(sha: Hash, fetch: Fetcher, root: Cid, blocks: seq<(Cid, Block)>, c: Cid)
    requires IsWholeDag(sha, fetch, root, blocks) && HoldsWholeDag(KeepAll(sha, map[], blocks), root)
    requires c in Names(blocks)
    ensures c in KeepAll(sha, map[], blocks)
  {
    hide Reachable, Matches, KeepAll, WithinCap;
    var kept := KeepAll(sha, map[], blocks);
    var s := iset d | Reachable(HeldKids(kept), root, d);
    ReachableIsClosed(HeldKids(kept), root, s);
    forall v, w | v in s && w in FetchedKids(fetch)(v)
      ensures w in s
    {
      KeptBlocksFit(sha, fetch, blocks, v);
      assert HeldKids(kept)(v) == FetchedKids(fetch)(v);
    }
    ReachableStaysIn(FetchedKids(fetch), s, root, c);
  }

  /** And it assembles from the store exactly as from the fetched blocks alone, never for want of a block. */
  lemma FetchedThenKeptAssembles(sha: Hash, fetch: Fetcher, root: Cid, blocks: seq<(Cid, Block)>, store: Store)
    requires IsWholeDag(sha, fetch, root, blocks)
    requires forall i :: 0 <= i < |blocks| ==> |blocks[i].1| <= MAX_BLOCK_BYTES
    ensures Assemble(sha, HeldLook(KeepAll(sha, store, blocks)), root) ==
            Assemble(sha, HeldLook(KeepAll(sha, map[], blocks)), root)
    ensures forall c :: Assemble(sha, HeldLook(KeepAll(sha, store, blocks)), root) != Err(Unavailable(NotHeld(c)))
  {
    var kept, alone := KeepAll(sha, store, blocks), KeepAll(sha, map[], blocks);
    KeepAllHolds(sha, store, blocks);
    KeepAllHolds(sha, map[], blocks);
    forall c | Reachable(LookedUpKids(HeldLook(kept)), root, c)
      ensures HeldLook(kept)(c) == HeldLook(alone)(c) && HeldLook(kept)(c).Some?
    {
      ReachableIsFetched(sha, fetch, root, blocks, kept, c);
      var i :| 0 <= i < |Names(blocks)| && Names(blocks)[i] == c;
    }
    AssembleLocal(sha, HeldLook(kept), HeldLook(alone), root);
    forall c
      ensures Assemble(sha, HeldLook(kept), root) != Err(Unavailable(NotHeld(c)))
    {
      NeverAbsent(sha, HeldLook(kept), root, c);
    }
  }

  /** On the fetched blocks the held-content walk visits the same identifiers in the same order as the fetch did. */
  lemma SameOrderAsFetch(sha: Hash, fetch: Fetcher, root: Cid, blocks: seq<(Cid, Block)>, store: Store)
    requires IsWholeDag(sha, fetch, root, blocks) && HoldsAll(store, blocks)
    requires Names(blocks) == Traverse(FetchedKids(fetch), Start(root), MAX_DAG_BLOCKS).order
    ensures WalkOf(store, root) == Names(blocks)
  {
    forall c | c in Names(blocks)
      ensures FetchedKids(fetch)(c) == HeldKids(store)(c)
    {
      var i :| 0 <= i < |Names(blocks)| && Names(blocks)[i] == c;
    }
    TraverseLocal(FetchedKids(fetch), HeldKids(store), Start(root), MAX_DAG_BLOCKS);
  }

  // ---- Where "nothing missing" is said of less than the whole DAG ----

  /** The identifier of `block` under `codec`, with the minimal header. */
  lemma CidFor(sha: Hash, codec: byte, block: Block) returns (c: Cid)
    requires codec == CODEC_RAW || codec == CODEC_DAG_PB
    ensures IsCid(c) && Codec(c) == codec && DigestOf(c) == sha(block)
  {
    var b := MinimalBinary(codec, sha(block));
    FromBinaryAccepts(b);
    c := FromBinary(b).value;
  }

  lemma UnreadableBlock()
    ensures Links([0xff]).None?
  {
    var block: Block := [0xff];
    assert block[1..] == [];
  }

  lemma LoneRoot(store: Store, root: Cid)
    requires root in store && HeldKids(store)(root) == []
    ensures WithinCap(store, root) && Missing(store, root) == []
    ensures Reachable(HeldKids(store), root, root)
  {
    var kids := HeldKids(store);
    ReachesItself(kids, root);
    forall c | Reachable(kids, root, c)
      ensures c in [root]
    {
      ReachableStaysIn(kids, iset{root}, root, c);
    }
    assert WithinCap(store, root);
    WalkIsCompleteIffWithinCap(store, root);
    NothingMissingIff(store, root);
  }

  /** A held dag-pb block whose links cannot be read: nothing is missing, and nothing can be assembled. */
  lemma UnreadableLinksLookComplete(sha: Hash) returns (store: Store, root: Cid)
    ensures Authentic(sha, store) && WithinCap(store, root)
    ensures Missing(store, root) == []
    ensures !HoldsWholeDag(store, root)
    ensures Assemble(sha, HeldLook(store), root) == Err(ContentMismatch)
  {
    var block: Block := [0xff];
    UnreadableBlock();
    root := CidFor(sha, CODEC_DAG_PB, block);
    store := map[root := block];
    UnreadableHeld(sha, store, root);
    LoneRoot(store, root);
    FailsAtOnce(sha, HeldLook(store), root);
  }

  lemma UnreadableHeld(sha: Hash, store: Store, root: Cid)
    requires root in store && IsChunked(root) && Links(store[root]).None? && Matches(sha, root, store[root])
    ensures HeldKids(store)(root) == [] && LinksOf(root, store[root]).None?
    ensures TurnOf(sha, HeldLook(store), root) == Fail(ContentMismatch)
  {
  }

  lemma FailsAtOnce(sha: Hash, look: Lookup, root: Cid)
    requires TurnOf(sha, look, root).Fail?
    ensures Assemble(sha, look, root) == Err(TurnOf(sha, look, root).error)
  {
    AssemblingStep(TurnsOf(sha, look), root, [], 0, []);
    assert [root] + [] == [root];
  }

  // ---- Blocks enough to pass the cap ----

  /** Blocks a node would keep, no two with the same digest. */
  ghost predicate AllDiffer(sha: Hash, bs: seq<Block>) {
    && (forall i :: 0 <= i < |bs| ==> |bs[i]| <= MAX_BLOCK_BYTES)
    && (forall i, j :: 0 <= i < j < |bs| ==> sha(bs[i]) != sha(bs[j]))
  }

  /** `cs` are the raw identifiers of `bs`, and `store` holds exactly them. */
  ghost predicate Leaves(sha: Hash, bs: seq<Block>, cs: seq<Cid>, store: Store) {
    && |cs| == |bs|
    && (forall i :: 0 <= i < |cs| ==> IsLeaf(sha, cs[i], bs[i]))
    && (forall c :: c in store <==> c in cs)
    && Authentic(sha, store)
  }

  ghost predicate IsLeaf(sha: Hash, c: Cid, b: Block) {
    IsCid(c) && IsVerifiable(c) && Matches(sha, c, b)
  }

  lemma {:induction false} MakeLeaves(sha: Hash, bs: seq<Block>) returns (cs: seq<Cid>, store: Store)
    requires AllDiffer(sha, bs)
    ensures Leaves(sha, bs, cs, store)
  {
    hide IsCid, IsVerifiable, Matches;
    if bs == [] {
      cs, store := [], map[];
    } else {
      var last := |bs| - 1;
      var ds, rest := MakeLeaves(sha, bs[..last]);
      var c := LeafFor(sha, bs[last]);
      cs, store := ds + [c], rest[c := bs[last]];
    }
  }

  lemma LeafFor(sha: Hash, b: Block) returns (c: Cid)
    ensures IsLeaf(sha, c, b)
  {
    c := CidFor(sha, CODEC_RAW, b);
  }

  lemma LeavesDistinct(sha: Hash, bs: seq<Block>, cs: seq<Cid>, store: Store)
    requires AllDiffer(sha, bs) && Leaves(sha, bs, cs, store)
    ensures Distinct(cs)
    ensures forall c :: c in cs ==> IsVerifiable(c)
    ensures forall i :: 0 <= i < |cs| ==> IsCid(cs[i])
  {
    hide IsCid, IsVerifiable, Authentic;
    forall i, j | 0 <= i < j < |cs|
      ensures cs[i] != cs[j]
    {
      assert IsLeaf(sha, cs[i], bs[i]) && IsLeaf(sha, cs[j], bs[j]);
    }
    assert forall i :: 0 <= i < |cs| ==> IsLeaf(sha, cs[i], bs[i]);
  }

  lemma {:induction false} NodeSize(children: seq<Cid>)
    requires forall i :: 0 <= i < |children| ==> |LinkBytes(children[i])| < 128
    ensures |Node(children)| <= 130 * |children| + 4
  {
    if children != [] {
      NodeSize(children[1..]);
    }
  }

  lemma MakeRoot(sha: Hash, cs: seq<Cid>) returns (root: Cid, node: Block)
    requires |cs| <= MAX_LINKS_PER_NODE && forall i :: 0 <= i < |cs| ==> IsCid(cs[i])
    ensures IsChunked(root) && Links(node) == Some(cs) && Keepable(sha, root, node)
  {
    node := Node(cs);
    root := CidFor(sha, CODEC_DAG_PB, node);
    LinksOfNode(cs);
    forall i | 0 <= i < |cs|
      ensures |LinkBytes(cs[i])| < 128
    {
      LinkBytesRead(cs[i]);
    }
    NodeSize(cs);
  }

  lemma FanKids(store: Store, root: Cid, cs: seq<Cid>)
    requires root in store && IsChunked(root) && Links(store[root]) == Some(cs)
    requires forall c :: c in cs ==> IsVerifiable(c)
    ensures HeldKids(store)(root) == cs && root !in cs
    ensures forall c :: c in cs ==> HeldKids(store)(c) == []
  {
  }

  /** A root whose leaves outnumber the visits reaches more than the cap. */
  lemma FanPassesCap(store: Store, root: Cid, cs: seq<Cid>)
    requires HeldKids(store)(root) == cs && |cs| >= MAX_DAG_BLOCKS && Distinct(cs) && root !in cs
    ensures !WithinCap(store, root)
  {
    var kids := HeldKids(store);
    ReachesItself(kids, root);
    forall c | c in cs + [root]
      ensures Reachable(kids, root, c)
    {
      if c in cs {
        ReachesKid(kids, root, root, c);
      }
    }
    hide Reachable;
    DistinctAppend(cs, [root]);
    forall vs: seq<Cid> | forall c :: Reachable(kids, root, c) ==> c in vs
      ensures |vs| > MAX_DAG_BLOCKS
    {
      DistinctFits(cs + [root], vs);
    }
  }

  lemma FanHoldsReachable(store: Store, root: Cid, cs: seq<Cid>)
    requires HeldKids(store)(root) == cs && root in store && forall c :: c in cs ==> c in store
    requires forall c :: c in cs ==> HeldKids(store)(c) == []
    ensures HoldsReachable(store, root)
  {
    var s := iset c | c == root || c in cs;
    forall c | Reachable(HeldKids(store), root, c)
      ensures c in store
    {
      ReachableStaysIn(HeldKids(store), s, root, c);
    }
  }

  /**
   One leaf over the cap, for any hash and any 512 blocks it tells apart: in a store that holds the whole DAG there is a
   block which a sweep that keeps the root drops, and which can be lost without being missed.
   */
  lemma CapHidesAHole(sha: Hash, bs: seq<Block>) returns (full: Store, root: Cid, hole: Cid)
    requires |bs| == MAX_DAG_BLOCKS && AllDiffer(sha, bs)
    ensures Authentic(sha, full) && HoldsReachable(full, root)
    ensures hole in full && Reachable(HeldKids(full), root, hole) && hole !in Evict(full, [root])
    ensures Missing(full - {hole}, root) == [] && Reachable(HeldKids(full - {hole}), root, hole)
  {
    hide IsCid, IsVerifiable, Links, IsLeaf, Keepable, HeldKids, Reachable, WithinCap, WalkOf, Missing;
    var cs, leaves := MakeLeaves(sha, bs);
    LeavesDistinct(sha, bs, cs, leaves);
    var node;
    root, node := MakeRoot(sha, cs);
    full := leaves[root := node];
    FanKids(full, root, cs);
    FanPassesCap(full, root, cs);
    FanHoldsReachable(full, root, cs);
    hole := HoleOffTheWalk(full, root);
    WalkIsCompleteIffWithinCap(full, root);
    NothingMissingIff(full, root);
    SameOnWalkSameMissing(full, full - {hole}, root);
  }

  /** For any hash, a fetch that succeeds on a block one byte larger than a chunk, which is then not kept. */
  lemma OversizedBlockIsFetchedNotKept(sha: Hash)
    returns (fetch: Fetcher, root: Cid, blocks: seq<(Cid, Block)>)
    ensures IsWholeDag(sha, fetch, root, blocks)
    ensures !HoldsWholeDag(KeepAll(sha, map[], blocks), root) && Missing(KeepAll(sha, map[], blocks), root) != []
  {
    var block: Block := seq(MAX_BLOCK_BYTES + 1, _ => 0);
    var c := LeafFor(sha, block);
    root, blocks := c, [(c, block)];
    fetch := (d: Cid) => if d == c then Ok(block) else Err(Unavailable(NotHeld(d)));
    LoneBlockIsWhole(sha, fetch, root, block);
    FetchedIsWholeIffItFits(sha, fetch, root, blocks);
    assert blocks[..0] == [];
    assert KeepAll(sha, map[], blocks) == map[];
    WalkIsCompleteIffWithinCap(map[], root);
    NothingMissingIff(map[], root);
  }

  lemma LoneBlockIsWhole(sha: Hash, fetch: Fetcher, c: Cid, b: Block)
    requires IsLeaf(sha, c, b) && fetch(c) == Ok(b) && |b| <= MAX_DAG_BYTES
    ensures IsWholeDag(sha, fetch, c, [(c, b)])
  {
    var kids := FetchedKids(fetch);
    assert kids(c) == [] && Names([(c, b)]) == [c];
    ReachesItself(kids, c);
    forall d | Reachable(kids, c, d)
      ensures d == c
    {
      ReachableStaysIn(kids, iset{c}, c, d);
    }
    assert [c][..0] == [];
  }
}
