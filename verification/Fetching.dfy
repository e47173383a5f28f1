/** Collecting the blocks of a DAG from wherever blocks come from, all of them or none. */
module Fetching {
  import opened Wrappers
  import opened MachineInt
  import opened Cids
  import opened DagPb
  import opened Graph
  import Attachments

  const MAX_DAG_BYTES: nat := Attachments.MAX_ATTACHMENT_BYTES
  const MAX_DAG_BLOCKS: nat := 512

  type Block = seq<byte>

  /** Why nothing came back: a source's own reason, a block not held, or a leaf in framing nobody reads. */
  datatype Cause = Source(reason: string) | NotHeld(cid: Cid) | UnixfsLeaf

  datatype PinError = Unavailable(cause: Cause) | TooLarge | ContentMismatch

  /** What a source answers for each identifier. No identifier is asked twice in one walk. */
  type Fetcher = Cid -> Result<Block, PinError>

  ghost predicate IsChunked(c: Cid) {
    !IsVerifiable(c)
  }

  /** The links of the block `b` when it arrives as `c`: a raw block has none. */
  ghost function LinksOf(c: Cid, b: Block): Option<seq<Cid>> {
    if IsChunked(c) then Links(b) else Some([])
  }

  ghost function FetchedKids(fetch: Fetcher): Cid -> seq<Cid> {
    (c: Cid) => if fetch(c).Ok? && LinksOf(c, fetch(c).value).Some? then LinksOf(c, fetch(c).value).value else []
  }

  ghost function FetchedSize(fetch: Fetcher): Cid -> nat {
    (c: Cid) => if fetch(c).Ok? then |fetch(c).value| else 0
  }

  /** The source has the block, it is the one named, and its links can be followed. */
  ghost predicate Sound(sha: Hash, fetch: Fetcher, c: Cid) {
    fetch(c).Ok? && Matches(sha, c, fetch(c).value) && LinksOf(c, fetch(c).value).Some?
  }

  function Names(blocks: seq<(Cid, Block)>): (names: seq<Cid>)
    ensures |names| == |blocks|
    ensures forall i :: 0 <= i < |names| ==> names[i] == blocks[i].0
  {
    seq(|blocks|, i requires 0 <= i < |blocks| => blocks[i].0)
  }

  /**
   `blocks` is the whole DAG under `root`: precisely the identifiers reachable
   through links, each once, the root first, every block what its own identifier
   names, within both caps.
   */
  ghost predicate IsWholeDag(sha: Hash, fetch: Fetcher, root: Cid, blocks: seq<(Cid, Block)>) {
    var names := Names(blocks);
    && blocks != [] && names[0] == root
    && Distinct(names)
    && (forall c :: c in names <==> Reachable(FetchedKids(fetch), root, c))
    && AllSound(sha, fetch, blocks)
    && |blocks| <= MAX_DAG_BLOCKS
    && Sum(FetchedSize(fetch), names) <= MAX_DAG_BYTES
  }

  ghost predicate AllReached(fetch: Fetcher, root: Cid, cs: seq<Cid>) {
    Distinct(cs) && forall c :: c in cs ==> Reachable(FetchedKids(fetch), root, c)
  }

  /** A block under `root` that accounts for the failure `e`, or too many of them for the caps. */
  ghost predicate Blamed(sha: Hash, fetch: Fetcher, root: Cid, e: PinError) {
    || (exists c :: Reachable(FetchedKids(fetch), root, c) && fetch(c) == Err(e))
    || (e == ContentMismatch && exists c :: Reachable(FetchedKids(fetch), root, c) &&
                                            fetch(c).Ok? && !Sound(sha, fetch, c))
    || (e == TooLarge && exists cs :: AllReached(fetch, root, cs) &&
                                      (|cs| > MAX_DAG_BLOCKS || Sum(FetchedSize(fetch), cs) > MAX_DAG_BYTES))
  }

  lemma BlameBlock(sha: Hash, fetch: Fetcher, root: Cid, c: Cid)
    requires Reachable(FetchedKids(fetch), root, c)
    ensures fetch(c).Err? ==> Blamed(sha, fetch, root, fetch(c).error)
    ensures fetch(c).Ok? && !Sound(sha, fetch, c) ==> Blamed(sha, fetch, root, ContentMismatch)
  {
  }

  lemma BlameSize(sha: Hash, fetch: Fetcher, root: Cid, cs: seq<Cid>)
    requires AllReached(fetch, root, cs) && (|cs| > MAX_DAG_BLOCKS || Sum(FetchedSize(fetch), cs) > MAX_DAG_BYTES)
    ensures Blamed(sha, fetch, root, TooLarge)
  {
  }

  lemma BlameExcludesSuccess(sha: Hash, fetch: Fetcher, root: Cid, e: PinError, blocks: seq<(Cid, Block)>)
    requires Blamed(sha, fetch, root, e)
    ensures !IsWholeDag(sha, fetch, root, blocks)
  {
    if IsWholeDag(sha, fetch, root, blocks) {
      var names := Names(blocks);
      forall c | Reachable(FetchedKids(fetch), root, c)
        ensures Sound(sha, fetch, c)
      {
        var i :| 0 <= i < |names| && names[i] == c;
      }
      var cs :| AllReached(fetch, root, cs) && (|cs| > MAX_DAG_BLOCKS || Sum(FetchedSize(fetch), cs) > MAX_DAG_BYTES);
      DistinctFits(cs, names);
      SumFits(FetchedSize(fetch), cs, names);
    }
  }

  /** Every block collected so far is the source's own answer, and sound. */
  ghost predicate AllSound(sha: Hash, fetch: Fetcher, blocks: seq<(Cid, Block)>) {
    forall i :: 0 <= i < |blocks| ==> Sound(sha, fetch, blocks[i].0) && fetch(blocks[i].0).value == blocks[i].1
  }

  ghost predicate Walked(fetch: Fetcher, root: Cid, names: seq<Cid>, pending: seq<Cid>, seen: set<Cid>) {
    At(FetchedKids(fetch), root, Frontier(names, pending, seen), |names|)
  }

  lemma NextIsReached(fetch: Fetcher, root: Cid, names: seq<Cid>, pending: seq<Cid>, seen: set<Cid>)
    requires Walked(fetch, root, names, pending, seen) && pending != []
    ensures AllReached(fetch, root, names + [pending[0]])
    ensures Reachable(FetchedKids(fetch), root, pending[0])
    ensures Sum(FetchedSize(fetch), names + [pending[0]]) ==
            Sum(FetchedSize(fetch), names) + FetchedSize(fetch)(pending[0])
  {
    NextIsNew(FetchedKids(fetch), root, Frontier(names, pending, seen));
    var xs := names + [pending[0]];
    assert xs[|names|] == pending[0] && xs[..|names|] == names;
  }

  lemma NextIsWalked(fetch: Fetcher, root: Cid, names: seq<Cid>, pending: seq<Cid>, seen: set<Cid>, links: seq<Cid>)
    requires Walked(fetch, root, names, pending, seen) && pending != []
    requires fetch(pending[0]).Ok? && LinksOf(pending[0], fetch(pending[0]).value) == Some(links)
    ensures Walked(fetch, root, names + [pending[0]], pending[1..] + Fresh(links, seen), seen + set k | k in links)
  {
    VisitAt(FetchedKids(fetch), root, Frontier(names, pending, seen), |names|);
    assert FetchedKids(fetch)(pending[0]) == links;
  }

  function Extend(ghost sha: Hash, ghost fetch: Fetcher, blocks: seq<(Cid, Block)>, c: Cid, b: Block):
    (r: seq<(Cid, Block)>)
    requires AllSound(sha, fetch, blocks) && Sound(sha, fetch, c) && fetch(c).value == b
    ensures AllSound(sha, fetch, r) && Names(r) == Names(blocks) + [c]
  {
    blocks + [(c, b)]
  }

  method Fetch(sha: Hash, fetch: Fetcher, root: Cid)
    returns (r: Result<seq<(Cid, Block)>, PinError>, asked: seq<Cid>)
    ensures |asked| <= MAX_DAG_BLOCKS && AllReached(fetch, root, asked)
    ensures r.Ok? ==> IsWholeDag(sha, fetch, root, r.value)
    ensures r.Ok? ==> asked == Names(r.value) == Traverse(FetchedKids(fetch), Start(root), MAX_DAG_BLOCKS).order
    ensures r.Err? ==> Blamed(sha, fetch, root, r.error)
    ensures r.Err? ==> forall blocks :: !IsWholeDag(sha, fetch, root, blocks)
  {
    r, asked := FetchLoop(sha, fetch, root);
    if r.Err? {
      forall blocks
        ensures !IsWholeDag(sha, fetch, root, blocks)
      {
        BlameExcludesSuccess(sha, fetch, root, r.error, blocks);
      }
    }
  }

  method FetchLoop(sha: Hash, fetch: Fetcher, root: Cid)
    returns (r: Result<seq<(Cid, Block)>, PinError>, asked: seq<Cid>)
    ensures |asked| <= MAX_DAG_BLOCKS && AllReached(fetch, root, asked)
    ensures r.Ok? ==> IsWholeDag(sha, fetch, root, r.value)
    ensures r.Ok? ==> asked == Names(r.value) == Traverse(FetchedKids(fetch), Start(root), MAX_DAG_BLOCKS).order
    ensures r.Err? ==> Blamed(sha, fetch, root, r.error)
  {
    var blocks: seq<(Cid, Block)> := [];
    var pending, seen, total := [root], {root}, 0;
    asked := [];
    StartAt(FetchedKids(fetch), root);
    assert Walked(fetch, root, Names(blocks), pending, seen) && AllReached(fetch, root, asked);
    hide Walked, AllSound, AllReached, Blamed, IsWholeDag, Matches, FetchedKids, Reachable, Traverse, Fresh, LinksOf;
    while pending != []
      invariant Walked(fetch, root, Names(blocks), pending, seen) && AllSound(sha, fetch, blocks)
      invariant asked == Names(blocks) && |blocks| <= MAX_DAG_BLOCKS && AllReached(fetch, root, asked)
      invariant total == Sum(FetchedSize(fetch), Names(blocks)) <= MAX_DAG_BYTES
      decreases MAX_DAG_BLOCKS + 1 - |blocks|
    {
      NextIsReached(fetch, root, asked, pending, seen);
      var cid := pending[0];
      if |blocks| == MAX_DAG_BLOCKS {
        assert Blamed(sha, fetch, root, TooLarge) by { BlameSize(sha, fetch, root, asked + [cid]); }
        return Err(TooLarge), asked;
      }
      asked := asked + [cid];
      var answer := GetBlock(sha, fetch, cid);
      if answer.Err? {
        assert Blamed(sha, fetch, root, answer.error) by { BlameBlock(sha, fetch, root, cid); }
        return Err(answer.error), asked;
      }
      var block := answer.value;
      total := total + |block|;
      if total > MAX_DAG_BYTES {
        assert Blamed(sha, fetch, root, TooLarge) by { BlameSize(sha, fetch, root, asked); }
        return Err(TooLarge), asked;
      }
      var links := FollowedLinks(cid, block);
      if links.None? {
        assert Blamed(sha, fetch, root, ContentMismatch) by { BlameBlock(sha, fetch, root, cid); }
        return Err(ContentMismatch), asked;
      }
      NextIsWalked(fetch, root, Names(blocks), pending, seen, links.value);
      pending, seen := Enqueue(links.value, pending[1..], seen);
      blocks := Extend(sha, fetch, blocks, cid, block);
    }
    WalkedDry(sha, fetch, root, blocks, seen);
    return Ok(blocks), asked;
  }

  lemma WalkedDry(sha: Hash, fetch: Fetcher, root: Cid, blocks: seq<(Cid, Block)>, seen: set<Cid>)
    requires Walked(fetch, root, Names(blocks), [], seen) && AllSound(sha, fetch, blocks)
    requires |blocks| <= MAX_DAG_BLOCKS
    requires Sum(FetchedSize(fetch), Names(blocks)) <= MAX_DAG_BYTES
    ensures IsWholeDag(sha, fetch, root, blocks)
    ensures Names(blocks) == Traverse(FetchedKids(fetch), Start(root), MAX_DAG_BLOCKS).order
  {
    DryMeansAll(FetchedKids(fetch), root, Frontier(Names(blocks), [], seen));
    assert Names(blocks) + [] == Names(blocks);
    TraverseDry(FetchedKids(fetch), Start(root), |blocks|, MAX_DAG_BLOCKS);
  }

  function TotalBytes(blocks: seq<(Cid, Block)>): nat {
    if blocks == [] then 0 else TotalBytes(blocks[..|blocks| - 1]) + |blocks[|blocks| - 1].1|
  }

  lemma {:induction false} SizesAreBytes(sha: Hash, fetch: Fetcher, blocks: seq<(Cid, Block)>)
    requires AllSound(sha, fetch, blocks)
    ensures Sum(FetchedSize(fetch), Names(blocks)) == TotalBytes(blocks)
  {
    hide Matches, LinksOf;
    if blocks != [] {
      var last := |blocks| - 1;
      var rest := blocks[..last];
      assert forall i :: 0 <= i < |rest| ==> rest[i] == blocks[i];
      SizesAreBytes(sha, fetch, rest);
      assert Names(blocks)[..last] == Names(rest);
    }
  }

  /** A whole DAG is at most 512 blocks and ten mebibytes, all its blocks taken together. */
  lemma WholeDagFits(sha: Hash, fetch: Fetcher, root: Cid, blocks: seq<(Cid, Block)>)
    requires IsWholeDag(sha, fetch, root, blocks)
    ensures |blocks| <= 512 && TotalBytes(blocks) <= 10_485_760
  {
    SizesAreBytes(sha, fetch, blocks);
  }

  /** Asks the source, and checks the answer against the identifier whatever the source claims to have checked. */
  method GetBlock(sha: Hash, fetch: Fetcher, c: Cid) returns (r: Result<Block, PinError>)
    ensures fetch(c).Err? ==> r == fetch(c)
    ensures fetch(c).Ok? ==> r == if Matches(sha, c, fetch(c).value) then fetch(c) else Err(ContentMismatch)
  {
    r := fetch(c);
    if r.Ok? {
      var matched := MatchesContent(sha, c, r.value);
      if !matched {
        return Err(ContentMismatch);
      }
    }
  }

  method FollowedLinks(c: Cid, b: Block) returns (r: Option<seq<Cid>>)
    ensures r == LinksOf(c, b)
  {
    var raw := Verifiable(c);
    if raw {
      return Some([]);
    }
    r := ReadLinks(b);
  }
}
