/**
 The file a DAG spells out. The loop keeps an explicit stack; the specification
 is the finite ordered tree that the links under the root unfold to, read left
 to right.
 */
module Assembly {
  import opened Wrappers
  import opened Cids
  import opened DagPb
  import opened Graph
  import opened Fetching

  /** A node's own view of the blocks: present, or not coming. */
  type Lookup = Cid -> Option<Block>

  /** What one identifier amounts to: a failure, bytes for the file, or links to follow. */
  datatype Turn = Fail(error: PinError) | Emit(bytes: Block) | Push(links: seq<Cid>)

  /** Only a block that is present and the one named counts: raw, its bytes; dag-pb, its links, if it has any. */
  ghost function TurnOf(sha: Hash, look: Lookup, c: Cid): Turn {
    if look(c).None? then Fail(Unavailable(NotHeld(c)))
    else if !Matches(sha, c, look(c).value) then Fail(ContentMismatch)
    else if !IsChunked(c) then Emit(look(c).value)
    else
      match Links(look(c).value)
      case None => Fail(ContentMismatch)
      case Some(cs) => if cs == [] then Fail(Unavailable(UnixfsLeaf)) else Push(cs)
  }

  type Turns = Cid -> Turn

  ghost function TurnsOf(sha: Hash, look: Lookup): Turns {
    (c: Cid) => TurnOf(sha, look, c)
  }

  // ---- The tree ----

  datatype Tree = Leaf(cid: Cid, bytes: Block) | Fork(cid: Cid, kids: seq<Tree>)

  /** `t` is what `c` unfolds to: leaves emit, forks push one child a link, nothing fails. */
  ghost predicate Unfolds(turns: Turns, c: Cid, t: Tree)
    decreases t
  {
    && t.cid == c
    && match t
       case Leaf(_, bytes) => turns(c) == Emit(bytes)
       case Fork(_, kids) =>
         && turns(c).Push?
         && var cs := turns(c).links;
            |kids| == |cs| && forall i :: 0 <= i < |cs| ==> Unfolds(turns, cs[i], kids[i])
  }

  ghost predicate UnfoldsAll(turns: Turns, cs: seq<Cid>, ts: seq<Tree>) {
    |ts| == |cs| && forall i :: 0 <= i < |cs| ==> Unfolds(turns, cs[i], ts[i])
  }

  /** The identifiers met in a left-to-right walk, repeats kept. */
  function Visits(t: Tree): (cs: seq<Cid>)
    ensures cs != [] && cs[0] == t.cid
    decreases t, 1
  {
    match t
    case Leaf(c, _) => [c]
    case Fork(c, kids) => [c] + VisitsAll(kids)
  }

  function VisitsAll(ts: seq<Tree>): seq<Cid>
    decreases ts, 0
  {
    if ts == [] then [] else Visits(ts[0]) + VisitsAll(ts[1..])
  }

  /** The leaves, left to right. */
  function Content(t: Tree): Block
    decreases t, 1
  {
    match t
    case Leaf(_, bytes) => bytes
    case Fork(_, kids) => ContentAll(kids)
  }

  function ContentAll(ts: seq<Tree>): Block
    decreases ts, 0
  {
    if ts == [] then [] else Content(ts[0]) + ContentAll(ts[1..])
  }

  lemma {:induction false} ForestAppend(ts: seq<Tree>, us: seq<Tree>)
    ensures VisitsAll(ts + us) == VisitsAll(ts) + VisitsAll(us)
    ensures ContentAll(ts + us) == ContentAll(ts) + ContentAll(us)
  {
    if ts == [] {
      assert ts + us == us;
    } else {
      assert (ts + us)[1..] == ts[1..] + us;
      ForestAppend(ts[1..], us);
    }
  }

  lemma FirstTree(t: Tree, tail: seq<Tree>)
    ensures VisitsAll([t] + tail) == Visits(t) + VisitsAll(tail)
    ensures ContentAll([t] + tail) == Content(t) + ContentAll(tail)
  {
    assert ([t] + tail)[1..] == tail;
  }

  lemma NoTrees()
    ensures VisitsAll([]) == [] && ContentAll([]) == []
  {
  }

  lemma LeafFirst(c: Cid, b: Block, tail: seq<Tree>)
    ensures VisitsAll([Leaf(c, b)] + tail) == [c] + VisitsAll(tail)
    ensures ContentAll([Leaf(c, b)] + tail) == b + ContentAll(tail)
  {
    FirstTree(Leaf(c, b), tail);
  }

  lemma ForkFirst(c: Cid, kids: seq<Tree>, tail: seq<Tree>)
    ensures VisitsAll([Fork(c, kids)] + tail) == [c] + VisitsAll(kids + tail)
    ensures ContentAll([Fork(c, kids)] + tail) == ContentAll(kids + tail)
  {
    FirstTree(Fork(c, kids), tail);
    ForestAppend(kids, tail);
    Reassociate([c], VisitsAll(kids), VisitsAll(tail));
  }

  // ---- The loop, next entry first ----

  ghost function Assembling(turns: Turns, todo: seq<Cid>, visited: nat, file: Block): Result<Block, PinError>
    decreases MAX_DAG_BLOCKS - visited
  {
    if todo == [] then Ok(file)
    else if visited >= MAX_DAG_BLOCKS then Err(TooLarge)
    else
      match turns(todo[0])
      case Fail(e) => Err(e)
      case Emit(b) =>
        if |file| + |b| > MAX_DAG_BYTES then Err(TooLarge)
        else Assembling(turns, todo[1..], visited + 1, file + b)
      case Push(cs) => Assembling(turns, cs + todo[1..], visited + 1, file)
  }

  ghost function Assemble(sha: Hash, look: Lookup, root: Cid): Result<Block, PinError> {
    Assembling(TurnsOf(sha, look), [root], 0, [])
  }

  // ---- The loop succeeds exactly on the trees within the caps ----

  lemma {:induction false} AssemblingSound(turns: Turns, todo: seq<Cid>, visited: nat, file: Block)
    returns (ts: seq<Tree>)
    requires visited <= MAX_DAG_BLOCKS && |file| <= MAX_DAG_BYTES
    requires Assembling(turns, todo, visited, file).Ok?
    ensures UnfoldsAll(turns, todo, ts)
    ensures visited + |VisitsAll(ts)| <= MAX_DAG_BLOCKS
    ensures Assembling(turns, todo, visited, file) == Ok(file + ContentAll(ts))
    ensures |file + ContentAll(ts)| <= MAX_DAG_BYTES
    decreases MAX_DAG_BLOCKS - visited
  {
    NoTrees();
    hide Visits, VisitsAll, Content, ContentAll;
    if todo == [] {
      ts := [];
      assert file + [] == file;
    } else {
      var c, rest := todo[0], todo[1..];
      match turns(c)
      case Emit(b) =>
        var tail := AssemblingSound(turns, rest, visited + 1, file + b);
        ts := [Leaf(c, b)] + tail;
        LeafFirst(c, b, tail);
        Reassociate(file, b, ContentAll(tail));
      case Push(cs) =>
        var us := AssemblingSound(turns, cs + rest, visited + 1, file);
        var kids, tail := us[..|cs|], us[|cs|..];
        ts := [Fork(c, kids)] + tail;
        assert us == kids + tail;
        ForkFirst(c, kids, tail);
        SplitUnfold(turns, cs, rest, us);
    }
  }

  lemma SplitUnfold(turns: Turns, cs: seq<Cid>, rest: seq<Cid>, us: seq<Tree>)
    requires UnfoldsAll(turns, cs + rest, us)
    ensures UnfoldsAll(turns, cs, us[..|cs|]) && UnfoldsAll(turns, rest, us[|cs|..])
  {
    assert forall i :: 0 <= i < |cs| ==> (cs + rest)[i] == cs[i];
    assert forall i :: 0 <= i < |rest| ==> (cs + rest)[|cs| + i] == rest[i];
  }

  lemma JoinUnfold(turns: Turns, cs: seq<Cid>, rest: seq<Cid>, kids: seq<Tree>, tail: seq<Tree>)
    requires UnfoldsAll(turns, cs, kids) && UnfoldsAll(turns, rest, tail)
    ensures UnfoldsAll(turns, cs + rest, kids + tail)
  {
  }

  lemma {:induction false} AssemblingComplete(turns: Turns, todo: seq<Cid>, visited: nat, file: Block, ts: seq<Tree>)
    requires UnfoldsAll(turns, todo, ts)
    requires visited + |VisitsAll(ts)| <= MAX_DAG_BLOCKS && |file + ContentAll(ts)| <= MAX_DAG_BYTES
    ensures Assembling(turns, todo, visited, file) == Ok(file + ContentAll(ts))
    decreases |VisitsAll(ts)|
  {
    if todo == [] {
      assert file + [] == file;
    } else {
      var c, rest, tail := todo[0], todo[1..], ts[1..];
      assert UnfoldsAll(turns, rest, tail);
      match ts[0]
      case Leaf(_, b) =>
        assert file + (b + ContentAll(tail)) == file + b + ContentAll(tail);
        AssemblingComplete(turns, rest, visited + 1, file + b, tail);
      case Fork(_, kids) =>
        var cs := turns(c).links;
        ForestAppend(kids, tail);
        JoinUnfold(turns, cs, rest, kids, tail);
        assert |VisitsAll(ts)| == 1 + |VisitsAll(kids + tail)|;
        AssemblingComplete(turns, cs + rest, visited + 1, file, kids + tail);
    }
  }

  /** The tree that makes `f` the file of `root`. */
  ghost predicate SpellsFile(turns: Turns, root: Cid, f: Block, t: Tree) {
    Unfolds(turns, root, t) && |Visits(t)| <= MAX_DAG_BLOCKS && Content(t) == f && |f| <= MAX_DAG_BYTES
  }

  lemma AssemblingIffTree(turns: Turns, root: Cid, f: Block)
    ensures Assembling(turns, [root], 0, []) == Ok(f) <==> exists t :: SpellsFile(turns, root, f, t)
  {
    if Assembling(turns, [root], 0, []) == Ok(f) {
      var ts := AssemblingSound(turns, [root], 0, []);
      OneTree(ts[0]);
      assert ts == [ts[0]] && [] + ContentAll(ts) == ContentAll(ts);
      assert SpellsFile(turns, root, f, ts[0]);
    }
    if t :| SpellsFile(turns, root, f, t) {
      OneTree(t);
      assert [] + ContentAll([t]) == ContentAll([t]);
      AssemblingComplete(turns, [root], 0, [], [t]);
    }
  }

  lemma OneTree(t: Tree)
    ensures VisitsAll([t]) == Visits(t) && ContentAll([t]) == Content(t)
  {
    FirstTree(t, []);
    assert [t] + [] == [t];
    assert Visits(t) + [] == Visits(t) && Content(t) + [] == Content(t);
  }

  // ---- What the loop does, said of the blocks alone ----

  /** The block under a raw identifier is there and is the one named: its bytes are the leaf's. */
  ghost predicate IsLeafOf(sha: Hash, look: Lookup, c: Cid, bytes: Block) {
    look(c) == Some(bytes) && Matches(sha, c, bytes) && IsVerifiable(c)
  }

  /** The block under any other is there, is the one named, and names some links. */
  ghost predicate IsForkOf(sha: Hash, look: Lookup, c: Cid, cs: seq<Cid>) {
    && look(c).Some?
    && Matches(sha, c, look(c).value)
    && !IsVerifiable(c)
    && Links(look(c).value) == Some(cs)
    && cs != []
  }

  /** Why a block is neither. */
  ghost predicate IsRefused(sha: Hash, look: Lookup, c: Cid, e: PinError) {
    match e
    case Unavailable(NotHeld(d)) => d == c && look(c).None?
    case Unavailable(UnixfsLeaf) =>
      look(c).Some? && Matches(sha, c, look(c).value) && !IsVerifiable(c) && Links(look(c).value) == Some([])
    case ContentMismatch =>
      look(c).Some? && (!Matches(sha, c, look(c).value) || (!IsVerifiable(c) && Links(look(c).value).None?))
    case _ => false
  }

  lemma TurnMeans(sha: Hash, look: Lookup, c: Cid)
    ensures forall b :: TurnOf(sha, look, c) == Emit(b) <==> IsLeafOf(sha, look, c, b)
    ensures forall cs :: TurnOf(sha, look, c) == Push(cs) <==> IsForkOf(sha, look, c, cs)
    ensures forall e :: TurnOf(sha, look, c) == Fail(e) <==> IsRefused(sha, look, c, e)
  {
    hide Links, Matches, IsVerifiable;
  }

  /** `t` is the tree the blocks spell under `c`: each leaf the block's own bytes, each fork a child a link. */
  ghost predicate IsTreeOf(sha: Hash, look: Lookup, c: Cid, t: Tree)
    decreases t
  {
    && t.cid == c
    && match t
       case Leaf(_, bytes) => IsLeafOf(sha, look, c, bytes)
       case Fork(_, kids) =>
         exists cs :: IsForkOf(sha, look, c, cs) && |cs| == |kids| &&
                      forall i :: 0 <= i < |kids| ==> IsTreeOf(sha, look, cs[i], kids[i])
  }

  lemma {:induction false} TreesUnfold(sha: Hash, look: Lookup, c: Cid, t: Tree)
    ensures IsTreeOf(sha, look, c, t) <==> Unfolds(TurnsOf(sha, look), c, t)
    decreases t
  {
    hide IsLeafOf, IsForkOf, TurnOf;
    TurnMeans(sha, look, c);
    match t
    case Leaf(_, _) =>
    case Fork(_, kids) =>
      forall d: Cid, i | 0 <= i < |kids|
        ensures IsTreeOf(sha, look, d, kids[i]) <==> Unfolds(TurnsOf(sha, look), d, kids[i])
      {
        TreesUnfold(sha, look, d, kids[i]);
      }
      if Unfolds(TurnsOf(sha, look), c, t) {
        assert IsForkOf(sha, look, c, TurnOf(sha, look, c).links);
      }
  }

  /** The tree that makes `f` the file of `root`, within both caps. */
  ghost predicate MakesFile(sha: Hash, look: Lookup, root: Cid, f: Block, t: Tree) {
    IsTreeOf(sha, look, root, t) && |Visits(t)| <= MAX_DAG_BLOCKS && Content(t) == f && |f| <= MAX_DAG_BYTES
  }

  /**
   `assemble` yields `f` exactly when the blocks under the root spell a finite
   ordered tree of at most `MAX_DAG_BLOCKS` visits, every block the one named,
   whose leaves are raw blocks that concatenate, left to right and byte for byte,
   to `f`, with `f` no longer than `MAX_DAG_BYTES`.
   */
  lemma AssembleIffTree(sha: Hash, look: Lookup, root: Cid, f: Block)
    ensures Assemble(sha, look, root) == Ok(f) <==> exists t :: MakesFile(sha, look, root, f, t)
  {
    hide IsTreeOf, Unfolds;
    AssemblingIffTree(TurnsOf(sha, look), root, f);
    if t :| SpellsFile(TurnsOf(sha, look), root, f, t) {
      TreesUnfold(sha, look, root, t);
      assert MakesFile(sha, look, root, f, t);
    }
    if t :| MakesFile(sha, look, root, f, t) {
      TreesUnfold(sha, look, root, t);
      assert SpellsFile(TurnsOf(sha, look), root, f, t);
    }
  }

  // ---- And which failure a root gets that makes no file ----

  /** What is still to be visited, next first, and the file so far. */
  datatype Walk = Walk(todo: seq<Cid>, file: Block)

  /** One visit: a leaf's bytes join the file, or a fork's links take its place. */
  ghost predicate IsVisit(sha: Hash, look: Lookup, w: Walk, w': Walk) {
    && w.todo != []
    && (|| (exists b :: IsLeafOf(sha, look, w.todo[0], b) &&
                        |w.file| + |b| <= MAX_DAG_BYTES && w' == Walk(w.todo[1..], w.file + b))
        || (exists cs :: IsForkOf(sha, look, w.todo[0], cs) && w' == Walk(cs + w.todo[1..], w.file)))
  }

  ghost predicate IsWalk(sha: Hash, look: Lookup, ws: seq<Walk>) {
    ws != [] && forall i :: 0 < i < |ws| ==> IsVisit(sha, look, ws[i - 1], ws[i])
  }

  /** There is more to visit, and the caps or the next block forbid it. */
  ghost predicate IsStuck(sha: Hash, look: Lookup, w: Walk, visits: nat, e: PinError) {
    && w.todo != []
    && if visits >= MAX_DAG_BLOCKS then e == TooLarge
       else
         || IsRefused(sha, look, w.todo[0], e)
         || (e == TooLarge && exists b :: IsLeafOf(sha, look, w.todo[0], b) && |w.file| + |b| > MAX_DAG_BYTES)
  }

  lemma {:induction false} AssemblingWalks(sha: Hash, look: Lookup, w: Walk, visits: nat) returns (ws: seq<Walk>)
    requires visits <= MAX_DAG_BLOCKS
    ensures IsWalk(sha, look, ws) && ws[0] == w && visits + |ws| - 1 <= MAX_DAG_BLOCKS
    ensures var last := ws[|ws| - 1];
            match Assembling(TurnsOf(sha, look), w.todo, visits, w.file)
            case Ok(f) => last.todo == []
            case Err(e) => IsStuck(sha, look, last, visits + |ws| - 1, e)
    decreases MAX_DAG_BLOCKS - visits, 1
  {
    hide IsLeafOf, IsForkOf, IsRefused, TurnOf, Assembling;
    ws := [w];
    if w.todo == [] {
      NothingLeft(sha, look, w, visits);
    } else if visits == MAX_DAG_BLOCKS {
      StuckFails(sha, look, w, visits, TooLarge);
    } else {
      var c := w.todo[0];
      TurnMeans(sha, look, c);
      match TurnOf(sha, look, c)
      case Fail(e) =>
        StuckFails(sha, look, w, visits, e);
      case Emit(b) =>
        assert IsLeafOf(sha, look, c, b);
        if |w.file| + |b| <= MAX_DAG_BYTES {
          ws := WalkOn(sha, look, w, Walk(w.todo[1..], w.file + b), visits);
        } else {
          StuckFails(sha, look, w, visits, TooLarge);
        }
      case Push(cs) =>
        assert IsForkOf(sha, look, c, cs);
        ws := WalkOn(sha, look, w, Walk(cs + w.todo[1..], w.file), visits);
    }
  }

  lemma {:induction false} WalkOn(sha: Hash, look: Lookup, w: Walk, w': Walk, visits: nat) returns (ws: seq<Walk>)
    requires visits < MAX_DAG_BLOCKS && IsVisit(sha, look, w, w')
    ensures IsWalk(sha, look, ws) && ws[0] == w && visits + |ws| - 1 <= MAX_DAG_BLOCKS
    ensures var last := ws[|ws| - 1];
            match Assembling(TurnsOf(sha, look), w.todo, visits, w.file)
            case Ok(f) => last.todo == []
            case Err(e) => IsStuck(sha, look, last, visits + |ws| - 1, e)
    decreases MAX_DAG_BLOCKS - visits, 0
  {
    hide IsVisit, IsStuck, Assembling;
    VisitKeepsAnswer(sha, look, w, w', visits);
    var rest := AssemblingWalks(sha, look, w', visits + 1);
    ws := [w] + rest;
  }

  lemma NothingLeft(sha: Hash, look: Lookup, w: Walk, visits: nat)
    requires w.todo == []
    ensures Assembling(TurnsOf(sha, look), w.todo, visits, w.file).Ok?
  {
  }

  lemma VisitKeepsAnswer(sha: Hash, look: Lookup, w: Walk, w': Walk, visits: nat)
    requires IsVisit(sha, look, w, w') && visits < MAX_DAG_BLOCKS
    ensures Assembling(TurnsOf(sha, look), w.todo, visits, w.file) ==
            Assembling(TurnsOf(sha, look), w'.todo, visits + 1, w'.file)
  {
    hide IsLeafOf, IsForkOf, TurnOf;
    TurnMeans(sha, look, w.todo[0]);
  }

  lemma {:induction false} WalkDecides(sha: Hash, look: Lookup, ws: seq<Walk>, n: nat)
    requires IsWalk(sha, look, ws) && n < |ws| <= MAX_DAG_BLOCKS + 1
    ensures Assembling(TurnsOf(sha, look), ws[0].todo, 0, ws[0].file) ==
            Assembling(TurnsOf(sha, look), ws[n].todo, n, ws[n].file)
  {
    hide Assembling, IsVisit;
    if n > 0 {
      WalkDecides(sha, look, ws, n - 1);
      VisitKeepsAnswer(sha, look, ws[n - 1], ws[n], n - 1);
    }
  }

  lemma StuckFails(sha: Hash, look: Lookup, w: Walk, visits: nat, e: PinError)
    requires IsStuck(sha, look, w, visits, e)
    ensures Assembling(TurnsOf(sha, look), w.todo, visits, w.file) == Err(e)
  {
    hide IsLeafOf, IsForkOf, IsRefused, TurnOf;
    TurnMeans(sha, look, w.todo[0]);
  }

  /** A left-to-right walk from `root` that gets stuck with `e`. */
  ghost predicate FailsWith(sha: Hash, look: Lookup, root: Cid, e: PinError, ws: seq<Walk>) {
    && IsWalk(sha, look, ws)
    && ws[0] == Walk([root], [])
    && |ws| <= MAX_DAG_BLOCKS + 1
    && IsStuck(sha, look, ws[|ws| - 1], |ws| - 1, e)
  }

  /** `assemble` fails with `e` exactly when that is where the left-to-right walk over the blocks first gets stuck. */
  lemma AssembleFailsIff(sha: Hash, look: Lookup, root: Cid, e: PinError)
    ensures Assemble(sha, look, root) == Err(e) <==> exists ws :: FailsWith(sha, look, root, e, ws)
  {
    hide Assembling, IsStuck, IsWalk;
    if Assemble(sha, look, root) == Err(e) {
      var ws := AssemblingWalks(sha, look, Walk([root], []), 0);
      assert FailsWith(sha, look, root, e, ws);
    }
    if ws :| FailsWith(sha, look, root, e, ws) {
      NotEmpty(sha, look, ws);
      WalkDecides(sha, look, ws, |ws| - 1);
      StuckFails(sha, look, ws[|ws| - 1], |ws| - 1, e);
    }
  }

  lemma NotEmpty(sha: Hash, look: Lookup, ws: seq<Walk>)
    requires IsWalk(sha, look, ws)
    ensures ws != []
  {
  }

  // ---- The root identifier alone decides the file ----

  ghost function LookedUpKids(look: Lookup): Cid -> seq<Cid> {
    (c: Cid) => if look(c).Some? && LinksOf(c, look(c).value).Some? then LinksOf(c, look(c).value).value else []
  }

  /** Turns follow links only. */
  ghost predicate Follows(turns: Turns, kids: Cid -> seq<Cid>) {
    forall c :: turns(c).Push? ==> turns(c).links == kids(c)
  }

  lemma TurnsFollowLinks(sha: Hash, look: Lookup)
    ensures Follows(TurnsOf(sha, look), LookedUpKids(look))
  {
  }

  lemma ReachableIsClosed(kids: Cid -> seq<Cid>, root: Cid, s: iset<Cid>)
    requires s == iset c | Reachable(kids, root, c)
    ensures root in s && Closed(kids, s)
  {
    ReachesItself(kids, root);
    forall v, w | v in s && w in kids(v)
      ensures w in s
    {
      ReachesKid(kids, root, v, w);
    }
  }

  lemma {:induction false} SameTree(turns: Turns, turns': Turns, kids: Cid -> seq<Cid>, s: iset<Cid>, c: Cid, t: Tree,
                                    u: Tree)
    requires Unfolds(turns, c, t) && Unfolds(turns', c, u)
    requires Follows(turns, kids) && Closed(kids, s) && c in s
    requires forall d :: d in s ==> turns(d).Fail? || turns'(d).Fail? || turns(d) == turns'(d)
    ensures t == u
    decreases t
  {
    match t {
      case Leaf(_, _) =>
      case Fork(_, below) =>
        var cs := turns(c).links;
        forall i | 0 <= i < |cs|
          ensures below[i] == u.kids[i]
        {
          SameTree(turns, turns', kids, s, cs[i], below[i], u.kids[i]);
        }
    }
  }

  /** Two suppliers gave different bytes under one identifier, and the bytes share a hash. */
  ghost predicate Collide(sha: Hash, look: Lookup, look': Lookup, c: Cid) {
    look(c).Some? && look'(c).Some? && look(c) != look'(c) && sha(look(c).value) == sha(look'(c).value)
  }

  lemma TurnsAgreeOrCollide(sha: Hash, look: Lookup, look': Lookup, c: Cid)
    requires !TurnOf(sha, look, c).Fail? && !TurnOf(sha, look', c).Fail?
    ensures TurnOf(sha, look, c) == TurnOf(sha, look', c) || Collide(sha, look, look', c)
  {
  }

  /**
   Whoever supplied the blocks, one root gives one file, unless they supplied two different blocks with one hash
   under the same identifier of that file.
   */
  lemma FileDependsOnRootAlone(sha: Hash, look: Lookup, look': Lookup, root: Cid)
    requires Assemble(sha, look, root).Ok? && Assemble(sha, look', root).Ok?
    ensures Assemble(sha, look, root) == Assemble(sha, look', root) ||
            exists c :: Reachable(LookedUpKids(look), root, c) && Collide(sha, look, look', c)
  {
    hide Collide, TurnOf;
    var turns, turns' := TurnsOf(sha, look), TurnsOf(sha, look');
    var f, f' := Assemble(sha, look, root).value, Assemble(sha, look', root).value;
    AssemblingIffTree(turns, root, f);
    AssemblingIffTree(turns', root, f');
    var t :| SpellsFile(turns, root, f, t);
    var t' :| SpellsFile(turns', root, f', t');
    var s := iset c | Reachable(LookedUpKids(look), root, c);
    if d :| d in s && !turns(d).Fail? && !turns'(d).Fail? && turns(d) != turns'(d) {
      TurnsAgreeOrCollide(sha, look, look', d);
    } else {
      TurnsFollowLinks(sha, look);
      ReachableIsClosed(LookedUpKids(look), root, s);
      SameTree(turns, turns', LookedUpKids(look), s, root, t, t');
    }
  }

  // ---- Which blocks the file depends on ----

  /** Turns that agree on a closed set give the same answer, success or failure, from inside it. */
  lemma {:induction false} AssemblingLocal(turns: Turns, turns': Turns, kids: Cid -> seq<Cid>, s: iset<Cid>,
                                           todo: seq<Cid>, visited: nat, file: Block)
    requires Follows(turns, kids) && Closed(kids, s) && forall c :: c in s ==> turns(c) == turns'(c)
    requires forall c :: c in todo ==> c in s
    ensures Assembling(turns, todo, visited, file) == Assembling(turns', todo, visited, file)
    decreases MAX_DAG_BLOCKS - visited
  {
    if todo != [] && visited < MAX_DAG_BLOCKS {
      var c, rest := todo[0], todo[1..];
      match turns(c)
      case Fail(_) =>
      case Emit(b) =>
        AssemblingLocal(turns, turns', kids, s, rest, visited + 1, file + b);
      case Push(cs) =>
        AssemblingLocal(turns, turns', kids, s, cs + rest, visited + 1, file);
    }
  }

  /** Two stores that hold the same under a root assemble it to the same answer, failures included. */
  lemma AssembleLocal(sha: Hash, look: Lookup, look': Lookup, root: Cid)
    requires forall c :: Reachable(LookedUpKids(look), root, c) ==> look(c) == look'(c)
    ensures Assemble(sha, look, root) == Assemble(sha, look', root)
  {
    var kids := LookedUpKids(look);
    var s := iset c | Reachable(kids, root, c);
    TurnsFollowLinks(sha, look);
    ReachableIsClosed(kids, root, s);
    AssemblingLocal(TurnsOf(sha, look), TurnsOf(sha, look'), kids, s, [root], 0, []);
  }

  lemma {:induction false} AssemblingFailure(turns: Turns, kids: Cid -> seq<Cid>, s: iset<Cid>, todo: seq<Cid>,
                                             visited: nat, file: Block)
    requires Follows(turns, kids) && Closed(kids, s)
    requires forall c :: c in todo ==> c in s
    ensures match Assembling(turns, todo, visited, file)
            case Ok(_) => true
            case Err(e) => e == TooLarge || exists c :: c in s && turns(c) == Fail(e)
    decreases MAX_DAG_BLOCKS - visited
  {
    if todo != [] && visited < MAX_DAG_BLOCKS {
      var c, rest := todo[0], todo[1..];
      match turns(c)
      case Fail(_) =>
      case Emit(b) =>
        AssemblingFailure(turns, kids, s, rest, visited + 1, file + b);
      case Push(cs) =>
        AssemblingFailure(turns, kids, s, cs + rest, visited + 1, file);
    }
  }

  /** With every reachable block present, assembling never fails for an absent one. */
  lemma NeverAbsent(sha: Hash, look: Lookup, root: Cid, c: Cid)
    requires forall d :: Reachable(LookedUpKids(look), root, d) ==> look(d).Some?
    ensures Assemble(sha, look, root) != Err(Unavailable(NotHeld(c)))
  {
    var kids := LookedUpKids(look);
    var s := iset d | Reachable(kids, root, d);
    TurnsFollowLinks(sha, look);
    ReachableIsClosed(kids, root, s);
    AssemblingFailure(TurnsOf(sha, look), kids, s, [root], 0, []);
  }

  /** The identifiers of a tree emit or push, and are closed under the links they push. */
  lemma {:induction false} VisitsClosed(turns: Turns, c: Cid, t: Tree, d: Cid)
    requires Unfolds(turns, c, t) && d in Visits(t)
    ensures !turns(d).Fail?
    ensures turns(d).Push? ==> forall k :: k in turns(d).links ==> k in Visits(t)
    decreases t
  {
    match t {
      case Leaf(_, _) =>
      case Fork(_, kids) =>
        var cs := turns(c).links;
        VisitsOfKids(kids);
        if d == c {
          forall k | k in cs
            ensures k in Visits(t)
          {
            var i :| 0 <= i < |cs| && cs[i] == k;
            assert Visits(kids[i])[0] == k;
          }
        } else {
          var i :| 0 <= i < |kids| && d in Visits(kids[i]);
          VisitsClosed(turns, cs[i], kids[i], d);
        }
    }
  }

  lemma {:induction false} VisitsOfKids(ts: seq<Tree>)
    ensures forall d :: d in VisitsAll(ts) <==> exists i :: 0 <= i < |ts| && d in Visits(ts[i])
  {
    if ts != [] {
      VisitsOfKids(ts[1..]);
      forall d
        ensures d in VisitsAll(ts) <==> exists i :: 0 <= i < |ts| && d in Visits(ts[i])
      {
        if d in VisitsAll(ts[1..]) {
          var i :| 0 <= i < |ts[1..]| && d in Visits(ts[1..][i]);
          assert d in Visits(ts[i + 1]);
        }
        if i :| 0 <= i < |ts| && d in Visits(ts[i]) {
          if i > 0 {
            assert d in Visits(ts[1..][i - 1]);
          }
        }
      }
    }
  }

  /** Everything reachable from a root that assembles is on its tree, so it is present and within the visit cap. */
  lemma FileIsBounded(sha: Hash, look: Lookup, root: Cid) returns (vs: seq<Cid>)
    requires Assemble(sha, look, root).Ok?
    ensures |vs| <= MAX_DAG_BLOCKS
    ensures forall c :: Reachable(LookedUpKids(look), root, c) ==> c in vs
    ensures forall c :: c in vs ==> look(c).Some? && LinksOf(c, look(c).value).Some?
  {
    var turns, f := TurnsOf(sha, look), Assemble(sha, look, root).value;
    AssemblingIffTree(turns, root, f);
    var t :| SpellsFile(turns, root, f, t);
    vs := Visits(t);
    forall c | c in vs
      ensures look(c).Some? && LinksOf(c, look(c).value).Some? && forall k :: k in LookedUpKids(look)(c) ==> k in vs
    {
      VisitsClosed(turns, root, t, c);
      TurnLinks(sha, look, c);
    }
    var s := iset c | c in vs;
    assert root in s;
    forall c | Reachable(LookedUpKids(look), root, c)
      ensures c in vs
    {
      ReachableStaysIn(LookedUpKids(look), s, root, c);
    }
  }

  lemma TurnLinks(sha: Hash, look: Lookup, c: Cid)
    requires !TurnOf(sha, look, c).Fail?
    ensures look(c).Some? && LinksOf(c, look(c).value).Some?
    ensures LookedUpKids(look)(c) == match TurnOf(sha, look, c) case Emit(_) => [] case Push(cs) => cs
  {
  }

  // ---- The explicit stack ----

  function Reversed<T>(xs: seq<T>): seq<T> {
    seq(|xs|, i requires 0 <= i < |xs| => xs[|xs| - 1 - i])
  }

  lemma AssemblingStep(turns: Turns, c: Cid, rest: seq<Cid>, visited: nat, file: Block)
    requires visited < MAX_DAG_BLOCKS
    ensures Assembling(turns, [c] + rest, visited, file) ==
            match turns(c)
            case Fail(e) => Err(e)
            case Emit(b) =>
              if |file| + |b| > MAX_DAG_BYTES then Err(TooLarge) else Assembling(turns, rest, visited + 1, file + b)
            case Push(cs) => Assembling(turns, cs + rest, visited + 1, file)
  {
    assert ([c] + rest)[1..] == rest;
  }

  lemma PopReversed<T>(xs: seq<T>)
    requires xs != []
    ensures Reversed(xs) == [xs[|xs| - 1]] + Reversed(xs[..|xs| - 1])
  {
  }

  lemma PushReversed<T>(xs: seq<T>, ys: seq<T>)
    ensures Reversed(xs + Reversed(ys)) == ys + Reversed(xs)
  {
  }

  /** `pending` is popped from its end; links are pushed in reverse so the first comes off first. */
  method AssembleFile(sha: Hash, look: Lookup, root: Cid) returns (r: Result<Block, PinError>)
    ensures r == Assemble(sha, look, root)
  {
    hide TurnsOf;
    var file: Block, pending, visited := [], [root], 0;
    ghost var turns := TurnsOf(sha, look);
    assert Reversed(pending) == [root];
    while pending != []
      invariant visited <= MAX_DAG_BLOCKS
      invariant Assembling(turns, Reversed(pending), visited, file) == Assemble(sha, look, root)
      decreases MAX_DAG_BLOCKS + 1 - visited
    {
      PopReversed(pending);
      var cid := pending[|pending| - 1];
      pending := pending[..|pending| - 1];
      if visited + 1 > MAX_DAG_BLOCKS {
        return Err(TooLarge);
      }
      AssemblingStep(turns, cid, Reversed(pending), visited, file);
      visited := visited + 1;
      var turn := TakeTurn(sha, look, cid);
      match turn
      case Fail(e) =>
        return Err(e);
      case Emit(bytes) =>
        if |file| + |bytes| > MAX_DAG_BYTES {
          return Err(TooLarge);
        }
        file := file + bytes;
      case Push(links) =>
        PushReversed(pending, links);
        pending := pending + Reversed(links);
    }
    return Ok(file);
  }

  method TakeTurn(sha: Hash, look: Lookup, cid: Cid) returns (turn: Turn)
    ensures turn == TurnsOf(sha, look)(cid)
  {
    var bytes := look(cid);
    if bytes.None? {
      return Fail(Unavailable(NotHeld(cid)));
    }
    var matched := MatchesContent(sha, cid, bytes.value);
    if !matched {
      return Fail(ContentMismatch);
    }
    var raw := Verifiable(cid);
    if raw {
      return Emit(bytes.value);
    }
    var links := ReadLinks(bytes.value);
    if links.None? {
      return Fail(ContentMismatch);
    }
    return if links.value == [] then Fail(Unavailable(UnixfsLeaf)) else Push(links.value);
  }
}
