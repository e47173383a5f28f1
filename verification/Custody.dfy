/**
 Challenges for content, and the node that has to answer them: what can be asked, how an answer is judged, and that a
 node which follows the retention rule is never caught without an answer.
 */
module Custody {
  import opened Wrappers
  import opened MachineInt
  import opened Sorting
  import opened Cids
  import opened Graph
  import opened Fetching
  import opened Assembly
  import opened Held
  import opened Attachments
  import opened Retention

  // ---- What can be asked ----

  ghost predicate IsChallengeable(a: Attachment, now: nat) {
    IsVerifiable(a.cid) && ChallengeWindow(a.createdAt, now)
  }

  predicate CidLe(a: Cid, b: Cid) {
    StringLe(a.text, b.text)
  }

  /** In order, each once, and exactly the identifiers of the records a challenge can decide. */
  ghost predicate IsPool(attachments: seq<Attachment>, now: nat, pool: seq<Cid>) {
    && SortedBy(pool, CidLe)
    && Distinct(pool)
    && forall c :: c in pool <==> exists a :: a in attachments && a.cid == c && IsChallengeable(a, now)
  }

  lemma CidOrder()
    ensures TotalPreorder(CidLe)
  {
    forall x: Cid, y: Cid
      ensures CidLe(x, y) || CidLe(y, x)
    {
      StringLeTotal(x.text, y.text);
    }
    forall x, y, z | CidLe(x, y) && CidLe(y, z)
      ensures CidLe(x, z)
    {
      StringLeTransitive(x.text, y.text, z.text);
    }
  }

  method Challengeable(attachments: seq<Attachment>, now: nat) returns (pool: seq<Cid>)
    ensures IsPool(attachments, now, pool)
  {
    hide IsVerifiable, TotalPreorder, CidLe;
    var cids := [];
    for i := 0 to |attachments|
      invariant forall c :: c in cids <==>
        exists a :: a in attachments[..i] && a.cid == c && IsChallengeable(a, now)
    {
      var a := attachments[i];
      assert attachments[..i + 1] == attachments[..i] + [a];
      var verifiable := Verifiable(a.cid);
      if verifiable && ChallengeWindow(a.createdAt, now) {
        cids := cids + [a.cid];
      }
    }
    assert attachments[..|attachments|] == attachments;
    CidOrder();
    var sorted := Sort(cids, CidLe);
    RearrangedMembers(cids, sorted);
    pool := Dedup(sorted);
  }

  /** Drops every entry equal to the one before it. */
  method Dedup(sorted: seq<Cid>) returns (r: seq<Cid>)
    requires SortedBy(sorted, CidLe)
    ensures SortedBy(r, CidLe) && Distinct(r)
    ensures forall c :: c in r <==> c in sorted
  {
    hide CidLe;
    r := [];
    for i := 0 to |sorted|
      invariant SortedBy(r, CidLe) && Distinct(r)
      invariant forall c :: c in r <==> c in sorted[..i]
      invariant i > 0 ==> r != [] && r[|r| - 1] == sorted[i - 1]
    {
      assert sorted[..i + 1] == sorted[..i] + [sorted[i]];
      if r == [] || r[|r| - 1] != sorted[i] {
        forall j | 0 <= j < |r|
          ensures CidLe(r[j], sorted[i]) && r[j] != sorted[i]
        {
          assert r[j] in r;
          NotYetSeen(sorted, r, i, j);
        }
        r := r + [sorted[i]];
      }
    }
    assert sorted[..|sorted|] == sorted;
  }

  lemma NotYetSeen(sorted: seq<Cid>, r: seq<Cid>, i: nat, j: nat)
    requires SortedBy(sorted, CidLe) && SortedBy(r, CidLe) && Distinct(r) && j < |r| && i < |sorted|
    requires r[j] in sorted[..i]
    requires i > 0 && r[|r| - 1] == sorted[i - 1] && r[|r| - 1] != sorted[i]
    ensures CidLe(r[j], sorted[i]) && r[j] != sorted[i]
  {
    var k :| 0 <= k < i && sorted[k] == r[j];
    assert CidLe(sorted[k], sorted[i]);
    if r[j] == sorted[i] {
      assert CidLe(r[j], r[|r| - 1]) && CidLe(sorted[i - 1], sorted[i]);
      StringLeAntisymmetric(r[j].text, r[|r| - 1].text);
    }
  }

  /** Nodes that know the same records draw from the same list, however each came by them. */
  lemma PoolIsDetermined(attachments: seq<Attachment>, others: seq<Attachment>, now: nat, a: seq<Cid>, b: seq<Cid>)
    requires forall x :: x in attachments <==> x in others
    requires IsPool(attachments, now, a) && IsPool(others, now, b)
    ensures a == b
  {
    hide IsChallengeable;
    forall x, y | x in a && y in a && CidLe(x, y) && CidLe(y, x)
      ensures x == y
    {
      StringLeAntisymmetric(x.text, y.text);
    }
    hide CidLe;
    SortedUnique(a, b, CidLe);
  }

  /** Nothing to ask is not a failure; otherwise the seed picks one entry. */
  function Select(pool: seq<Cid>, seed: nat): (c: Option<Cid>)
    ensures c.None? <==> pool == []
    ensures c.Some? ==> c.value in pool
  {
    if pool == [] then None else Some(pool[seed % |pool|])
  }

  /** Every entry is drawn by some seed within any run of consecutive seeds as long as the pool. */
  lemma EverySeedCounts(pool: seq<Cid>, c: Cid, from: nat)
    requires c in pool
    ensures exists seed :: from <= seed < from + |pool| && Select(pool, seed) == Some(c)
  {
    var i :| 0 <= i < |pool| && pool[i] == c;
    var n := |pool|;
    var start := from % n;
    var seed := if start <= i then from + (i - start) else from + (i + n - start);
    ResidueAt(from, n, i, seed);
    assert Select(pool, seed) == Some(c);
  }

  lemma ResidueAt(from: nat, n: nat, i: nat, seed: nat)
    requires i < n
    requires seed == if from % n <= i then from + (i - from % n) else from + (i + n - from % n)
    ensures seed % n == i
  {
    var q := from / n;
    assert from == q * n + from % n;
    if from % n <= i {
      DivModUnique(seed, n, q, i);
    } else {
      assert (q + 1) * n == q * n + n;
      DivModUnique(seed, n, q + 1, i);
    }
  }

  // ---- How an answer is judged ----

  datatype ChallengeOutcome = Served | Failed | Undecidable

  method Judge(sha: Hash, cid: Cid, response: Option<Block>) returns (outcome: ChallengeOutcome)
    ensures outcome == Undecidable <==> !IsVerifiable(cid)
    ensures outcome == Served <==> IsVerifiable(cid) && IsAnswer(sha, cid, response)
  {
    hide IsVerifiable, Matches;
    var verifiable := Verifiable(cid);
    if !verifiable {
      return Undecidable;
    }
    if response.Some? {
      var matches := MatchesContent(sha, cid, response.value);
      if matches {
        return Served;
      }
    }
    return Failed;
  }

  ghost predicate IsAnswer(sha: Hash, cid: Cid, response: Option<Block>) {
    response.Some? && Matches(sha, cid, response.value)
  }

  /** Two answers to one challenge carry the same bytes, or are themselves a collision. */
  lemma AnswersAgree(sha: Hash, cid: Cid, a: Option<Block>, b: Option<Block>)
    requires IsAnswer(sha, cid, a) && IsAnswer(sha, cid, b)
    ensures a == b || (a.value != b.value && sha(a.value) == sha(b.value))
  {
  }

  // ---- A node's life between challenges ----

  datatype NodeStep =
    | Kept(cid: Cid, block: Block)
    | Swept(records: seq<Attachment>, now: nat, others: seq<Cid>)

  /** The roots worth keeping: those of records inside the node's own window. */
  function RootsOf(policy: Policy, records: seq<Attachment>, now: nat): seq<Cid> {
    if records == [] then []
    else
      RootsOf(policy, records[..|records| - 1], now) +
      if Keeps(policy, records[|records| - 1].createdAt, now) then [records[|records| - 1].cid] else []
  }

  /** `others` are the roots kept for other reasons: avatars, and uploads still in their grace. */
  method ContentWanted(policy: Policy, records: seq<Attachment>, now: nat, others: seq<Cid>) returns (roots: seq<Cid>)
    ensures roots == RootsOf(policy, records, now) + others
  {
    roots := [];
    for i := 0 to |records|
      invariant roots == RootsOf(policy, records[..i], now)
    {
      assert records[..i + 1][..i] == records[..i];
      if Keeps(policy, records[i].createdAt, now) {
        roots := roots + [records[i].cid];
      }
    }
    assert records[..|records|] == records;
    roots := roots + others;
  }

  /** The records a policy keeps, and no others, give the roots. */
  lemma {:induction false} RootsAreKeptRecords(policy: Policy, records: seq<Attachment>, now: nat, c: Cid)
    ensures c in RootsOf(policy, records, now) <==>
            exists a :: a in records && a.cid == c && Keeps(policy, a.createdAt, now)
  {
    hide Keeps;
    if records != [] {
      var last := |records| - 1;
      RootsAreKeptRecords(policy, records[..last], now, c);
      assert forall a :: a in records <==> a in records[..last] || a == records[last];
    }
  }

  lemma KeptRecordIsARoot(policy: Policy, records: seq<Attachment>, now: nat, a: Attachment)
    requires a in records && Keeps(policy, a.createdAt, now)
    ensures a.cid in RootsOf(policy, records, now)
  {
    RootsAreKeptRecords(policy, records, now, a.cid);
  }

  ghost function AfterStep(sha: Hash, policy: Policy, store: Store, step: NodeStep): Store {
    match step
    case Kept(cid, block) => Keep(sha, store, cid, block)
    case Swept(records, now, others) => Evict(store, RootsOf(policy, records, now) + others)
  }

  ghost function AfterSteps(sha: Hash, policy: Policy, store: Store, steps: seq<NodeStep>): Store {
    if steps == [] then store
    else AfterStep(sha, policy, AfterSteps(sha, policy, store, steps[..|steps| - 1]), steps[|steps| - 1])
  }

  /** Every sweep knows the record and finds it inside the node's window. */
  ghost predicate Keeping(policy: Policy, steps: seq<NodeStep>, a: Attachment) {
    forall k :: 0 <= k < |steps| && steps[k].Swept? ==>
      a in steps[k].records && Keeps(policy, a.createdAt, steps[k].now)
  }

  lemma StepKeepsAuthentic(sha: Hash, policy: Policy, store: Store, step: NodeStep)
    requires Authentic(sha, store)
    ensures Authentic(sha, AfterStep(sha, policy, store, step))
  {
    hide Matches, IsKept, RootsOf;
  }

  lemma StepKeepsRoot(sha: Hash, policy: Policy, store: Store, step: NodeStep, a: Attachment)
    requires a.cid in store
    requires step.Swept? ==> a in step.records && Keeps(policy, a.createdAt, step.now)
    ensures a.cid in AfterStep(sha, policy, store, step)
  {
    hide Keepable, Keeps, WalkOf, RootsOf;
    if step.Swept? {
      var roots := RootsOf(policy, step.records, step.now) + step.others;
      KeptRecordIsARoot(policy, step.records, step.now, a);
      assert a.cid in roots;
      WalkIsCompleteIffWithinCap(store, a.cid);
      assert IsKept(store, roots, a.cid);
    }
  }

  lemma {:induction false} KeptContentStays(sha: Hash, policy: Policy, store: Store, steps: seq<NodeStep>,
                                            a: Attachment)
    requires Authentic(sha, store) && a.cid in store && Keeping(policy, steps, a)
    ensures Authentic(sha, AfterSteps(sha, policy, store, steps))
    ensures a.cid in AfterSteps(sha, policy, store, steps)
  {
    hide Authentic, Keeps, AfterStep;
    if steps != [] {
      var last := |steps| - 1;
      KeptContentStays(sha, policy, store, steps[..last], a);
      var before := AfterSteps(sha, policy, store, steps[..last]);
      StepKeepsAuthentic(sha, policy, before, steps[last]);
      StepKeepsRoot(sha, policy, before, steps[last], a);
    }
  }

  /** Every sweep up to `now` knows the record. */
  ghost predicate KnownThroughout(steps: seq<NodeStep>, a: Attachment, now: nat) {
    forall k :: 0 <= k < |steps| && steps[k].Swept? ==> a in steps[k].records && steps[k].now <= now
  }

  /**
   A node that once held what a record names, knows that record and keeps at least the floor, answers every challenge
   that can be drawn for it, after any number of arrivals and sweeps and whatever other records name the same content:
   a challenge never asks about what a sweep was right to drop.
   */
  lemma HonestNodeIsNeverCaughtOut(sha: Hash, policy: Policy, store: Store, steps: seq<NodeStep>,
                                   attachments: seq<Attachment>, now: nat, pool: seq<Cid>, a: Attachment)
    requires policy.Rolling? ==> policy.days >= MINIMUM_DAYS
    requires Authentic(sha, store) && a.cid in store
    requires a in attachments && IsChallengeable(a, now) && KnownThroughout(steps, a, now)
    requires IsPool(attachments, now, pool)
    ensures a.cid in pool && IsVerifiable(a.cid)
    ensures IsAnswer(sha, a.cid, HeldLook(AfterSteps(sha, policy, store, steps))(a.cid))
  {
    hide IsVerifiable, Matches, Keeps, ChallengeWindow, AfterSteps;
    forall k | 0 <= k < |steps| && steps[k].Swept?
      ensures a in steps[k].records && Keeps(policy, a.createdAt, steps[k].now)
    {
      ChallengedWasAlwaysKept(policy, a.createdAt, steps[k].now, now);
    }
    KeptContentStays(sha, policy, store, steps, a);
  }

  // ---- Whole files ----

  /** The step replaces a held block by different bytes with the same hash. */
  ghost predicate Swaps(sha: Hash, store: Store, step: NodeStep) {
    && step.Kept?
    && step.cid in store
    && store[step.cid] != step.block
    && sha(store[step.cid]) == sha(step.block)
  }

  /** A block that arrives changes no file already held, unless it collides with the very block it replaces. */
  lemma KeepKeepsFiles(sha: Hash, store: Store, cid: Cid, block: Block, root: Cid)
    requires Authentic(sha, store) && Assemble(sha, HeldLook(store), root).Ok?
    requires !Swaps(sha, store, Kept(cid, block))
    ensures Assemble(sha, HeldLook(Keep(sha, store, cid, block)), root) == Assemble(sha, HeldLook(store), root)
  {
    hide Assemble;
    var after := Keep(sha, store, cid, block);
    assert cid in store ==> Keepable(sha, cid, store[cid]);
    assert cid in store ==> after[cid] == store[cid];
    hide Matches;
    var vs := FileIsBounded(sha, HeldLook(store), root);
    forall c | Reachable(LookedUpKids(HeldLook(store)), root, c)
      ensures HeldLook(store)(c) == HeldLook(after)(c)
    {
      assert c in vs;
    }
    AssembleLocal(sha, HeldLook(store), HeldLook(after), root);
  }

  lemma StepKeepsFile(sha: Hash, policy: Policy, store: Store, step: NodeStep, a: Attachment)
    requires Authentic(sha, store) && Assemble(sha, HeldLook(store), a.cid).Ok?
    requires step.Swept? ==> a in step.records && Keeps(policy, a.createdAt, step.now)
    requires !Swaps(sha, store, step)
    ensures Assemble(sha, HeldLook(AfterStep(sha, policy, store, step)), a.cid) ==
            Assemble(sha, HeldLook(store), a.cid)
  {
    hide Assemble, Keeps, Authentic, Swaps, RootsOf, Keep, Evict;
    match step
    case Kept(cid, block) =>
      KeepKeepsFiles(sha, store, cid, block, a.cid);
    case Swept(records, now, others) =>
      KeptRecordIsARoot(policy, records, now, a);
      var roots := RootsOf(policy, records, now) + others;
      assert a.cid in roots;
      EvictionKeepsFiles(sha, store, roots, a.cid);
  }

  /**
   A file that could be read stays readable, byte for byte, for as long as its record is inside the window, unless
   along the way a block arrived that differs from the one already held under its identifier and has the same hash.
   */
  lemma {:induction false} KeptFileStaysReadable(sha: Hash, policy: Policy, store: Store, steps: seq<NodeStep>,
                                                 a: Attachment, file: Block)
    requires Authentic(sha, store) && Assemble(sha, HeldLook(store), a.cid) == Ok(file)
    requires Keeping(policy, steps, a)
    ensures Authentic(sha, AfterSteps(sha, policy, store, steps))
    ensures
      || Assemble(sha, HeldLook(AfterSteps(sha, policy, store, steps)), a.cid) == Ok(file)
      || exists k :: 0 <= k < |steps| && Swaps(sha, AfterSteps(sha, policy, store, steps[..k]), steps[k])
  {
    hide Assemble, Authentic, Keeps, AfterStep, Swaps;
    if steps != [] {
      var last := |steps| - 1;
      var earlier := steps[..last];
      var before := AfterSteps(sha, policy, store, earlier);
      KeptFileStaysReadable(sha, policy, store, earlier, a, file);
      StepKeepsAuthentic(sha, policy, before, steps[last]);
      if k :| 0 <= k < last && Swaps(sha, AfterSteps(sha, policy, store, earlier[..k]), earlier[k]) {
        assert earlier[..k] == steps[..k];
      } else if !Swaps(sha, before, steps[last]) {
        StepKeepsFile(sha, policy, before, steps[last], a);
      }
    }
  }
}
