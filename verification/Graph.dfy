/**
 Reachability along lists of links, and the breadth-first traversal that the
 fetcher and the held-content walk share: a queue, a set of everything ever
 queued, and a budget of visits.
 */
module Graph {
  import opened Wrappers

  // ---- Reachability, by explicit paths ----

  ghost predicate IsPath<V(!new)>(kids: V -> seq<V>, path: seq<V>) {
    forall i :: 0 < i < |path| ==> path[i] in kids(path[i - 1])
  }

  ghost predicate Connects<V(!new)>(kids: V -> seq<V>, path: seq<V>, from: V, to: V) {
    path != [] && path[0] == from && path[|path| - 1] == to && IsPath(kids, path)
  }

  ghost predicate Reachable<V(!new)>(kids: V -> seq<V>, from: V, to: V) {
    exists path :: Connects(kids, path, from, to)
  }

  ghost predicate Closed<V(!new)>(kids: V -> seq<V>, s: iset<V>) {
    forall v, w :: v in s && w in kids(v) ==> w in s
  }

  lemma ReachesItself<V(!new)>(kids: V -> seq<V>, v: V)
    ensures Reachable(kids, v, v)
  {
    assert Connects(kids, [v], v, v);
  }

  lemma ReachesKid<V(!new)>(kids: V -> seq<V>, from: V, v: V, w: V)
    requires Reachable(kids, from, v) && w in kids(v)
    ensures Reachable(kids, from, w)
  {
    var path :| Connects(kids, path, from, v);
    assert Connects(kids, path + [w], from, w);
  }

  /** A closed set that holds the start holds everything reachable. */
  lemma ReachableStaysIn<V(!new)>(kids: V -> seq<V>, s: iset<V>, from: V, to: V)
    requires Closed(kids, s) && from in s && Reachable(kids, from, to)
    ensures to in s
  {
    var path :| Connects(kids, path, from, to);
    for i := 1 to |path|
      invariant path[i - 1] in s
    {
    }
  }

  // ---- The traversal ----

  /** The entries of `kids` not in `seen`, each once, in order: what gets queued. */
  function Fresh<V(==)>(kids: seq<V>, seen: set<V>): seq<V> {
    if kids == [] then []
    else if kids[0] in seen then Fresh(kids[1..], seen)
    else [kids[0]] + Fresh(kids[1..], seen + {kids[0]})
  }

  datatype Frontier<V(==)> = Frontier(order: seq<V>, pending: seq<V>, seen: set<V>)

  function Start<V(==)>(root: V): Frontier<V> {
    Frontier([], [root], {root})
  }

  function Visit<V(==)>(kids: V -> seq<V>, f: Frontier<V>): Frontier<V>
    requires f.pending != []
  {
    var v := f.pending[0];
    Frontier(f.order + [v], f.pending[1..] + Fresh(kids(v), f.seen), f.seen + (set k | k in kids(v)))
  }

  /** At most `budget` visits, in queue order. */
  function Traverse<V(==)>(kids: V -> seq<V>, f: Frontier<V>, budget: nat): Frontier<V>
    decreases budget
  {
    if budget == 0 || f.pending == [] then f else Traverse(kids, Visit(kids, f), budget - 1)
  }

  lemma {:induction false} TraverseOneMore<V>(kids: V -> seq<V>, f: Frontier<V>, n: nat)
    ensures var t := Traverse(kids, f, n);
            Traverse(kids, f, n + 1) == if t.pending == [] then t else Visit(kids, t)
    decreases n
  {
    if n > 0 && f.pending != [] {
      TraverseOneMore(kids, Visit(kids, f), n - 1);
    }
  }

  lemma {:induction false} FreshEntries<V>(kids: seq<V>, seen: set<V>)
    ensures forall v :: v in Fresh(kids, seen) <==> v in kids && v !in seen
    ensures Distinct(Fresh(kids, seen))
  {
    if kids != [] {
      var s := if kids[0] in seen then seen else seen + {kids[0]};
      FreshEntries(kids[1..], s);
      assert forall v :: v in kids <==> v == kids[0] || v in kids[1..];
    }
  }

  lemma DistinctAppend<V>(xs: seq<V>, ys: seq<V>)
    requires Distinct(xs) && Distinct(ys) && forall v :: v in xs ==> v !in ys
    ensures Distinct(xs + ys)
  {
    var all := xs + ys;
    forall i, j | 0 <= i < j < |all|
      ensures all[i] != all[j]
    {
      if i < |xs| <= j {
        assert xs[i] in xs && ys[j - |xs|] in ys;
      }
    }
  }

  /** What the traversal keeps: everything queued is reachable and queued once, and visited entries are expanded. */
  ghost predicate Inv<V(!new)>(kids: V -> seq<V>, root: V, f: Frontier<V>) {
    var all := f.order + f.pending;
    && Distinct(all)
    && all != [] && all[0] == root
    && (forall v :: v in f.seen <==> v in all)
    && (forall v :: v in all ==> Reachable(kids, root, v))
    && (forall v, k :: v in f.order && k in kids(v) ==> k in f.seen)
  }

  lemma VisitKeepsInv<V(!new)>(kids: V -> seq<V>, root: V, f: Frontier<V>)
    requires Inv(kids, root, f) && f.pending != []
    ensures Inv(kids, root, Visit(kids, f))
  {
    var v := f.pending[0];
    var all, added := f.order + f.pending, Fresh(kids(v), f.seen);
    var g := Visit(kids, f);
    FreshEntries(kids(v), f.seen);
    assert g.order + g.pending == all + added;
    assert v in all;
    DistinctAppend(all, added);
    forall k | k in added
      ensures Reachable(kids, root, k)
    {
      ReachesKid(kids, root, v, k);
    }
    assert forall k :: k in all + added <==> k in all || k in added;
  }

  lemma {:induction false} TraverseKeepsInv<V(!new)>(kids: V -> seq<V>, root: V, f: Frontier<V>, n: nat)
    requires Inv(kids, root, f)
    ensures var t := Traverse(kids, f, n);
            Inv(kids, root, t) && |t.order| <= |f.order| + n && (t.pending == [] || |t.order| == |f.order| + n)
    decreases n
  {
    if n > 0 && f.pending != [] {
      VisitKeepsInv(kids, root, f);
      TraverseKeepsInv(kids, root, Visit(kids, f), n - 1);
    }
  }

  lemma StartInv<V(!new)>(kids: V -> seq<V>, root: V)
    ensures Inv(kids, root, Start(root))
  {
    ReachesItself(kids, root);
    assert [] + [root] == [root];
  }

  /** The next entry of the queue is reachable and not yet visited. */
  lemma NextIsNew<V(!new)>(kids: V -> seq<V>, root: V, f: Frontier<V>)
    requires Inv(kids, root, f) && f.pending != []
    ensures Distinct(f.order + [f.pending[0]])
    ensures forall v :: v in f.order + [f.pending[0]] ==> Reachable(kids, root, v)
  {
    var xs, all := f.order + [f.pending[0]], f.order + f.pending;
    assert xs == all[..|xs|];
    assert forall v :: v in xs ==> v in all;
  }

  /** Everything ever queued is the root or a child of something visited. */
  ghost predicate SeenFrom<V(!new)>(kids: V -> seq<V>, root: V, f: Frontier<V>) {
    forall v :: v in f.seen ==> v == root || exists u :: u in f.order && v in kids(u)
  }

  lemma {:induction false} TraverseSeenFrom<V(!new)>(kids: V -> seq<V>, root: V, f: Frontier<V>, n: nat)
    requires SeenFrom(kids, root, f)
    ensures SeenFrom(kids, root, Traverse(kids, f, n))
    decreases n
  {
    if n > 0 && f.pending != [] {
      var g := Visit(kids, f);
      assert f.pending[0] in g.order;
      assert forall u :: u in f.order ==> u in g.order;
      TraverseSeenFrom(kids, root, g, n - 1);
    }
  }

  /** A walk cut short leaves a vertex it never visited, although a visited one links to it. */
  lemma CutShort<V(!new)>(kids: V -> seq<V>, root: V, n: nat) returns (hole: V, parent: V)
    requires n > 0 && Traverse(kids, Start(root), n).pending != []
    ensures hole !in Traverse(kids, Start(root), n).order
    ensures parent in Traverse(kids, Start(root), n).order && hole in kids(parent)
  {
    var t := Traverse(kids, Start(root), n);
    StartInv(kids, root);
    TraverseKeepsInv(kids, root, Start(root), n);
    NextIsNew(kids, root, t);
    hole := t.pending[0];
    var visited := t.order + [hole];
    forall i | 0 <= i < |t.order|
      ensures t.order[i] != hole
    {
      assert visited[i] != visited[|t.order|];
    }
    assert t.order[0] == (t.order + t.pending)[0] == root;
    assert hole in t.order + t.pending;
    TraverseSeenFrom(kids, root, Start(root), n);
    parent :| parent in t.order && hole in kids(parent);
  }

  /** `f` is where `n` visits from `root` lead, and the invariant holds there. */
  ghost predicate At<V(!new)>(kids: V -> seq<V>, root: V, f: Frontier<V>, n: nat) {
    f == Traverse(kids, Start(root), n) && Inv(kids, root, f)
  }

  lemma StartAt<V(!new)>(kids: V -> seq<V>, root: V)
    ensures At(kids, root, Start(root), 0)
  {
    StartInv(kids, root);
  }

  lemma VisitAt<V(!new)>(kids: V -> seq<V>, root: V, f: Frontier<V>, n: nat)
    requires At(kids, root, f, n) && f.pending != []
    ensures At(kids, root, Visit(kids, f), n + 1)
  {
    TraverseOneMore(kids, Start(root), n);
    VisitKeepsInv(kids, root, f);
  }

  /** With the queue run dry, the visited list is exactly what the root reaches. */
  lemma DryMeansAll<V(!new)>(kids: V -> seq<V>, root: V, f: Frontier<V>)
    requires Inv(kids, root, f) && f.pending == []
    ensures forall v :: v in f.order <==> Reachable(kids, root, v)
  {
    var s := iset v | v in f.order;
    assert f.order + f.pending == f.order;
    assert Closed(kids, s);
    forall v | Reachable(kids, root, v)
      ensures v in f.order
    {
      ReachableStaysIn(kids, s, root, v);
    }
  }

  /**
   A traversal of at most `n` visits covers everything the root reaches exactly
   when that is at most `n` vertices: no list of `n` could hold them otherwise.
   */
  lemma CoversIffWithinBudget<V(!new)>(kids: V -> seq<V>, root: V, n: nat)
    ensures var t := Traverse(kids, Start(root), n);
            && Inv(kids, root, t)
            && (t.pending == [] <==>
                exists vs: seq<V> :: |vs| <= n && forall v :: Reachable(kids, root, v) ==> v in vs)
  {
    StartInv(kids, root);
    TraverseKeepsInv(kids, root, Start(root), n);
    var t := Traverse(kids, Start(root), n);
    if t.pending == [] {
      DryMeansAll(kids, root, t);
      assert forall v :: Reachable(kids, root, v) ==> v in t.order;
    } else {
      forall vs: seq<V> | forall v :: Reachable(kids, root, v) ==> v in vs
        ensures |vs| > n
      {
        DistinctFits(t.order + t.pending, vs);
      }
    }
  }

  /** The traversal asks only about the vertices it visits. */
  lemma {:induction false} TraverseLocal<V>(kids: V -> seq<V>, kids': V -> seq<V>, f: Frontier<V>, n: nat)
    requires forall v :: v in Traverse(kids, f, n).order ==> kids(v) == kids'(v)
    ensures Traverse(kids, f, n) == Traverse(kids', f, n)
    decreases n
  {
    if n > 0 && f.pending != [] {
      var g := Visit(kids, f);
      TraverseExtends(kids, g, n - 1);
      assert f.pending[0] == g.order[|f.order|] == Traverse(kids, f, n).order[|f.order|];
      TraverseLocal(kids, kids', g, n - 1);
    }
  }

  lemma {:induction false} TraverseExtends<V>(kids: V -> seq<V>, f: Frontier<V>, n: nat)
    ensures f.order <= Traverse(kids, f, n).order
    decreases n
  {
    if n > 0 && f.pending != [] {
      TraverseExtends(kids, Visit(kids, f), n - 1);
    }
  }

  /** Once dry, a larger budget changes nothing. */
  lemma {:induction false} TraverseDry<V>(kids: V -> seq<V>, f: Frontier<V>, m: nat, n: nat)
    requires m <= n && Traverse(kids, f, m).pending == []
    ensures Traverse(kids, f, n) == Traverse(kids, f, m)
    decreases n
  {
    if m < n {
      TraverseDry(kids, f, m, n - 1);
      TraverseOneMore(kids, f, n - 1);
    }
  }

  // ---- Nearer vertices are visited first ----

  /**
   `levels` gives everything queued so far its distance from the root: they never decrease along the queue and run at
   most one ahead of its head, a path of that length leads there, and no child of a visited vertex is more than one on.
   */
  ghost predicate Leveled<V(!new)>(kids: V -> seq<V>, root: V, f: Frontier<V>, levels: seq<nat>) {
    var all := f.order + f.pending;
    && |levels| == |all|
    && IsGraded(levels, |f.order|)
    && PathsLead(kids, root, all, levels)
    && KidsFollow(kids, f.order, all, levels)
    && IsAtMost(all, levels, root, 0)
  }

  ghost predicate IsGraded(levels: seq<nat>, head: nat) {
    && (forall i, j :: 0 <= i < j < |levels| ==> levels[i] <= levels[j])
    && (head < |levels| ==> forall i :: 0 <= i < |levels| ==> levels[i] <= levels[head] + 1)
  }

  ghost predicate PathsLead<V(!new)>(kids: V -> seq<V>, root: V, all: seq<V>, levels: seq<nat>)
    requires |levels| == |all|
  {
    forall i :: 0 <= i < |all| ==> HasPath(kids, root, all[i], levels[i] + 1)
  }

  ghost predicate KidsFollow<V(!new)>(kids: V -> seq<V>, order: seq<V>, all: seq<V>, levels: seq<nat>)
    requires |order| <= |all| == |levels|
  {
    forall i, k :: 0 <= i < |order| && k in kids(order[i]) ==> IsAtMost(all, levels, k, levels[i] + 1)
  }

  ghost predicate HasPath<V(!new)>(kids: V -> seq<V>, from: V, to: V, length: nat) {
    exists path :: Connects(kids, path, from, to) && |path| == length
  }

  ghost predicate IsAtMost<V(!new)>(all: seq<V>, levels: seq<nat>, v: V, level: nat)
    requires |levels| == |all|
  {
    exists i :: 0 <= i < |all| && all[i] == v && levels[i] <= level
  }

  lemma StartLevels<V(!new)>(kids: V -> seq<V>, root: V)
    ensures Leveled(kids, root, Start(root), [0])
  {
    var all := [] + [root];
    assert Connects(kids, [root], root, root);
    assert all[0] == root && [0][0] <= 0;
  }

  lemma VisitLevels<V(!new)>(kids: V -> seq<V>, root: V, f: Frontier<V>, levels: seq<nat>) returns (levels': seq<nat>)
    requires Inv(kids, root, f) && f.pending != [] && Leveled(kids, root, f, levels)
    ensures Leveled(kids, root, Visit(kids, f), levels')
  {
    hide Inv, IsGraded, PathsLead, KidsFollow, IsAtMost, Fresh;
    var v, h := f.pending[0], |f.order|;
    var all, added := f.order + f.pending, Fresh(kids(v), f.seen);
    var g := Visit(kids, f);
    assert all[h] == v;
    levels' := levels + seq(|added|, _ => levels[h] + 1);
    assert g.order + g.pending == all + added;
    FreshEntries(kids(v), f.seen);
    AddedHavePaths(kids, root, v, all, added, levels, levels', h);
    VisitedFollow(kids, root, f, levels, levels');
    StaysAtMost(all, levels, added, levels', root, 0);
    GradedOnward(levels, h, |added|);
  }

  lemma GradedOnward(levels: seq<nat>, h: nat, n: nat)
    requires h < |levels| && IsGraded(levels, h)
    ensures IsGraded(levels + seq(n, _ => levels[h] + 1), h + 1)
  {
  }

  lemma VisitedFollow<V(!new)>(kids: V -> seq<V>, root: V, f: Frontier<V>, levels: seq<nat>, levels': seq<nat>)
    requires Inv(kids, root, f) && f.pending != [] && Leveled(kids, root, f, levels)
    requires var added := Fresh(kids(f.pending[0]), f.seen);
             levels' == levels + seq(|added|, _ => levels[|f.order|] + 1)
    ensures KidsFollow(kids, f.order + [f.pending[0]], f.order + f.pending + Fresh(kids(f.pending[0]), f.seen), levels')
  {
    hide Reachable, PathsLead, Inv, IsAtMost;
    var h, order := |f.order|, f.order + [f.pending[0]];
    var all, added := f.order + f.pending, Fresh(kids(f.pending[0]), f.seen);
    forall i, k | 0 <= i < |order| && k in kids(order[i])
      ensures IsAtMost(all + added, levels', k, levels'[i] + 1)
    {
      if i < h {
        assert order[i] == f.order[i];
        StaysAtMost(all, levels, added, levels', k, levels[i] + 1);
      } else {
        AtMostOneOn(kids, root, f, levels, levels', k);
      }
    }
  }

  lemma AddedHavePaths<V(!new)>(kids: V -> seq<V>, root: V, v: V, all: seq<V>, added: seq<V>, levels: seq<nat>,
                                levels': seq<nat>, h: nat)
    requires h < |all| == |levels| && all[h] == v && PathsLead(kids, root, all, levels)
    requires forall k :: k in added ==> k in kids(v)
    requires levels' == levels + seq(|added|, _ => levels[h] + 1)
    ensures PathsLead(kids, root, all + added, levels')
  {
    assert HasPath(kids, root, all[h], levels[h] + 1);
    var path :| Connects(kids, path, root, v) && |path| == levels[h] + 1;
    forall i | |all| <= i < |all + added|
      ensures HasPath(kids, root, (all + added)[i], levels'[i] + 1)
    {
      var k := (all + added)[i];
      assert k == added[i - |all|] && k in added;
      assert Connects(kids, path + [k], root, k);
    }
  }

  lemma StaysAtMost<V(!new)>(all: seq<V>, levels: seq<nat>, added: seq<V>, levels': seq<nat>, k: V, level: nat)
    requires |levels| == |all| && |levels'| == |all + added| && levels <= levels' && IsAtMost(all, levels, k, level)
    ensures IsAtMost(all + added, levels', k, level)
  {
    var i :| 0 <= i < |all| && all[i] == k && levels[i] <= level;
    assert (all + added)[i] == k && levels'[i] <= level;
  }

  /** Each child of the head was queued before, at most one level on, or is queued now at that level. */
  lemma AtMostOneOn<V(!new)>(kids: V -> seq<V>, root: V, f: Frontier<V>, levels: seq<nat>, levels': seq<nat>, k: V)
    requires Inv(kids, root, f) && f.pending != [] && Leveled(kids, root, f, levels) && k in kids(f.pending[0])
    requires var added := Fresh(kids(f.pending[0]), f.seen);
             levels' == levels + seq(|added|, _ => levels[|f.order|] + 1)
    ensures IsAtMost(f.order + f.pending + Fresh(kids(f.pending[0]), f.seen), levels', k, levels[|f.order|] + 1)
  {
    hide Reachable, HasPath;
    var all, added := f.order + f.pending, Fresh(kids(f.pending[0]), f.seen);
    FreshEntries(kids(f.pending[0]), f.seen);
    if k in f.seen {
      var i :| 0 <= i < |all| && all[i] == k;
      assert (all + added)[i] == k && levels'[i] == levels[i];
    } else {
      var i :| 0 <= i < |added| && added[i] == k;
      assert (all + added)[|all| + i] == k && levels'[|all| + i] == levels[|f.order|] + 1;
    }
  }

  lemma {:induction false} TraverseLevels<V(!new)>(kids: V -> seq<V>, root: V, f: Frontier<V>, levels: seq<nat>, n: nat)
    returns (levels': seq<nat>)
    requires Inv(kids, root, f) && Leveled(kids, root, f, levels)
    ensures Leveled(kids, root, Traverse(kids, f, n), levels')
    decreases n
  {
    hide Leveled, Inv;
    levels' := levels;
    if n > 0 && f.pending != [] {
      var next := VisitLevels(kids, root, f, levels);
      VisitKeepsInv(kids, root, f);
      levels' := TraverseLevels(kids, root, Visit(kids, f), next, n - 1);
    }
  }

  /** Along any path from the root, levels run no ahead of it, up to the first vertex that was not visited. */
  lemma {:induction false} LevelAlong<V(!new)>(kids: V -> seq<V>, root: V, f: Frontier<V>, levels: seq<nat>,
                                               path: seq<V>, t: nat)
    requires Leveled(kids, root, f, levels) && Distinct(f.order + f.pending)
    requires IsPath(kids, path) && t < |path| && path[0] == root
    ensures IsAtMost(f.order + f.pending, levels, path[t], t) ||
            forall i :: 0 <= i < |f.order| ==> levels[i] <= t
  {
    hide HasPath;
    var all := f.order + f.pending;
    if t > 0 {
      LevelAlong(kids, root, f, levels, path, t - 1);
      if i :| 0 <= i < |all| && all[i] == path[t - 1] && levels[i] <= t - 1 {
        if i < |f.order| {
          assert path[t] in kids(f.order[i]);
          var j :| 0 <= j < |all| && all[j] == path[t] && levels[j] <= levels[i] + 1;
        }
      }
    }
  }

  /**
   The traversal visits by distance: whatever path leads to a vertex, no longer one leads to each vertex visited
   before it.
   */
  lemma NearestFirst<V(!new)>(kids: V -> seq<V>, root: V, n: nat, i: nat, j: nat, path: seq<V>)
    requires i <= j < |Traverse(kids, Start(root), n).order|
    requires Connects(kids, path, root, Traverse(kids, Start(root), n).order[j])
    ensures exists d: nat :: d <= |path| && HasPath(kids, root, Traverse(kids, Start(root), n).order[i], d)
  {
    var t := Traverse(kids, Start(root), n);
    StartInv(kids, root);
    StartLevels(kids, root);
    TraverseKeepsInv(kids, root, Start(root), n);
    var levels := TraverseLevels(kids, root, Start(root), [0], n);
    hide Traverse, Reachable;
    LevelAlong(kids, root, t, levels, path, |path| - 1);
    var all := t.order + t.pending;
    if l :| 0 <= l < |all| && all[l] == t.order[j] && levels[l] <= |path| - 1 {
      assert all[j] == t.order[j] && l == j;
    }
    assert levels[i] + 1 <= |path| && all[i] == t.order[i];
    assert HasPath(kids, root, all[i], levels[i] + 1);
  }

  // ---- Sizes over lists ----

  function Sum<V>(size: V -> nat, xs: seq<V>): nat {
    if xs == [] then 0 else Sum(size, xs[..|xs| - 1]) + size(xs[|xs| - 1])
  }

  lemma {:induction false} SumAppend<V>(size: V -> nat, xs: seq<V>, ys: seq<V>)
    ensures Sum(size, xs + ys) == Sum(size, xs) + Sum(size, ys)
  {
    if ys == [] {
      assert xs + ys == xs;
    } else {
      var n := |ys| - 1;
      SumAppend(size, xs, ys[..n]);
      assert (xs + ys)[..|xs| + n] == xs + ys[..n];
    }
  }

  /** Distinct entries weigh no more than any list holding them all. */
  lemma {:induction false} SumFits<V>(size: V -> nat, xs: seq<V>, ys: seq<V>)
    requires Distinct(xs) && forall v :: v in xs ==> v in ys
    ensures Sum(size, xs) <= Sum(size, ys)
  {
    if xs != [] {
      var n := |xs| - 1;
      assert xs[n] in ys;
      var i :| 0 <= i < |ys| && ys[i] == xs[n];
      var rest := ys[..i] + ys[i + 1..];
      forall v | v in xs[..n]
        ensures v in rest
      {
        assert v in xs && v in ys;
        var j :| 0 <= j < |ys| && ys[j] == v;
        assert v == if j < i then rest[j] else rest[j - 1];
      }
      SumFits(size, xs[..n], rest);
      SumAppend(size, ys[..i], ys[i + 1..]);
      SumAppend(size, ys[..i], [ys[i]]);
      SumAppend(size, ys[..i] + [ys[i]], ys[i + 1..]);
      assert ys[..i] + [ys[i]] + ys[i + 1..] == ys;
      assert Sum(size, [ys[i]]) == Sum(size, []) + size(ys[i]);
    }
  }

  /** The queueing loop: each entry goes in once. */
  method Enqueue<V(==)>(kids: seq<V>, pending: seq<V>, seen: set<V>) returns (pending': seq<V>, seen': set<V>)
    ensures pending' == pending + Fresh(kids, seen)
    ensures seen' == seen + set k | k in kids
  {
    pending', seen' := pending, seen;
    for i := 0 to |kids|
      invariant pending' + Fresh(kids[i..], seen') == pending + Fresh(kids, seen)
      invariant seen' == seen + set k | k in kids[..i]
    {
      var k := kids[i];
      assert kids[i..][0] == k && kids[i..][1..] == kids[i + 1..];
      assert kids[..i + 1] == kids[..i] + [k];
      if k !in seen' {
        Reassociate(pending', [k], Fresh(kids[i + 1..], seen' + {k}));
        seen' := seen' + {k};
        pending' := pending' + [k];
      }
    }
    assert kids[..|kids|] == kids;
    assert pending' + [] == pending';
  }
}
