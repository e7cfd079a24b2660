/**
 The path search of util/ng_corpus_generator.cpp: walks from the start vertex,
 taken from a bounded pool in random order, on which no vertex comes back more
 often than a limit.
 */
module FindPaths {
  type Path = seq<nat>

  /** An NGHolder: `succ[u]` are the out-edges of u in the order of iteration. */
  datatype Graph = Graph(succ: seq<seq<nat>>, start: nat, startDs: nat, accept: nat, acceptEod: nat) {
    /** start has no in-edges, the start vertices are not accept vertices, no edge is doubled. */
    predicate WellFormed() {
      start < |succ| && !IsAccept(start) && !IsAccept(startDs) &&
      (forall u, i :: 0 <= u < |succ| && 0 <= i < |succ[u]| ==> succ[u][i] < |succ| && succ[u][i] != start) &&
      forall u :: 0 <= u < |succ| ==> Distinct(succ[u])
    }

    /** No parallel edges. */
    static predicate Distinct(adj: seq<nat>) {
      forall i, j :: 0 <= i < j < |adj| ==> adj[i] != adj[j]
    }

    predicate IsAccept(v: nat) { v == accept || v == acceptEod }

    predicate Edge(u: nat, v: nat) { u < |succ| && v in succ[u] }

    /** The number of edges into v from vertices below n. */
    function InDegree(v: nat, n: nat): nat
      requires n <= |succ|
    {
      if n == 0 then 0 else InDegree(v, n - 1) + Count(v, succ[n - 1])
    }

    predicate OneWayIn(v: nat) { InDegree(v, |succ|) <= 1 }

    /** One step of a walk: not the startDs self-loop, not into an accept vertex. */
    predicate Walkable(u: nat, v: nat) { Edge(u, v) && !(u == startDs && v == startDs) && !IsAccept(v) }

    /** A walk from start. */
    predicate Walk(p: Path) {
      p != [] && if |p| == 1 then p[0] == start else Walk(p[..|p| - 1]) && Walkable(p[|p| - 2], p[|p| - 1])
    }

    /** Walks on which no vertex occurs more than `limit + 1` times. */
    ghost predicate Admissible(p: Path, limit: nat) {
      Walk(p) && forall v: nat :: Count(v, p) <= limit + 1
    }

    /** The walk can be completed by an edge into accept or acceptEod. */
    predicate Completed(p: Path) {
      p != [] && (Edge(p[|p| - 1], accept) || Edge(p[|p| - 1], acceptEod))
    }
  }

  function Count(v: nat, p: Path): nat {
    if p == [] then 0 else Count(v, p[..|p| - 1]) + (if p[|p| - 1] == v then 1 else 0)
  }

  lemma CountSnoc(v: nat, p: Path, x: nat)
    ensures Count(v, p + [x]) == Count(v, p) + (if x == v then 1 else 0)
  {
    assert (p + [x])[..|p|] == p;
  }

  lemma {:induction false} CountIn(v: nat, p: Path)
    ensures Count(v, p) > 0 <==> v in p
  {
    if p != [] {
      CountIn(v, p[..|p| - 1]);
      assert p == p[..|p| - 1] + [p[|p| - 1]];
    }
  }

  /** has_greater_than. */
  method HasGreaterThan(p: Path, v: nat, limit: nat) returns (r: bool)
    ensures r <==> Count(v, p) > limit
  {
    var left: nat := limit;
    for i := 0 to |p|
      invariant left + Count(v, p[..i]) == limit
    {
      assert p[..i + 1] == p[..i] + [p[i]];
      CountSnoc(v, p[..i], p[i]);
      if p[i] == v {
        if left == 0 {
          CountPrefix(v, p, i + 1);
          return true;
        }
        left := left - 1;
      }
    }
    assert p[..|p|] == p;
    return false;
  }

  lemma {:induction false} CountPrefix(v: nat, p: Path, n: nat)
    requires n <= |p|
    ensures Count(v, p[..n]) <= Count(v, p)
    decreases |p|
  {
    if n < |p| {
      CountPrefix(v, p[..|p| - 1], n);
      assert p[..|p| - 1][..n] == p[..n];
    } else {
      assert p[..n] == p;
    }
  }

  // ----- vertices with one way in

  lemma {:induction false} InDegreeGrows(g: Graph, v: nat, m: nat, n: nat)
    requires m <= n <= |g.succ|
    ensures g.InDegree(v, m) <= g.InDegree(v, n)
    decreases n
  {
    if m < n {
      InDegreeGrows(g, v, m, n - 1);
    }
  }

  lemma OnePredecessor(g: Graph, v: nat, u: nat, w: nat)
    requires g.OneWayIn(v) && g.Edge(u, v) && g.Edge(w, v)
    ensures u == w
  {
    if u != w {
      var a, b := if u < w then u else w, if u < w then w else u;
      CountIn(v, g.succ[a]);
      CountIn(v, g.succ[b]);
      InDegreeGrows(g, v, a + 1, b);
      InDegreeGrows(g, v, b + 1, |g.succ|);
    }
  }

  /** On a walk, every visit to a vertex with the one predecessor u follows a visit to u. */
  lemma {:induction false} PredecessorCount(g: Graph, p: Path, u: nat, v: nat)
    requires g.Walk(p) && v != g.start && g.OneWayIn(v) && g.Edge(u, v)
    ensures Count(v, p) <= Count(u, p[..|p| - 1])
    decreases |p|
  {
    if |p| == 1 {
      assert Count(v, p[..0]) == 0;
    } else {
      var q := p[..|p| - 1];
      PredecessorCount(g, q, u, v);
      if p[|p| - 1] == v {
        OnePredecessor(g, v, u, p[|p| - 2]);
      }
    }
  }

  /** So the limit needs no check there: the last vertex of the walk already occurs more often. */
  lemma {:induction false} OneWayInNeedsNoCheck(g: Graph, p: Path, v: nat, limit: nat)
    requires g.Admissible(p, limit) && g.OneWayIn(v) && v != g.start && g.Edge(p[|p| - 1], v)
    ensures Count(v, p) <= limit
  {
    var u := p[|p| - 1];
    PredecessorCount(g, p, u, v);
    assert Count(u, p) == Count(u, p[..|p| - 1]) + 1;
  }

  lemma {:induction false} Extend(g: Graph, p: Path, v: nat, limit: nat)
    requires g.WellFormed() && g.Admissible(p, limit) && g.Walkable(p[|p| - 1], v)
    ensures g.Admissible(p + [v], limit) <==> Count(v, p) <= limit
    ensures g.OneWayIn(v) ==> Count(v, p) <= limit
  {
    var q := p + [v];
    assert q[..|p|] == p;
    assert g.Walk(q);
    assert v != g.start;
    if g.OneWayIn(v) {
      OneWayInNeedsNoCheck(g, p, v, limit);
    }
    forall x: nat ensures Count(x, q) == Count(x, p) + (if x == v then 1 else 0) {
      CountSnoc(x, p, v);
    }
    assert Count(v, q) == Count(v, p) + 1;
  }

  // ----- how long a path can get

  function Tally(p: Path, n: nat): nat {
    if n == 0 then 0 else Tally(p, n - 1) + Count(n - 1, p)
  }

  lemma {:induction false} TallySnoc(p: Path, x: nat, n: nat)
    ensures Tally(p + [x], n) == Tally(p, n) + (if x < n then 1 else 0)
  {
    if n > 0 {
      TallySnoc(p, x, n - 1);
      CountSnoc(n - 1, p, x);
    }
  }

  lemma {:induction false} TallyIsLength(g: Graph, p: Path)
    requires g.WellFormed() && g.Walk(p)
    ensures Tally(p, |g.succ|) == |p|
    decreases |p|
  {
    var q, v := p[..|p| - 1], p[|p| - 1];
    assert p == q + [v];
    TallySnoc(q, v, |g.succ|);
    if |p| == 1 {
      NoTally(|g.succ|);
    } else {
      TallyIsLength(g, q);
    }
  }

  lemma {:induction false} NoTally(n: nat)
    ensures Tally([], n) == 0
  {
    if n > 0 {
      NoTally(n - 1);
    }
  }

  lemma {:induction false} TallyBound(p: Path, n: nat, most: nat)
    requires forall v: nat :: Count(v, p) <= most
    ensures Tally(p, n) <= n * most
  {
    if n > 0 {
      TallyBound(p, n - 1, most);
      assert n * most == (n - 1) * most + most;
    }
  }

  function Longest(g: Graph, limit: nat): nat { |g.succ| * (limit + 1) }

  lemma LengthBound(g: Graph, p: Path, limit: nat)
    requires g.WellFormed() && g.Admissible(p, limit)
    ensures |p| <= Longest(g, limit)
  {
    TallyIsLength(g, p);
    TallyBound(p, |g.succ|, limit + 1);
  }

  // ----- termination: the weight of the pool

  function Pow(b: nat, n: nat): nat { if n == 0 then 1 else b * Pow(b, n - 1) }

  lemma {:induction false} PowPositive(b: nat, n: nat)
    requires b > 0
    ensures Pow(b, n) > 0
  {
    if n > 0 {
      PowPositive(b, n - 1);
    }
  }

  function MaxDegree(g: Graph, n: nat): nat
    requires n <= |g.succ|
  {
    if n == 0 then 0
    else var d := MaxDegree(g, n - 1); if |g.succ[n - 1]| > d then |g.succ[n - 1]| else d
  }

  lemma {:induction false} DegreeBound(g: Graph, u: nat, n: nat)
    requires u < n <= |g.succ|
    ensures |g.succ[u]| <= MaxDegree(g, n)
  {
    if u < n - 1 {
      DegreeBound(g, u, n - 1);
    }
  }

  /** A path of length k that may still grow weighs more than all paths that can replace it. */
  function Weight(g: Graph, limit: nat, k: nat): nat {
    if k <= Longest(g, limit) then Pow(MaxDegree(g, |g.succ|) + 1, Longest(g, limit) - k) else 0
  }

  lemma WeightDrops(g: Graph, limit: nat, u: nat, k: nat)
    requires u < |g.succ| && k <= Longest(g, limit)
    ensures Times(|g.succ[u]|, Weight(g, limit, k + 1)) < Weight(g, limit, k)
  {
    var b, room := MaxDegree(g, |g.succ|) + 1, Longest(g, limit) - k;
    DegreeBound(g, u, |g.succ|);
    PowPositive(b, room);
    if room > 0 {
      var w := Weight(g, limit, k + 1);
      assert w == Pow(b, room - 1);
      PowPositive(b, room - 1);
      Scaled(|g.succ[u]|, b, w);
    }
  }

  function Times(n: nat, w: nat): nat { n * w }

  lemma OnceMore(n: nat, w: nat)
    ensures Times(0, w) == 0 && Times(n + 1, w) == Times(n, w) + w
  {
  }

  lemma Scaled(d: nat, b: nat, w: nat)
    requires d < b && w > 0
    ensures d * w < b * w
  {
  }

  function PoolWeight(g: Graph, limit: nat, open: seq<Path>): nat {
    if open == [] then 0
    else PoolWeight(g, limit, open[..|open| - 1]) + Weight(g, limit, |open[|open| - 1]|)
  }

  lemma PoolPush(g: Graph, limit: nat, open: seq<Path>, p: Path)
    ensures PoolWeight(g, limit, open + [p]) == PoolWeight(g, limit, open) + Weight(g, limit, |p|)
  {
    assert (open + [p])[..|open|] == open;
  }

  lemma {:induction false} PoolReplace(g: Graph, limit: nat, open: seq<Path>, i: nat, p: Path)
    requires i < |open|
    ensures PoolWeight(g, limit, open[i := p]) + Weight(g, limit, |open[i]|) ==
            PoolWeight(g, limit, open) + Weight(g, limit, |p|)
    decreases |open|
  {
    var n := |open| - 1;
    if i < n {
      PoolReplace(g, limit, open[..n], i, p);
      assert open[i := p][..n] == open[..n][i := p];
    } else {
      assert open[i := p][..n] == open[..n];
    }
  }

  /** swap with the back, then pop it. */
  function Removed(open: seq<Path>, slot: nat): (r: seq<Path>)
    requires slot < |open|
  {
    open[slot := open[|open| - 1]][..|open| - 1]
  }

  lemma PoolRemove(g: Graph, limit: nat, open: seq<Path>, slot: nat)
    requires slot < |open|
    ensures PoolWeight(g, limit, Removed(open, slot)) + Weight(g, limit, |open[slot]|) == PoolWeight(g, limit, open)
  {
    var n := |open| - 1;
    var swapped := open[slot := open[n]][n := open[slot]];
    assert Removed(open, slot) == swapped[..n];
    assert swapped[n] == open[slot];
    PoolReplace(g, limit, open, slot, open[n]);
    PoolReplace(g, limit, open[slot := open[n]], n, open[slot]);
  }

  lemma RemovedHolds(open: seq<Path>, slot: nat, p: Path)
    requires slot < |open|
    ensures p in Removed(open, slot) ==> p in open
    ensures p in open && p != open[slot] ==> p in Removed(open, slot)
  {
    var r := Removed(open, slot);
    if p in open && p != open[slot] {
      var i :| 0 <= i < |open| && open[i] == p;
      assert i < |open| - 1 ==> r[i] == p;
      assert i == |open| - 1 ==> r[slot] == p;
    }
  }

  // ----- completeness: where an admissible walk is

  /** The walk has been taken from the pool, or a prefix of it waits there. */
  ghost predicate Covered(q: Path, done: set<Path>, open: seq<Path>) {
    q in done || exists k: nat :: k <= |q| && q[..k] in open
  }

  ghost predicate AllCovered(g: Graph, limit: nat, done: set<Path>, open: seq<Path>) {
    forall q: Path :: g.Admissible(q, limit) ==> Covered(q, done, open)
  }

  lemma {:induction false} PrefixAdmissible(g: Graph, q: Path, limit: nat, k: nat)
    requires g.Admissible(q, limit) && 0 < k <= |q|
    ensures g.Admissible(q[..k], limit)
    ensures k < |q| ==> g.Walkable(q[k - 1], q[k])
    decreases |q|
  {
    if k < |q| {
      var f := q[..|q| - 1];
      forall v: nat ensures Count(v, f) <= limit + 1 {
        CountPrefix(v, q, |q| - 1);
      }
      if k < |f| {
        PrefixAdmissible(g, f, limit, k);
        assert f[..k] == q[..k];
        assert f[k - 1] == q[k - 1] && f[k] == q[k];
      } else {
        assert q[..k] == f;
      }
    } else {
      assert q[..k] == q;
    }
  }

  /** Taking p from the pool and putting all its admissible extensions there keeps every walk covered. */
  lemma {:induction false} Replaced(g: Graph, limit: nat, p: Path, done: set<Path>, open: seq<Path>, next: seq<Path>)
    requires AllCovered(g, limit, done, open) && p in open && p != []
    requires forall q <- open :: q != p ==> q in next
    requires forall v :: g.Walkable(p[|p| - 1], v) && g.Admissible(p + [v], limit) ==> p + [v] in next
    ensures AllCovered(g, limit, done + {p}, next)
  {
    forall q: Path | g.Admissible(q, limit) ensures Covered(q, done + {p}, next) {
      assert Covered(q, done, open);
      if q !in done && q != p {
        var k: nat :| k <= |q| && q[..k] in open;
        if q[..k] == p {
          assert q[..|q|] == q;
          PrefixAdmissible(g, q, limit, k);
          PrefixAdmissible(g, q, limit, k + 1);
          assert q[..k + 1] == p + [q[k]];
          assert p[|p| - 1] == q[k - 1];
          assert q[..k + 1] in next;
        } else {
          assert q[..k] in next;
        }
      }
    }
  }

  // ----- open paths never lie on one another

  predicate Apart(p: Path, q: Path) { !(p <= q) && !(q <= p) }

  predicate Antichain(open: seq<Path>) {
    forall i, j :: 0 <= i < |open| && 0 <= j < |open| && i != j ==> Apart(open[i], open[j])
  }

  predicate ApartFromAll(p: Path, open: seq<Path>) {
    forall i :: 0 <= i < |open| ==> Apart(p, open[i])
  }

  lemma ChildApart(p: Path, v: nat, q: Path)
    requires Apart(p, q)
    ensures Apart(p + [v], q)
  {
  }

  lemma SiblingsApart(p: Path, v: nat, w: nat)
    requires v != w
    ensures Apart(p + [v], p + [w])
  {
    assert (p + [v])[|p|] == v && (p + [w])[|p|] == w;
  }

  lemma RemovedApart(open: seq<Path>, slot: nat)
    requires slot < |open| && Antichain(open)
    ensures Antichain(Removed(open, slot)) && ApartFromAll(open[slot], Removed(open, slot))
  {
  }

  /** The pool size at which new paths start to evict old ones. */
  function MaxOpen(corpusLimit: nat): nat { if corpusLimit * 10 < 1000 then corpusLimit * 10 else 1000 }

  /** There are at least as many admissible walks, none a prefix of another, as the pool has room for. */
  ghost predicate Crowded(g: Graph, limit: nat, corpusLimit: nat) {
    exists s: seq<Path> :: |s| >= MaxOpen(corpusLimit) && Antichain(s) && Sound(g, limit, s)
  }

  /** Children of p in the pool belong to its first n out-edges; all else there is apart from p. */
  ghost predicate Family(p: Path, adj: seq<nat>, n: nat, open: seq<Path>)
    requires n <= |adj|
  {
    forall i :: 0 <= i < |open| ==> Apart(p, open[i]) || ChildOf(p, adj[..n], open[i])
  }

  predicate ChildOf(p: Path, some: seq<nat>, q: Path) {
    |q| == |p| + 1 && q[..|p|] == p && q[|p|] in some
  }

  lemma NewChildApart(p: Path, adj: seq<nat>, n: nat, open: seq<Path>)
    requires n < |adj| && Graph.Distinct(adj) && Family(p, adj, n, open)
    ensures ApartFromAll(p + [adj[n]], open)
  {
    forall i | 0 <= i < |open| ensures Apart(p + [adj[n]], open[i]) {
      if Apart(p, open[i]) {
        ChildApart(p, adj[n], open[i]);
      } else {
        var w := open[i][|p|];
        assert open[i] == p + [w];
        SiblingsApart(p, adj[n], w);
      }
    }
  }

  lemma FamilyGrows(p: Path, adj: seq<nat>, n: nat, open: seq<Path>)
    requires n < |adj| && Family(p, adj, n, open)
    ensures Family(p, adj, n + 1, open)
  {
    forall i | 0 <= i < |open| && ChildOf(p, adj[..n], open[i]) ensures ChildOf(p, adj[..n + 1], open[i]) {
      assert adj[..n + 1] == adj[..n] + [adj[n]];
    }
  }

  lemma NewChild(p: Path, adj: seq<nat>, n: nat)
    requires n < |adj|
    ensures ChildOf(p, adj[..n + 1], p + [adj[n]])
  {
    assert adj[..n + 1] == adj[..n] + [adj[n]];
  }

  /** A pool after child n of p has joined it, by itself or in place of another path. */
  lemma Joined(p: Path, adj: seq<nat>, n: nat, open: seq<Path>, victim: nat)
    requires n < |adj| && Graph.Distinct(adj) && Family(p, adj, n, open) && Antichain(open)
    ensures var q := p + [adj[n]];
            Antichain(open + [q]) && Family(p, adj, n + 1, open + [q]) &&
            (victim < |open| ==> Antichain(open[victim := q]) && Family(p, adj, n + 1, open[victim := q]))
  {
    hide Apart, ChildOf, Graph.Distinct;
    var q := p + [adj[n]];
    NewChildApart(p, adj, n, open);
    FamilyGrows(p, adj, n, open);
    NewChild(p, adj, n);
    assert forall a: Path, b: Path :: Apart(a, b) == Apart(b, a) by { ApartIsMutual(); }
  }

  lemma ApartIsMutual()
    ensures forall a: Path, b: Path :: Apart(a, b) == Apart(b, a)
  {
  }

  // ----- the search

  /** A source of random numbers: draw `i` from 0..n - 1. */
  ghost predicate Fair(rand: (nat, nat) -> nat) { forall i: nat, n: nat :: n > 0 ==> rand(i, n) < n }

  ghost predicate Sound(g: Graph, limit: nat, paths: seq<Path>) {
    forall p <- paths :: g.Admissible(p, limit)
  }

  ghost predicate Emitted(g: Graph, limit: nat, paths: seq<Path>) {
    forall p <- paths :: g.Admissible(p, limit) && g.Completed(p)
  }

  /** Everything an open path p leaves in the pool after its first n out-edges. */
  ghost predicate Grown(g: Graph, limit: nat, p: Path, n: nat, open: seq<Path>)
    requires p != [] && p[|p| - 1] < |g.succ| && n <= |g.succ[p[|p| - 1]]|
  {
    var adj := g.succ[p[|p| - 1]];
    forall j :: 0 <= j < n ==> ExtensionIn(g, limit, p, adj[j], open)
  }

  ghost predicate ExtensionIn(g: Graph, limit: nat, p: Path, v: nat, open: seq<Path>)
    requires p != []
  {
    g.Walkable(p[|p| - 1], v) && g.Admissible(p + [v], limit) ==> p + [v] in open
  }

  lemma GrownMore(g: Graph, limit: nat, p: Path, n: nat, open: seq<Path>, next: seq<Path>)
    requires p != [] && p[|p| - 1] < |g.succ| && n < |g.succ[p[|p| - 1]]| && Grown(g, limit, p, n, open)
    requires (forall q <- open :: q in next) && ExtensionIn(g, limit, p, g.succ[p[|p| - 1]][n], next)
    ensures Grown(g, limit, p, n + 1, next)
  {
    hide Graph.Admissible, Graph.Walkable;
    var adj := g.succ[p[|p| - 1]];
    forall j | 0 <= j < n ensures ExtensionIn(g, limit, p, adj[j], next) {
      assert ExtensionIn(g, limit, p, adj[j], open);
    }
  }

  /** An out-edge that leaves nothing in the pool. */
  lemma Skipped(g: Graph, limit: nat, p: Path, n: nat, open: seq<Path>)
    requires p != [] && p[|p| - 1] < |g.succ| && n < |g.succ[p[|p| - 1]]|
    requires var v := g.succ[p[|p| - 1]][n]; !(g.Walkable(p[|p| - 1], v) && g.Admissible(p + [v], limit))
    ensures Grown(g, limit, p, n, open) ==> Grown(g, limit, p, n + 1, open)
  {
    hide Graph.Admissible, Graph.Walkable;
    if Grown(g, limit, p, n, open) {
      GrownMore(g, limit, p, n, open, open);
    }
  }

  lemma NotGrown(g: Graph, limit: nat, p: Path, open: seq<Path>)
    requires p != [] && p[|p| - 1] < |g.succ|
    ensures Grown(g, limit, p, 0, open)
  {
  }

  lemma LastInRange(g: Graph, p: Path)
    requires g.WellFormed() && g.Walk(p)
    ensures p[|p| - 1] < |g.succ| && Graph.Distinct(g.succ[p[|p| - 1]]) && !g.IsAccept(g.startDs)
  {
  }

  /** The loop over the out-edges of the last vertex of p. */
  method Grow(g: Graph, rand: (nat, nat) -> nat, limit: nat, corpusLimit: nat, p: Path,
              pool: seq<Path>, prior: seq<Path>, drawn: nat, lost: nat)
      returns (open: seq<Path>, all: seq<Path>, full: bool, draws: nat, evictions: nat)
    requires g.WellFormed() && Fair(rand) && corpusLimit >= 1 && g.Admissible(p, limit)
    requires Sound(g, limit, pool) && Emitted(g, limit, prior) && |prior| < corpusLimit
    requires Antichain(pool) && ApartFromAll(p, pool)
    ensures Antichain(open) && (evictions > lost ==> Crowded(g, limit, corpusLimit))
    ensures Emitted(g, limit, all) && Sound(g, limit, open)
    ensures full <==> |all| >= corpusLimit
    ensures |all| <= corpusLimit && prior <= all
    ensures !full && g.Completed(p) ==> p in all
    ensures p[|p| - 1] < |g.succ|
    ensures !full ==>
              PoolWeight(g, limit, open) <=
              PoolWeight(g, limit, pool) + Times(|g.succ[p[|p| - 1]]|, Weight(g, limit, |p| + 1))
    ensures evictions >= lost
    ensures !full && evictions == lost ==>
              (forall q <- pool :: q in open) && Grown(g, limit, p, |g.succ[p[|p| - 1]]|, open)
  {
    hide Graph.Admissible, Graph.Walk, Graph.WellFormed, Graph.OneWayIn, Count, Weight, PoolWeight, Grown, Times,
      Graph.Distinct, Antichain, ApartFromAll, Family;
    var maxOpen := MaxOpen(corpusLimit);
    open, all, draws, evictions, full := pool, prior, drawn, lost, false;
    WalkOf(g, p, limit);
    LastInRange(g, p);
    var u := p[|p| - 1];
    var adj := g.succ[u];
    ghost var w := Weight(g, limit, |p| + 1);
    assert Grown(g, limit, p, 0, open) by { NotGrown(g, limit, p, open); }
    OnceMore(0, w);
    assert Family(p, adj, 0, open) by { FirstFamily(p, adj, open); }
    for i := 0 to |adj|
      invariant Emitted(g, limit, all) && Sound(g, limit, open) && |all| < corpusLimit && prior <= all
      invariant Antichain(open) && Family(p, adj, i, open) && (evictions > lost ==> Crowded(g, limit, corpusLimit))
      invariant forall j :: 0 <= j < i && g.IsAccept(adj[j]) ==> p in all
      invariant PoolWeight(g, limit, open) <= PoolWeight(g, limit, pool) + Times(i, w)
      invariant evictions >= lost
      invariant evictions == lost ==> (forall q <- pool :: q in open) && Grown(g, limit, p, i, open)
    {
      var v := adj[i];
      OnceMore(i, w);
      FamilyGrows(p, adj, i, open);
      if u == g.startDs && v == g.startDs {
        Skipped(g, limit, p, i, open);
        continue;
      }
      if g.IsAccept(v) {
        Skipped(g, limit, p, i, open);
        all := all + [p];
        if |all| >= corpusLimit {
          full := true;
          return;
        }
        continue;
      }
      Extend(g, p, v, limit);
      if !g.OneWayIn(v) {
        var pruned := HasGreaterThan(p, v, limit);
        if pruned {
          Skipped(g, limit, p, i, open);
          continue;
        }
      }
      var newPath := p + [v];
      Joined(p, adj, i, open, if |open| < maxOpen then |open| else rand(draws, |open|));
      if |open| < maxOpen {
        PoolPush(g, limit, open, newPath);
        if evictions == lost {
          GrownMore(g, limit, p, i, open, open + [newPath]);
        }
        open := open + [newPath];
      } else {
        var victim := rand(draws, |open|);
        draws := draws + 1;
        PoolReplace(g, limit, open, victim, newPath);
        open := open[victim := newPath];
        evictions := evictions + 1;
      }
    }
  }

  lemma FirstFamily(p: Path, adj: seq<nat>, open: seq<Path>)
    requires ApartFromAll(p, open)
    ensures Family(p, adj, 0, open)
  {
  }

  lemma WalkOf(g: Graph, p: Path, limit: nat)
    requires g.Admissible(p, limit)
    ensures g.Walk(p) && p != []
  {
  }

  /** findPaths. */
  method Search(g: Graph, rand: (nat, nat) -> nat, limit: nat, corpusLimit: nat)
      returns (all: seq<Path>, evictions: nat)
    requires g.WellFormed() && Fair(rand) && corpusLimit >= 1
    ensures |all| <= corpusLimit
    ensures forall p <- all :: g.Admissible(p, limit) && g.Completed(p)
    ensures |all| < corpusLimit && evictions == 0 ==>
              forall p: Path :: g.Admissible(p, limit) && g.Completed(p) ==> p in all
    ensures evictions > 0 ==> Crowded(g, limit, corpusLimit)
  {
    hide Antichain, ApartFromAll, Crowded, Graph.Admissible, Graph.Walk, Graph.Completed, Weight, PoolWeight,
        Removed, Grown, Times;
    var open: seq<Path>, draws := [[g.start]], 0;
    all, evictions := [], 0;
    ghost var done: set<Path> := {};
    FirstPath(g, limit);
    assert Antichain(open) by { OnlyOne(open); }
    while open != []
      invariant Sound(g, limit, open) && Emitted(g, limit, all) && |all| < corpusLimit
      invariant Antichain(open) && (evictions > 0 ==> Crowded(g, limit, corpusLimit))
      invariant evictions == 0 ==> AllCovered(g, limit, done, open)
      invariant forall q <- done :: g.Completed(q) ==> q in all
      decreases PoolWeight(g, limit, open)
    {
      var slot := rand(draws, |open|);
      draws := draws + 1;
      var p := open[slot];
      ghost var before := open;
      open := Removed(open, slot);
      forall q: Path ensures (q in open ==> q in before) && (q in before && q != p ==> q in open) {
        RemovedHolds(before, slot, q);
      }
      PoolRemove(g, limit, before, slot);
      RemovedApart(before, slot);
      WalkOf(g, p, limit);
      LengthBound(g, p, limit);
      ghost var rest, lost := open, evictions;
      var full;
      open, all, full, draws, evictions := Grow(g, rand, limit, corpusLimit, p, open, all, draws, evictions);
      if full {
        return;
      }
      WeightDrops(g, limit, p[|p| - 1], |p|);
      if evictions == 0 {
        AllGrown(g, limit, p, open);
        Replaced(g, limit, p, done, before, open);
      }
      done := done + {p};
    }
    assert forall q: Path :: !Covered(q, {}, []);
  }

  lemma {:induction false} FirstPath(g: Graph, limit: nat)
    requires g.WellFormed()
    ensures g.Admissible([g.start], limit)
    ensures AllCovered(g, limit, {}, [[g.start]])
  {
    forall v: nat ensures Count(v, [g.start]) <= 1 {
      CountSnoc(v, [], g.start);
    }
    forall q: Path | g.Admissible(q, limit) ensures Covered(q, {}, [[g.start]]) {
      PrefixAdmissible(g, q, limit, 1);
      assert q[..1] == [g.start];
    }
  }

  lemma OnlyOne(open: seq<Path>)
    requires |open| == 1
    ensures Antichain(open)
  {
  }

  lemma AllGrown(g: Graph, limit: nat, p: Path, open: seq<Path>)
    requires p != [] && p[|p| - 1] < |g.succ| && Grown(g, limit, p, |g.succ[p[|p| - 1]]|, open)
    ensures forall v :: g.Walkable(p[|p| - 1], v) && g.Admissible(p + [v], limit) ==> p + [v] in open
  {
    hide Graph.Admissible;
    var adj := g.succ[p[|p| - 1]];
    forall v | g.Walkable(p[|p| - 1], v) && g.Admissible(p + [v], limit) ensures p + [v] in open {
      var j :| 0 <= j < |adj| && adj[j] == v;
      assert ExtensionIn(g, limit, p, adj[j], open);
    }
  }
}
