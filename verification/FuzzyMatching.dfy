/**
 What approximate matching means: findMatches (util/ng_find_matches.cpp) with an edit or
 Hamming distance reports exactly the ends of stretches of the input that are within
 that distance of a word of the graph.
 */
module FuzzyMatching {
  import opened Common
  import opened FindMatches
  import opened FindMatchesScan
  import opened FindMatchesTheorems

  // ----- graphs

  /** As NGHolder wires its special vertices: startDs waits on any byte, nothing else leads to a start, accepts end. */
  ghost predicate Holder(g: Graph) {
    && g.Valid() && g.Edge(START_DS, START_DS) && (forall b: bv8 :: b in g.reach[START_DS])
    && forall e :: e in g.edges ==>
         && e.1 != START && (e.1 == START_DS ==> IsAnyStart(e.0))
         && (e.0 == ACCEPT ==> e.1 == ACCEPT_EOD) && e.0 != ACCEPT_EOD
  }

  /** No zero-width assertions, as approximate matching demands. */
  ghost predicate Plain(g: Graph) { forall e :: e in g.edges ==> g.Flags(e.0, e.1) == 0 }

  function End(o: nat, p: seq<nat>): nat { if p == [] then o else p[|p| - 1] }

  /** From o along edges through the ordinary vertices p. */
  ghost predicate Walk(g: Graph, o: nat, p: seq<nat>) {
    p == [] ||
    var init, v := p[..|p| - 1], p[|p| - 1];
    Walk(g, o, init) && !IsSpecial(v) && g.Edge(End(o, init), v)
  }

  predicate Reads(g: Graph, v: nat, b: bv8) { v < |g.reach| && b in g.reach[v] }

  // ----- alignments

  /** Another byte may stand at v: not at a virtual start, and without insertions not on a self-loop. */
  predicate Replaceable(g: Graph, hamming: bool, u: nat, v: nat) { v !in g.virtualStarts && (hamming ==> u != v) }

  /** With at most k edits, the walk p from o reads s: bytes replaced, and unless `hamming` inserted or left out. */
  ghost predicate Aligned(g: Graph, hamming: bool, o: nat, p: seq<nat>, s: seq<bv8>, k: nat)
    decreases |p| + |s|
  {
    || (p == [] && s == [])
    || (p != [] && s != [] && Reads(g, p[|p| - 1], s[|s| - 1]) &&
        Aligned(g, hamming, o, p[..|p| - 1], s[..|s| - 1], k))
    || (p != [] && s != [] && k > 0 && Replaceable(g, hamming, End(o, p[..|p| - 1]), p[|p| - 1]) &&
        Aligned(g, hamming, o, p[..|p| - 1], s[..|s| - 1], k - 1))
    || (!hamming && s != [] && k > 0 && Aligned(g, hamming, o, p, s[..|s| - 1], k - 1))
    || (!hamming && p != [] && k > 0 && Aligned(g, hamming, o, p[..|p| - 1], s, k - 1))
  }

  lemma {:induction false} MoreEdits(g: Graph, hamming: bool, o: nat, p: seq<nat>, s: seq<bv8>, k: nat, n: nat)
    requires Aligned(g, hamming, o, p, s, k) && k <= n
    ensures Aligned(g, hamming, o, p, s, n)
    decreases |p| + |s|
  {
    hide Reads, Replaceable, End;
    var p', s' := p[..if p == [] then 0 else |p| - 1], s[..if s == [] then 0 else |s| - 1];
    if p != [] && s != [] && Aligned(g, hamming, o, p', s', k) {
      MoreEdits(g, hamming, o, p', s', k, n);
    }
    if p != [] && s != [] && k > 0 && Aligned(g, hamming, o, p', s', k - 1) {
      MoreEdits(g, hamming, o, p', s', k - 1, n - 1);
    }
    if s != [] && k > 0 && Aligned(g, hamming, o, p, s', k - 1) {
      MoreEdits(g, hamming, o, p, s', k - 1, n - 1);
    }
    if p != [] && k > 0 && Aligned(g, hamming, o, p', s, k - 1) {
      MoreEdits(g, hamming, o, p', s, k - 1, n - 1);
    }
  }

  lemma {:induction false} LeaveOut(g: Graph, o: nat, p: seq<nat>, x: seq<nat>, s: seq<bv8>, k: nat)
    requires Aligned(g, false, o, p, s, k)
    ensures Aligned(g, false, o, p + x, s, k + |x|)
    decreases |x|
  {
    if x == [] {
      assert p + x == p;
    } else {
      LeaveOut(g, o, p, x[..|x| - 1], s, k);
      assert (p + x)[..|p + x| - 1] == p + x[..|x| - 1];
    }
  }

  lemma Keep(g: Graph, hamming: bool, o: nat, p: seq<nat>, v: nat, s: seq<bv8>, b: bv8, k: nat)
    requires Aligned(g, hamming, o, p, s, k) && Reads(g, v, b)
    ensures Aligned(g, hamming, o, p + [v], s + [b], k)
  {
    assert (p + [v])[..|p|] == p && (s + [b])[..|s|] == s;
  }

  lemma Replace(g: Graph, hamming: bool, o: nat, p: seq<nat>, v: nat, s: seq<bv8>, b: bv8, k: nat)
    requires Aligned(g, hamming, o, p, s, k) && Replaceable(g, hamming, End(o, p), v)
    ensures Aligned(g, hamming, o, p + [v], s + [b], k + 1)
  {
    assert (p + [v])[..|p|] == p && (s + [b])[..|s|] == s;
  }

  lemma Insert(g: Graph, o: nat, p: seq<nat>, s: seq<bv8>, b: bv8, k: nat)
    requires Aligned(g, false, o, p, s, k)
    ensures Aligned(g, false, o, p, s + [b], k + 1)
  {
    assert (s + [b])[..|s|] == s;
  }

  // ----- steps over several vertices

  /** From u over the ordinary vertices x to v, never along a self-loop. */
  ghost predicate Hop(g: Graph, u: nat, x: seq<nat>, v: nat) {
    if x == [] then g.Edge(u, v) && u != v
    else
      var y := x[|x| - 1];
      !IsSpecial(y) && g.Edge(y, v) && y != v && Hop(g, u, x[..|x| - 1], y)
  }

  lemma {:induction false} SuccessorHop(g: Graph, u: nat, v: nat, d: nat) returns (x: seq<nat>)
    requires g.Valid() && v in SuccessorsAt(g, u, d)
    ensures |x| == d && Hop(g, u, x, v)
    decreases d
  {
    if d == 0 {
      x := [];
    } else {
      var e :| e in g.edges && e.0 in SuccessorsAt(g, u, d - 1) && !IsSpecial(e.0) && e.0 != e.1 && e.1 == v;
      var y := SuccessorHop(g, u, e.0, d - 1);
      x := y + [e.0];
      assert x[..|x| - 1] == y && e == (e.0, v);
    }
  }

  lemma {:induction false} HopSuccessor(g: Graph, u: nat, x: seq<nat>, v: nat)
    requires g.Valid() && Hop(g, u, x, v)
    ensures v in SuccessorsAt(g, u, |x|)
    decreases |x|
  {
    if x == [] {
      assert (u, v) in g.edges && (u, v).0 == u && (u, v).1 == v;
    } else {
      var y := x[|x| - 1];
      HopSuccessor(g, u, x[..|x| - 1], y);
      assert (y, v) in g.edges && (y, v).0 == y && (y, v).1 == v;
    }
  }

  /** Walking on over x to v. */
  lemma {:induction false} WalkOn(g: Graph, o: nat, p: seq<nat>, x: seq<nat>, v: nat)
    requires Walk(g, o, p) && Hop(g, End(o, p), x, v) && !IsSpecial(v)
    ensures Walk(g, o, p + x) && Walk(g, o, p + x + [v])
    ensures End(o, p + x) != v
    decreases |x|
  {
    var all := p + x + [v];
    assert all[..|all| - 1] == p + x;
    if x == [] {
      assert p + x == p;
    } else {
      var y := x[|x| - 1];
      WalkOn(g, o, p, x[..|x| - 1], y);
      assert p + x == p + x[..|x| - 1] + [y];
    }
  }

  // ----- a run aligns

  /** Waiting in a start vertex, no edit spent. */
  predicate Waits(c: State) { IsAnyStart(c.idx) && c.level == 0 }

  /** A move reads the byte or is a helper's, and costs what the table entry says. */
  lemma MoveCosts(g: Graph, cfg: Config, c: State, s: State, prev: bv8, cur: bv8) returns (d: nat)
    requires g.Valid() && Moves(g, cfg, c, s, prev, cur)
    ensures d <= cfg.dist - c.level && s.level == c.level + d
    ensures if s.helper then s.idx in Helpers(g, cfg, c.idx, d)
            else s.idx in Shadows(g, cfg, c.idx, d) && Reads(g, s.idx, cur)
  {
    hide Shadows, Helpers, CanReach, AllowStartDs;
    if s.helper {
      d :| 0 <= d <= cfg.dist - c.level && s.idx in Helpers(g, cfg, c.idx, d) && s.level == c.level + d;
    } else {
      d :| 0 <= d <= cfg.dist - c.level && s.idx in Shadows(g, cfg, c.idx, d) && s.level == c.level + d;
    }
  }

  /** Only waiting leads to startDs without an edit, and only an insertion there keeps it; the rest is ordinary. */
  lemma MoveTargets(g: Graph, cfg: Config, c: State, s: State, prev: bv8, cur: bv8, d: nat)
    requires Holder(g) && Moves(g, cfg, c, s, prev, cur) && !(s.helper && s.idx == c.idx)
    requires s.level == c.level + d
    requires if s.helper then s.idx in Helpers(g, cfg, c.idx, d) else s.idx in Shadows(g, cfg, c.idx, d)
    ensures !IsSpecial(s.idx) || (s.idx == START_DS && s.level == 0 && Waits(c))
  {
    hide CanReach, AllowStartDs;
    if s.idx == START_DS {
      if s.idx in SuccessorsAt(g, c.idx, if s.helper then d - 1 else d) {
        var x := SuccessorHop(g, c.idx, s.idx, if s.helper then d - 1 else d);
        assert (End(c.idx, x), s.idx) in g.edges;
      }
    } else if s.idx == START && s.idx in SuccessorsAt(g, c.idx, if s.helper then d - 1 else d) {
      var x := SuccessorHop(g, c.idx, s.idx, if s.helper then d - 1 else d);
      assert false;
    }
  }

  /** A move that is not waiting extends the walk and its alignment by the byte. */
  lemma MoveAligns(g: Graph, cfg: Config, c: State, t: State, prev: bv8, b: bv8, o: nat, p: seq<nat>, s: seq<bv8>)
      returns (q: seq<nat>)
    requires Holder(g) && Moves(g, cfg, c, t, prev, b) && !(t.idx == START_DS && t.level == 0)
    requires Walk(g, o, p) && End(o, p) == c.idx && Aligned(g, cfg.hamming, o, p, s, c.level)
    ensures Walk(g, o, q) && End(o, q) == t.idx && Aligned(g, cfg.hamming, o, q, s + [b], t.level)
  {
    hide Holder, Moves, Aligned, Walk, Hop, Reads, SuccessorsAt;
    assert g.Valid() by { HolderIsValid(g); }
    var d := MoveCosts(g, cfg, c, t, prev, b);
    if t.helper && t.idx == c.idx {
      q := p;
      assert !cfg.hamming && d > 0 by { StayingIsInsertion(g, cfg, c.idx, d); }
      Insert(g, o, p, s, b, c.level);
      MoreEdits(g, false, o, p, s + [b], c.level + 1, t.level);
    } else {
      MoveTargets(g, cfg, c, t, prev, b, d);
      if t.helper {
        var x := SuccessorHop(g, c.idx, t.idx, d - 1);
        q := HopAligns(g, cfg.hamming, o, p, x, t.idx, s, c.level);
        Replace(g, cfg.hamming, o, p + x, t.idx, s, b, c.level + |x|);
      } else if t.idx == c.idx && g.Edge(c.idx, c.idx) && d == 0 {
        q := p + [t.idx];
        LoopOn(g, o, p);
        Keep(g, cfg.hamming, o, p, t.idx, s, b, c.level);
      } else {
        var x := SuccessorHop(g, c.idx, t.idx, d);
        q := HopAligns(g, cfg.hamming, o, p, x, t.idx, s, c.level);
        Keep(g, cfg.hamming, o, p + x, t.idx, s, b, c.level + |x|);
      }
    }
  }

  lemma HolderIsValid(g: Graph)
    requires Holder(g)
    ensures g.Valid()
  {
  }

  lemma StayingIsInsertion(g: Graph, cfg: Config, u: nat, d: nat)
    requires g.Valid() && u in Helpers(g, cfg, u, d)
    ensures !cfg.hamming && d > 0
  {
    if cfg.hamming {
      var x := SuccessorHop(g, u, u, d - 1);
    }
  }

  lemma LoopOn(g: Graph, o: nat, p: seq<nat>)
    requires Walk(g, o, p) && g.Edge(End(o, p), End(o, p)) && !IsSpecial(End(o, p))
    ensures Walk(g, o, p + [End(o, p)])
  {
    assert (p + [End(o, p)])[..|p|] == p;
  }

  lemma HopAligns(g: Graph, hamming: bool, o: nat, p: seq<nat>, x: seq<nat>, v: nat, s: seq<bv8>, k: nat)
      returns (q: seq<nat>)
    requires Walk(g, o, p) && Hop(g, End(o, p), x, v) && !IsSpecial(v) && (hamming ==> x == [])
    requires Aligned(g, hamming, o, p, s, k)
    ensures q == p + x + [v] && Walk(g, o, q) && End(o, q) == v && Aligned(g, hamming, o, p + x, s, k + |x|)
    ensures End(o, p + x) != v
  {
    hide Aligned;
    WalkOn(g, o, p, x, v);
    q := p + x + [v];
    if hamming {
      assert p + x == p;
    } else {
      LeaveOut(g, o, p, x, s, k);
    }
  }

  /** Where a stretch of the input may start that a walk from o is laid against. */
  ghost predicate Origin(g: Graph, o: nat, a: nat) {
    IsAnyStart(o) && (o == START ==> a == 0) && (o == START_DS ==> AllowStartDs(g))
  }

  /** The start reported for input[a..i]: a, but for an empty stretch the byte before it. */
  function StartOf(a: nat, i: nat): nat { if a == i && i > 0 then i - 1 else a }

  lemma {:induction false} LevelsWithin(g: Graph, cfg: Config, input: seq<bv8>, run: seq<State>)
    requires g.Valid() && IsRun(g, cfg, input, run)
    ensures |run| > 0 && run[|run| - 1].level <= cfg.dist
  {
    hide Shadows, Helpers, Enters;
    if |run| > 1 {
      var k := |run| - 2;
      var d := MoveCosts(g, cfg, run[k], run[k + 1], Prev(input, k), input[k]);
    }
  }

  /** The state that a run ends in has a walk that reads the input from where the run left its start, with its edits. */
  lemma {:induction false} RunAligns(g: Graph, cfg: Config, input: seq<bv8>, run: seq<State>)
      returns (o: nat, a: nat, p: seq<nat>)
    requires Holder(g) && IsRun(g, cfg, input, run)
    ensures 0 < |run| <= |input| + 1
    ensures var i, c := |run| - 1, run[|run| - 1];
            && Origin(g, o, a) && a <= i && Walk(g, o, p) && End(o, p) == c.idx
            && Aligned(g, cfg.hamming, o, p, input[a..i], c.level)
            && (Waits(c) <==> a == i)
            && (g.virtualStarts == {} ==> RunSom(g, run) == StartOf(a, i))
    decreases |run|
  {
    hide Moves, AllowStartDs, Holder;
    assert g.Valid() by { HolderIsValid(g); }
    RunFits(g, cfg, input, run);
    var i, c := |run| - 1, run[|run| - 1];
    if i == 0 {
      o, a, p := c.idx, 0, [];
      assert input[0..0] == [];
    } else {
      var b, before := input[i - 1], run[i - 1];
      assert run[..i][i - 1] == before;
      o, a, p := RunAligns(g, cfg, input, run[..i]);
      if c.idx == START_DS && c.level == 0 {
        o, a, p := START_DS, i, [];
        assert input[i..i] == [];
        WaitsBefore(g, cfg, before, c, Prev(input, i - 1), b);
      } else {
        assert input[a..i] == input[a..i - 1] + [b];
        p := MoveAligns(g, cfg, before, c, Prev(input, i - 1), b, o, p, input[a..i - 1]);
        NoReturn(g, cfg, before, c, Prev(input, i - 1), b);
      }
    }
  }

  lemma WaitsBefore(g: Graph, cfg: Config, c: State, s: State, prev: bv8, cur: bv8)
    requires Holder(g) && Moves(g, cfg, c, s, prev, cur) && s.idx == START_DS && s.level == 0
    ensures Waits(c) && AllowStartDs(g)
  {
    hide AllowStartDs, CanReach;
    var d := MoveCosts(g, cfg, c, s, prev, cur);
    if !(s.helper && s.idx == c.idx) {
      MoveTargets(g, cfg, c, s, prev, cur, d);
    }
  }

  lemma NoReturn(g: Graph, cfg: Config, c: State, s: State, prev: bv8, cur: bv8)
    requires Holder(g) && Moves(g, cfg, c, s, prev, cur) && !(s.idx == START_DS && s.level == 0)
    ensures !Waits(s)
  {
    hide AllowStartDs, CanReach;
    var d := MoveCosts(g, cfg, c, s, prev, cur);
    if s.helper && s.idx == c.idx {
      StayingIsInsertion(g, cfg, c.idx, d);
    } else {
      MoveTargets(g, cfg, c, s, prev, cur, d);
    }
  }

  // ----- an alignment has a run

  /** Edges from u through the ordinary vertices x to v, self-loops included. */
  ghost predicate Path(g: Graph, u: nat, x: seq<nat>, v: nat) {
    if x == [] then g.Edge(u, v)
    else
      var y := x[|x| - 1];
      !IsSpecial(y) && g.Edge(y, v) && Path(g, u, x[..|x| - 1], y)
  }

  /** Without its self-loops a path is a hop, or all of it is a self-loop. */
  lemma {:induction false} Shorten(g: Graph, u: nat, x: seq<nat>, v: nat) returns (d: nat)
    requires g.Valid() && Path(g, u, x, v)
    ensures d <= |x|
    ensures (u == v && g.Edge(u, u)) || v in SuccessorsAt(g, u, d)
    decreases |x|
  {
    if x == [] {
      d := 0;
      if u != v {
        HopSuccessor(g, u, [], v);
      }
    } else {
      var y := x[|x| - 1];
      d := Shorten(g, u, x[..|x| - 1], y);
      if y != v {
        if u == y && g.Edge(u, u) {
          d := 0;
          HopSuccessor(g, u, [], v);
        } else {
          d := d + 1;
          assert (y, v) in g.edges && (y, v).0 == y && (y, v).1 == v;
        }
      }
    }
  }

  /** What is left of a walk after its first q vertices. */
  lemma {:induction false} RestOfWalk(g: Graph, o: nat, p: seq<nat>, q: nat, v: nat)
    requires Walk(g, o, p) && q <= |p| && g.Edge(End(o, p), v)
    ensures Path(g, End(o, p[..q]), p[q..], v)
    decreases |p| - q
  {
    if q == |p| {
      assert p[..q] == p;
    } else {
      var n := |p| - 1;
      assert p[..n][..q] == p[..q] && p[q..][..|p[q..]| - 1] == p[..n][q..];
      RestOfWalk(g, o, p[..n], q, p[n]);
    }
  }

  /** One more byte for a run that stands at u with the rest x of its walk to v still to come. */
  lemma KeepMove(g: Graph, cfg: Config, c: State, x: seq<nat>, v: nat, prev: bv8, b: bv8) returns (t: State)
    requires Holder(g) && Plain(g) && Path(g, c.idx, x, v) && !IsSpecial(v) && Reads(g, v, b)
    requires c.level + |x| <= cfg.dist && (cfg.hamming ==> x == [])
    ensures Moves(g, cfg, c, t, prev, b) && t.idx == v && t.level <= c.level + |x|
  {
    hide AllowStartDs, SuccessorsAt;
    var d := Shorten(g, c.idx, x, v);
    if c.idx == v && g.Edge(v, v) {
      d := 0;
    }
    t := State(v, c.level + d, false);
    assert v in Shadows(g, cfg, c.idx, d);
    assert t in Successors(g, cfg, c);
    assert g.Edge(c.idx, v) ==> (c.idx, v) in g.edges && g.Flags(c.idx, v) == 0;
  }

  lemma InsertMove(g: Graph, cfg: Config, c: State, prev: bv8, b: bv8) returns (t: State)
    requires g.Valid() && !cfg.hamming && c.level < cfg.dist && !IsAnyAccept(c.idx)
    requires AllowStartDs(g) || c.idx != START_DS
    ensures t == State(c.idx, c.level + 1, true) && Moves(g, cfg, c, t, prev, b)
  {
    hide AllowStartDs, SuccessorsAt;
    t := State(c.idx, c.level + 1, true);
    assert c.idx in Helpers(g, cfg, c.idx, 1);
  }

  lemma ReplaceMove(g: Graph, cfg: Config, c: State, x: seq<nat>, v: nat, prev: bv8, b: bv8) returns (t: State)
    requires Holder(g) && Path(g, c.idx, x, v) && !IsSpecial(v) && v !in g.virtualStarts && !IsAnyAccept(c.idx)
    requires c.level + |x| < cfg.dist && (cfg.hamming ==> x == [] && c.idx != v)
    ensures Moves(g, cfg, c, t, prev, b) && t.idx == v && t.level <= c.level + |x| + 1 && t.level > c.level
  {
    hide AllowStartDs, SuccessorsAt;
    var d := Shorten(g, c.idx, x, v);
    if c.idx == v && g.Edge(v, v) {
      if cfg.hamming {
        assert false;
      }
      t := InsertMove(g, cfg, c, prev, b);
    } else {
      t := State(v, c.level + d + 1, true);
      assert v in Helpers(g, cfg, c.idx, d + 1);
      assert t in Successors(g, cfg, c);
    }
  }

  function Waiting(o: nat, i: nat): seq<State> { seq(i + 1, _ => State(o, 0, false)) }

  /** A run may wait in startDs over any bytes. */
  lemma {:induction false} WaitingRuns(g: Graph, cfg: Config, input: seq<bv8>, o: nat, i: nat)
    requires Holder(g) && Plain(g) && Origin(g, o, i) && i <= |input|
    ensures IsRun(g, cfg, input, Waiting(o, i)) && RunSom(g, Waiting(o, i)) == StartOf(i, i)
  {
    hide AllowStartDs, Plain, SuccessorsAt;
    if i > 0 {
      WaitingRuns(g, cfg, input, o, i - 1);
      assert Waiting(o, i)[..i] == Waiting(o, i - 1);
      var c := State(o, 0, false);
      assert START_DS in Shadows(g, cfg, START_DS, 0);
      assert c == State(START_DS, 0 + 0, false) && c in Successors(g, cfg, c);
      assert g.Flags(START_DS, START_DS) == 0 by { NoFlags(g, START_DS, START_DS); }
      assert Moves(g, cfg, c, c, Prev(input, i - 1), input[i - 1]);
    }
  }

  lemma NoFlags(g: Graph, u: nat, v: nat)
    requires Plain(g) && g.Edge(u, v)
    ensures g.Flags(u, v) == 0
  {
    assert (u, v) in g.edges && (u, v).0 == u && (u, v).1 == v;
  }

  /** The run has read input[..i] and stands behind the first q vertices of p; k edits allow for dropping the rest. */
  ghost predicate Stands(g: Graph, cfg: Config, input: seq<bv8>, o: nat, a: nat, i: nat, p: seq<nat>, k: nat,
                         run: seq<State>, q: nat)
    requires g.Valid()
  {
    && IsRun(g, cfg, input, run) && |run| == i + 1 && q <= |p| && run[i].idx == End(o, p[..q])
    && run[i].level + (|p| - q) <= k && (cfg.hamming ==> q == |p|)
    && (Waits(run[i]) <==> a == i)
    && (g.virtualStarts == {} ==> RunSom(g, run) == StartOf(a, i))
  }

  lemma {:induction false} WalkVertex(g: Graph, o: nat, p: seq<nat>, q: nat)
    requires Walk(g, o, p) && q <= |p|
    ensures Walk(g, o, p[..q]) && (if q == 0 then End(o, p[..q]) == o else !IsSpecial(End(o, p[..q])))
    decreases |p| - q
  {
    if q < |p| {
      assert p[..|p| - 1][..q] == p[..q];
      WalkVertex(g, o, p[..|p| - 1], q);
    } else {
      assert p[..q] == p;
    }
  }

  /** A further move that is not waiting. */
  lemma RunOn(g: Graph, cfg: Config, input: seq<bv8>, o: nat, a: nat, i: nat, p: seq<nat>, k: nat, run: seq<State>,
              q: nat, t: State, p2: seq<nat>, k2: nat, q2: nat)
    requires g.Valid() && a < i <= |input| && Stands(g, cfg, input, o, a, i - 1, p, k, run, q)
    requires Moves(g, cfg, run[i - 1], t, Prev(input, i - 1), input[i - 1]) && !Waits(t)
    requires q2 <= |p2| && t.idx == End(o, p2[..q2]) && t.level + (|p2| - q2) <= k2 && (cfg.hamming ==> q2 == |p2|)
    ensures Stands(g, cfg, input, o, a, i, p2, k2, run + [t], q2)
  {
    hide Moves;
    var all := run + [t];
    assert all[..|all| - 1] == run && all[i - 1] == run[i - 1] && all[i] == t;
  }

  lemma {:induction false} AlignedRuns(g: Graph, cfg: Config, input: seq<bv8>, o: nat, a: nat, i: nat, p: seq<nat>,
                                       k: nat) returns (run: seq<State>, q: nat)
    requires Holder(g) && Plain(g) && a <= i <= |input| && k <= cfg.dist
    requires Origin(g, o, a) && Walk(g, o, p) && Aligned(g, cfg.hamming, o, p, input[a..i], k)
    ensures Stands(g, cfg, input, o, a, i, p, k, run, q)
    decreases |p| + (i - a)
  {
    hide Holder, Plain, Moves, Stands, Reads, AllowStartDs;
    assert g.Valid() by { HolderIsValid(g); }
    var s, n := input[a..i], |p| - 1;
    if p == [] && s == [] {
      WaitingRuns(g, cfg, input, o, i);
      run, q := Waiting(o, i), 0;
      StandsWaiting(g, cfg, input, o, i, k);
    } else if !cfg.hamming && p != [] && k > 0 && Aligned(g, cfg.hamming, o, p[..n], s, k - 1) {
      run, q := AlignedRuns(g, cfg, input, o, a, i, p[..n], k - 1);
      StandsLonger(g, cfg, input, o, a, i, p, k, run, q);
    } else {
      assert s[..|s| - 1] == input[a..i - 1] && s[|s| - 1] == input[i - 1];
      var b, prev := input[i - 1], Prev(input, i - 1);
      if p != [] && Reads(g, p[n], b) && Aligned(g, cfg.hamming, o, p[..n], s[..|s| - 1], k) {
        run, q := AlignedRuns(g, cfg, input, o, a, i - 1, p[..n], k);
        run, q := KeepOn(g, cfg, input, o, a, i, p, k, run, q);
      } else if p != [] && k > 0 && Replaceable(g, cfg.hamming, End(o, p[..n]), p[n]) &&
                Aligned(g, cfg.hamming, o, p[..n], s[..|s| - 1], k - 1) {
        run, q := AlignedRuns(g, cfg, input, o, a, i - 1, p[..n], k - 1);
        run, q := ReplaceOn(g, cfg, input, o, a, i, p, k, run, q);
      } else {
        run, q := AlignedRuns(g, cfg, input, o, a, i - 1, p, k - 1);
        run, q := InsertOn(g, cfg, input, o, a, i, p, k, run, q);
      }
    }
  }

  lemma StandsWaiting(g: Graph, cfg: Config, input: seq<bv8>, o: nat, i: nat, k: nat)
    requires g.Valid() && IsAnyStart(o)
    requires IsRun(g, cfg, input, Waiting(o, i)) && RunSom(g, Waiting(o, i)) == StartOf(i, i)
    ensures Stands(g, cfg, input, o, i, i, [], k, Waiting(o, i), 0)
  {
    hide IsRun;
  }

  lemma StandsLonger(g: Graph, cfg: Config, input: seq<bv8>, o: nat, a: nat, i: nat, p: seq<nat>, k: nat,
                     run: seq<State>, q: nat)
    requires g.Valid() && p != [] && k > 0 && !cfg.hamming
    requires Stands(g, cfg, input, o, a, i, p[..|p| - 1], k - 1, run, q)
    ensures Stands(g, cfg, input, o, a, i, p, k, run, q)
  {
    hide IsRun;
    assert p[..|p| - 1][..q] == p[..q];
  }

  lemma KeepOn(g: Graph, cfg: Config, input: seq<bv8>, o: nat, a: nat, i: nat, p: seq<nat>, k: nat, run: seq<State>,
               q: nat) returns (more: seq<State>, r: nat)
    requires Holder(g) && Plain(g) && a < i <= |input| && k <= cfg.dist && IsAnyStart(o) && Walk(g, o, p) && p != []
    requires Stands(g, cfg, input, o, a, i - 1, p[..|p| - 1], k, run, q) && Reads(g, p[|p| - 1], input[i - 1])
    ensures Stands(g, cfg, input, o, a, i, p, k, more, r)
  {
    hide Holder, Plain, Moves, Reads, IsRun;
    assert g.Valid() by { HolderIsValid(g); }
    var n := |p| - 1;
    var c, x := run[i - 1], p[..n][q..];
    RestOfWalk(g, o, p[..n], q, p[n]);
    var t := KeepMove(g, cfg, c, x, p[n], Prev(input, i - 1), input[i - 1]);
    assert p[..|p|] == p;
    RunOn(g, cfg, input, o, a, i, p[..n], k, run, q, t, p, k, |p|);
    more, r := run + [t], |p|;
  }

  lemma ReplaceOn(g: Graph, cfg: Config, input: seq<bv8>, o: nat, a: nat, i: nat, p: seq<nat>, k: nat, run: seq<State>,
                  q: nat) returns (more: seq<State>, r: nat)
    requires Holder(g) && a < i <= |input| && 0 < k <= cfg.dist && IsAnyStart(o) && Walk(g, o, p) && p != []
    requires Stands(g, cfg, input, o, a, i - 1, p[..|p| - 1], k - 1, run, q)
    requires Replaceable(g, cfg.hamming, End(o, p[..|p| - 1]), p[|p| - 1])
    ensures Stands(g, cfg, input, o, a, i, p, k, more, r)
  {
    hide Holder, Moves, IsRun;
    assert g.Valid() by { HolderIsValid(g); }
    var n := |p| - 1;
    var c, x := run[i - 1], p[..n][q..];
    RestOfWalk(g, o, p[..n], q, p[n]);
    WalkVertex(g, o, p[..n], q);
    assert q == n ==> p[..n][..q] == p[..n];
    var t := ReplaceMove(g, cfg, c, x, p[n], Prev(input, i - 1), input[i - 1]);
    assert p[..|p|] == p;
    RunOn(g, cfg, input, o, a, i, p[..n], k - 1, run, q, t, p, k, |p|);
    more, r := run + [t], |p|;
  }

  lemma InsertOn(g: Graph, cfg: Config, input: seq<bv8>, o: nat, a: nat, i: nat, p: seq<nat>, k: nat, run: seq<State>,
                 q: nat) returns (more: seq<State>, r: nat)
    requires g.Valid() && a < i <= |input| && 0 < k <= cfg.dist && Origin(g, o, a) && Walk(g, o, p) && !cfg.hamming
    requires Stands(g, cfg, input, o, a, i - 1, p, k - 1, run, q)
    ensures Stands(g, cfg, input, o, a, i, p, k, more, r)
  {
    hide Moves, IsRun, AllowStartDs;
    WalkVertex(g, o, p, q);
    var t := InsertMove(g, cfg, run[i - 1], Prev(input, i - 1), input[i - 1]);
    RunOn(g, cfg, input, o, a, i, p, k - 1, run, q, t, p, k, q);
    more, r := run + [t], q;
  }

  // ----- reports

  /** Vertex v leads to an accept and has a report whose end, after i bytes, is e. */
  ghost predicate Raises(g: Graph, i: nat, v: nat, target: nat, e: nat) {
    v < |g.adjusts| && g.Edge(v, target) && exists adj :: adj in g.adjusts[v] && EndOf(i, adj) == e
  }

  ghost predicate RaisesHere(g: Graph, notEod: bool, input: seq<bv8>, i: nat, v: nat, e: nat) {
    Raises(g, i, v, ACCEPT, e) || (i == |input| && !notEod && Raises(g, i, v, ACCEPT_EOD, e))
  }

  lemma {:induction false} HopFirst(g: Graph, u: nat, x: seq<nat>, v: nat)
    requires x != [] && Hop(g, u, x, v)
    ensures g.Edge(u, x[0]) && u != x[0] && Hop(g, x[0], x[1..], v)
    decreases |x|
  {
    if |x| > 1 {
      var n := |x| - 1;
      HopFirst(g, u, x[..n], x[n]);
      assert x[..n][1..] == x[1..][..|x[1..]| - 1];
    } else {
      assert x[..0] == [] && x[1..] == [];
    }
  }

  lemma {:induction false} HopPredecessor(g: Graph, u: nat, x: seq<nat>, v: nat)
    requires g.Valid() && Hop(g, u, x, v)
    ensures u in PredecessorsAt(g, v, |x|)
    decreases |x|
  {
    if x == [] {
      assert (u, v) in g.edges && (u, v).0 == u && (u, v).1 == v;
    } else {
      HopFirst(g, u, x, v);
      HopPredecessor(g, x[0], x[1..], v);
      assert (u, x[0]) in g.edges && (u, x[0]).0 == u && (u, x[0]).1 == x[0];
    }
  }

  /** The reports of the end of a walk are raised from where the run stands. */
  lemma WalkAccepts(g: Graph, cfg: Config, c: State, o: nat, p: seq<nat>, q: nat, target: nat)
    requires Holder(g) && IsAnyStart(o) && Walk(g, o, p) && q <= |p| && c.idx == End(o, p[..q])
    requires c.level + (|p| - q) <= cfg.dist && (cfg.hamming ==> q == |p|)
    requires IsAnyAccept(target) && g.Edge(End(o, p), target)
    ensures Accepts(g, cfg, c, target)
  {
    hide SuccessorsAt;
    RestOfWalk(g, o, p, q, target);
    WalkVertex(g, o, p, q);
    var d := Shorten(g, c.idx, p[q..], target);
    assert target in Shadows(g, cfg, c.idx, d);
  }

  lemma WalkAdjusts(g: Graph, cfg: Config, c: State, o: nat, p: seq<nat>, q: nat, target: nat, adj: int)
    requires Holder(g) && IsAnyStart(o) && Walk(g, o, p) && q <= |p| && c.idx == End(o, p[..q])
    requires c.level + (|p| - q) <= cfg.dist && (cfg.hamming ==> q == |p|)
    requires IsAnyAccept(target) && g.Edge(End(o, p), target) && End(o, p) < |g.adjusts| && adj in g.adjusts[End(o, p)]
    ensures adj in Adjustments(g, cfg, c.idx, c.level, target)
  {
    hide SuccessorsAt, PredecessorsAt, Walk;
    var v := End(o, p);
    WalkVertex(g, o, p, |p|);
    assert p[..|p|] == p;
    if c.idx != v {
      var n := |p| - 1;
      assert q < |p|;
      assert p[..n][..q] == p[..q];
      LastStep(g, o, p);
      RestOfWalk(g, o, p[..n], q, v);
      var d := Shorten(g, c.idx, p[..n][q..], v);
      var x := SuccessorHop(g, c.idx, v, d);
      HopPredecessor(g, c.idx, x, v);
      AdjustsThrough(g, cfg, c.idx, c.level, v, target, d, adj);
    }
  }

  lemma LastStep(g: Graph, o: nat, p: seq<nat>)
    requires Walk(g, o, p) && p != []
    ensures Walk(g, o, p[..|p| - 1]) && g.Edge(End(o, p[..|p| - 1]), p[|p| - 1])
  {
  }

  lemma AdjustsThrough(g: Graph, cfg: Config, u: nat, level: nat, v: nat, target: nat, pd: nat, adj: int)
    requires g.Valid() && !cfg.hamming && level + pd < cfg.dist && u in PredecessorsAt(g, v, pd) && v != ACCEPT
    requires g.Edge(v, target) && v < |g.adjusts| && adj in g.adjusts[v]
    ensures adj in Adjustments(g, cfg, u, level, target)
  {
    hide PredecessorsAt;
    var e := (v, target);
    assert e in g.edges && e.1 == target && e.0 == v && u in PredecessorsAt(g, e.0, pd);
  }

  /** A run that stands so reports what the end of its walk raises. */
  lemma StandingReports(g: Graph, cfg: Config, notEod: bool, input: seq<bv8>, o: nat, a: nat, i: nat, p: seq<nat>,
                        run: seq<State>, q: nat, e: nat)
    requires Holder(g) && Plain(g) && IsAnyStart(o) && i <= |input| && Walk(g, o, p)
    requires Stands(g, cfg, input, o, a, i, p, cfg.dist, run, q) && RaisesHere(g, notEod, input, i, End(o, p), e)
    ensures StateReports(g, cfg, false, notEod, input, i, run[i], e)
  {
    hide IsRun, Walk, Accepts, Adjustments, EndOf, Holder, Plain;
    assert g.Valid() by { HolderIsValid(g); }
    var target := if Raises(g, i, End(o, p), ACCEPT, e) then ACCEPT else ACCEPT_EOD;
    var adj :| adj in g.adjusts[End(o, p)] && EndOf(i, adj) == e;
    WalkAccepts(g, cfg, run[i], o, p, q, target);
    WalkAdjusts(g, cfg, run[i], o, p, q, target, adj);
    if g.Edge(run[i].idx, target) {
      NoFlags(g, run[i].idx, target);
    }
  }

  /** Edges from u through y to v without self-loops, whatever the vertices. */
  ghost predicate Chain(g: Graph, u: nat, y: seq<nat>, v: nat)
    decreases |y|
  {
    if y == [] then g.Edge(u, v) && u != v
    else g.Edge(u, y[0]) && u != y[0] && Chain(g, y[0], y[1..], v)
  }

  lemma {:induction false} PredecessorChain(g: Graph, u: nat, v: nat, d: nat) returns (y: seq<nat>)
    requires g.Valid() && u in PredecessorsAt(g, v, d)
    ensures |y| == d && Chain(g, u, y, v)
    decreases d
  {
    if d == 0 {
      y := [];
    } else {
      var e :| e in g.edges && e.1 in PredecessorsAt(g, v, d - 1) && e.0 != e.1 && e.0 == u;
      var rest := PredecessorChain(g, e.1, v, d - 1);
      y := [e.1] + rest;
      assert y[1..] == rest && e == (u, e.1);
    }
  }

  /** In a holder, a vertex that a chain goes on from is ordinary unless it is startDs behind start. */
  lemma OrdinaryStep(g: Graph, u: nat, v: nat, w: nat)
    requires Holder(g) && g.Edge(u, v) && u != v && g.Edge(v, w) && w != ACCEPT_EOD
    ensures !IsSpecial(v) || (u == START && v == START_DS)
  {
    assert (u, v) in g.edges && (v, w) in g.edges;
  }

  lemma OrdinaryEnd(g: Graph, u: nat, v: nat, target: nat)
    requires Holder(g) && g.Edge(u, v) && u != v && g.Edge(v, target) && v != ACCEPT
    ensures !IsSpecial(v) || (u == START && v == START_DS)
  {
    assert (u, v) in g.edges && (v, target) in g.edges;
  }

  lemma NoWayOn(g: Graph, u: nat, y: seq<nat>, v: nat, target: nat)
    requires Holder(g) && Chain(g, u, y, v) && g.Edge(v, target)
    ensures u != ACCEPT_EOD && (if y == [] then v else y[0]) != ACCEPT_EOD
  {
    if y == [] {
      assert (u, v) in g.edges && (v, target) in g.edges;
    } else {
      var w := if |y| == 1 then v else y[1];
      assert (u, y[0]) in g.edges;
      assert g.Edge(y[0], w) && (y[0], w) in g.edges;
    }
  }

  lemma {:induction false} ChainWalk(g: Graph, o: nat, p: seq<nat>, y: seq<nat>, v: nat, target: nat)
    requires Holder(g) && Walk(g, o, p) && Chain(g, End(o, p), y, v) && g.Edge(v, target) && v != ACCEPT
    requires End(o, p) == START ==> (if y == [] then v else y[0]) != START_DS
    ensures Walk(g, o, p + y + [v])
    decreases |y|
  {
    hide Holder;
    if y == [] {
      OrdinaryEnd(g, End(o, p), v, target);
      assert p + y + [v] == p + [v] && (p + [v])[..|p|] == p;
    } else {
      var w := if |y| == 1 then v else y[1];
      NoWayOn(g, y[0], y[1..], v, target);
      OrdinaryStep(g, End(o, p), y[0], w);
      assert (p + [y[0]])[..|p|] == p;
      assert p + y + [v] == (p + [y[0]]) + y[1..] + [v];
      ChainWalk(g, o, p + [y[0]], y[1..], v, target);
    }
  }

  lemma {:induction false} AnyOrigin(g: Graph, hamming: bool, o: nat, r: nat, s: seq<bv8>, k: nat)
    requires Aligned(g, hamming, o, [], s, k)
    ensures Aligned(g, hamming, r, [], s, k)
    decreases |s|
  {
    if s != [] {
      AnyOrigin(g, hamming, o, r, s[..|s| - 1], k - 1);
    }
  }

  /** What a state raises, it raises for a walk within the edits allowed. */
  lemma ReportAligns(g: Graph, cfg: Config, c: State, o: nat, a: nat, p: seq<nat>, s: seq<bv8>, target: nat, i: nat,
                     adj: int) returns (r: nat, q: seq<nat>)
    requires Holder(g) && Origin(g, o, a) && Walk(g, o, p) && End(o, p) == c.idx && c.level <= cfg.dist
    requires Aligned(g, cfg.hamming, o, p, s, c.level) && IsAnyAccept(target)
    requires adj in Adjustments(g, cfg, c.idx, c.level, target)
    ensures Origin(g, r, a) && Walk(g, r, q) && Aligned(g, cfg.hamming, r, q, s, cfg.dist)
    ensures End(r, q) < |g.adjusts| && g.Edge(End(r, q), target) && adj in g.adjusts[End(r, q)]
  {
    hide Aligned, Walk, PredecessorsAt, AllowStartDs;
    if g.Edge(c.idx, target) && c.idx < g.n && adj in g.adjusts[c.idx] {
      r, q := o, p;
      MoreEdits(g, cfg.hamming, o, p, s, c.level, cfg.dist);
    } else {
      var e, pd :| e in g.edges && e.1 == target && !(target == ACCEPT_EOD && e.0 == ACCEPT) &&
        0 <= pd < (if cfg.hamming then 0 else cfg.dist) && c.level < cfg.dist - pd &&
        c.idx in PredecessorsAt(g, e.0, pd) && adj in g.adjusts[e.0];
      var y := PredecessorChain(g, c.idx, e.0, pd);
      assert e == (e.0, target) && e.0 != ACCEPT;
      var first := if y == [] then e.0 else y[0];
      if c.idx == START && first == START_DS {
        r, q := ThroughStartDs(g, o, p, y, e.0, target, s, c.level);
        MoreEdits(g, false, r, q, s, c.level + pd, cfg.dist);
      } else {
        ChainWalk(g, o, p, y, e.0, target);
        LeaveOut(g, o, p, y + [e.0], s, c.level);
        assert p + (y + [e.0]) == p + y + [e.0];
        r, q := o, p + y + [e.0];
        MoreEdits(g, false, r, q, s, c.level + pd + 1, cfg.dist);
      }
    }
  }

  /** From start by way of startDs is from startDs. */
  lemma ThroughStartDs(g: Graph, o: nat, p: seq<nat>, y: seq<nat>, v: nat, target: nat, s: seq<bv8>, k: nat)
      returns (r: nat, q: seq<nat>)
    requires Holder(g) && IsAnyStart(o) && Walk(g, o, p) && End(o, p) == START && Aligned(g, false, o, p, s, k)
    requires Chain(g, START, y, v) && (if y == [] then v else y[0]) == START_DS && g.Edge(v, target) && v != ACCEPT
    requires IsAnyAccept(target)
    ensures r == START_DS && AllowStartDs(g) && Walk(g, r, q) && End(r, q) == v
    ensures Aligned(g, false, r, q, s, k + |y|)
  {
    hide Aligned, AllowStartDs, Holder, Walk, Chain;
    r := START_DS;
    StillAtStart(g, o, p);
    AnyOrigin(g, false, o, r, s, k);
    var next := PastStartDs(g, y, v, target);
    LeavesStartDs(g, next);
    NoStep(g, r);
    if y == [] {
      q := [];
    } else {
      q := [] + y[1..] + [v];
      assert [] + q == q;
      ChainWalk(g, r, [], y[1..], v, target);
      LeaveOut(g, r, [], q, s, k);
    }
  }

  lemma StillAtStart(g: Graph, o: nat, p: seq<nat>)
    requires Walk(g, o, p) && End(o, p) == START
    ensures p == []
  {
  }

  lemma NoStep(g: Graph, o: nat)
    ensures Walk(g, o, [])
  {
  }

  lemma PastStartDs(g: Graph, y: seq<nat>, v: nat, target: nat) returns (next: nat)
    requires Chain(g, START, y, v) && (if y == [] then v else y[0]) == START_DS && g.Edge(v, target)
    requires IsAnyAccept(target)
    ensures g.Edge(START_DS, next) && next != START_DS && (y != [] ==> Chain(g, START_DS, y[1..], v))
  {
    next := if y == [] then target else if |y| == 1 then v else y[1];
  }

  lemma LeavesStartDs(g: Graph, v: nat)
    requires g.Edge(START_DS, v) && v != START_DS
    ensures AllowStartDs(g)
  {
    assert (START_DS, v) in g.edges && (START_DS, v).0 == START_DS && (START_DS, v).1 == v;
  }

  // ----- the theorems

  /**
   The stretch input[a..i] is, up to the edits allowed, read by the walk p from o, which may
   start there and whose end raises a match that ends at e.
   */
  ghost predicate Fuzzy(g: Graph, cfg: Config, notEod: bool, input: seq<bv8>, o: nat, a: nat, i: nat, p: seq<nat>,
                        e: nat)
  {
    && IsAnyStart(o) && (o == START ==> a == 0) && a <= i <= |input| && Walk(g, o, p)
    && Aligned(g, cfg.hamming, o, p, input[a..i], cfg.dist) && RaisesHere(g, notEod, input, i, End(o, p), e)
  }

  /** Every run that reports is such a stretch; with assertions in the graph too. */
  lemma SpanIsFuzzy(g: Graph, cfg: Config, notEod: bool, input: seq<bv8>, run: seq<State>, b: nat, e: nat)
      returns (o: nat, a: nat, i: nat, p: seq<nat>)
    requires Holder(g) && Spans(g, cfg, false, notEod, input, run, b, e)
    ensures Fuzzy(g, cfg, notEod, input, o, a, i, p, e)
    ensures g.virtualStarts == {} ==> StartOf(a, i) == b
  {
    hide Holder, IsRun, Aligned, Walk, Adjustments, Accepts, EndOf, CanReach, AllowStartDs;
    assert g.Valid() by { HolderIsValid(g); }
    o, a, p := RunAligns(g, cfg, input, run);
    LevelsWithin(g, cfg, input, run);
    i := |run| - 1;
    var c := run[i];
    var cur: bv8 := if i < |input| then input[i] else 0;
    var target := if ReportsEnd(g, cfg, false, c, i, Prev(input, i), cur, ACCEPT, e) then ACCEPT else ACCEPT_EOD;
    assert ReportsEnd(g, cfg, false, c, i, Prev(input, i), cur, target, e);
    var adj :| adj in Adjustments(g, cfg, c.idx, c.level, target) && EndOf(i, adj) == e;
    o, p := ReportAligns(g, cfg, c, o, a, p, input[a..i], target, i, adj);
    assert Raises(g, i, End(o, p), target, e);
  }

  lemma FuzzyIsSpan(g: Graph, cfg: Config, notEod: bool, input: seq<bv8>, o: nat, a: nat, i: nat, p: seq<nat>, e: nat)
      returns (run: seq<State>, b: nat)
    requires Holder(g) && Plain(g) && Fuzzy(g, cfg, notEod, input, o, a, i, p, e)
    ensures Spans(g, cfg, false, notEod, input, run, b, e)
    ensures g.virtualStarts == {} ==> b == StartOf(a, i)
  {
    hide Holder, Plain, IsRun, Aligned, Walk, AllowStartDs, StateReports, Raises;
    assert g.Valid() by { HolderIsValid(g); }
    assert Origin(g, o, a) by { StartIsAllowed(g, notEod, input, o, i, p, e); }
    var q;
    run, q := AlignedRuns(g, cfg, input, o, a, i, p, cfg.dist);
    StandingReports(g, cfg, notEod, input, o, a, i, p, run, q, e);
    b := RunSom(g, run);
  }

  lemma StartIsAllowed(g: Graph, notEod: bool, input: seq<bv8>, o: nat, i: nat, p: seq<nat>, e: nat)
    requires o == START_DS ==> Walk(g, o, p) && RaisesHere(g, notEod, input, i, End(o, p), e)
    ensures o == START_DS ==> AllowStartDs(g)
  {
    hide AllowStartDs;
    if o == START_DS {
      if p == [] {
        LeavesStartDs(g, if Raises(g, i, o, ACCEPT, e) then ACCEPT else ACCEPT_EOD);
      } else {
        WalkVertex(g, o, p, 1);
        assert p[..1][..0] == [];
        LeavesStartDs(g, p[0]);
      }
    }
  }

  /** Some stretch for which the match (b, e) is raised. */
  ghost predicate Matched(g: Graph, cfg: Config, notEod: bool, input: seq<bv8>, b: nat, e: nat) {
    exists o, a: nat, i: nat, p :: Fuzzy(g, cfg, notEod, input, o, a, i, p, e) && StartOf(a, i) == b
  }

  /**
   With virtual starts or without, an end is reported exactly when some stretch that ends there is within the
   edits allowed of a walk that raises it.
   */
  lemma FuzzyEnds(g: Graph, cfg: Config, notEod: bool, input: seq<bv8>, e: nat)
    requires Holder(g) && Plain(g)
    ensures (exists b: nat :: (b, e) in RawMatches(g, cfg, false, notEod, input)) <==>
            exists o, a: nat, i: nat, p :: Fuzzy(g, cfg, notEod, input, o, a, i, p, e)
  {
    hide Plain, RawMatches, Spans, Fuzzy;
    if b: nat :| (b, e) in RawMatches(g, cfg, false, notEod, input) {
      var run := MatchHasRun(g, cfg, false, notEod, input, (b, e));
      var o, a, i, p := SpanIsFuzzy(g, cfg, notEod, input, run, b, e);
    }
    if o, a: nat, i: nat, p :| Fuzzy(g, cfg, notEod, input, o, a, i, p, e) {
      var run, b := FuzzyIsSpan(g, cfg, notEod, input, o, a, i, p, e);
      var c := SpanIsMatched(g, cfg, false, notEod, input, run, b, e);
    }
  }

  /**
   findMatches with a distance returns (b, e) exactly when b is the least start of the
   stretches within that distance of a walk that raises e, and lies below 2^32.
   */
  lemma ApproximateMatching(g: Graph, cfg: Config, notEod: bool, input: seq<bv8>, b: nat, e: nat)
    requires Holder(g) && Plain(g) && g.virtualStarts == {}
    ensures (b, e) in Filtered(RawMatches(g, cfg, false, notEod, input)) <==>
            && b < TWO32 && Matched(g, cfg, notEod, input, b, e)
            && forall c: nat :: Matched(g, cfg, notEod, input, c, e) ==> b <= c
  {
    hide Plain, RawMatches, Filtered, Spans, Matched;
    FindMatchesIsExact(g, cfg, false, notEod, input, b, e);
    MatchedIsSpanned(g, cfg, notEod, input, b, e);
    if LeastStartOf(g, cfg, false, notEod, input, b, e) {
      forall c: nat | Matched(g, cfg, notEod, input, c, e) ensures b <= c {
        MatchedIsSpanned(g, cfg, notEod, input, c, e);
        var run :| Spans(g, cfg, false, notEod, input, run, c, e);
      }
    }
    if forall c: nat :: Matched(g, cfg, notEod, input, c, e) ==> b <= c {
      forall run, c: nat | Spans(g, cfg, false, notEod, input, run, c, e) ensures b <= c {
        MatchedIsSpanned(g, cfg, notEod, input, c, e);
      }
    }
  }

  lemma MatchedIsSpanned(g: Graph, cfg: Config, notEod: bool, input: seq<bv8>, b: nat, e: nat)
    requires Holder(g) && Plain(g) && g.virtualStarts == {}
    ensures Matched(g, cfg, notEod, input, b, e) <==> exists run :: Spans(g, cfg, false, notEod, input, run, b, e)
  {
    hide Plain, Spans, Fuzzy;
    if run :| Spans(g, cfg, false, notEod, input, run, b, e) {
      var o, a, i, p := SpanIsFuzzy(g, cfg, notEod, input, run, b, e);
    }
    if o, a: nat, i: nat, p :| Fuzzy(g, cfg, notEod, input, o, a, i, p, e) && StartOf(a, i) == b {
      var run, c := FuzzyIsSpan(g, cfg, notEod, input, o, a, i, p, e);
    }
  }
}
