/** What findMatches computes, in terms of runs of the graph, and how it depends on the edit bound. */
module FindMatchesTheorems {
  import opened Common
  import opened FindMatches
  import opened FindMatchesScan

  // ----- runs

  /** A run over the first |run| - 1 bytes of the input. */
  ghost predicate IsRun(g: Graph, cfg: Config, input: seq<bv8>, run: seq<State>)
    requires g.Valid()
  {
    if |run| <= 1 then |run| == 1 && run[0] in Initial(g)
    else
      var k := |run| - 2;
      && k < |input| && IsRun(g, cfg, input, run[..k + 1])
      && Moves(g, cfg, run[k], run[k + 1], Prev(input, k), input[k])
  }

  lemma RunFits(g: Graph, cfg: Config, input: seq<bv8>, run: seq<State>)
    requires g.Valid() && IsRun(g, cfg, input, run)
    ensures 0 < |run| <= |input| + 1
  {
  }

  /** The offset at which the run last left a start vertex. */
  ghost function RunSom(g: Graph, run: seq<State>): nat
  {
    if |run| <= 1 then 0
    else if Restarts(g, run[|run| - 2]) then |run| - 2
    else RunSom(g, run[..|run| - 1])
  }

  /** The state a run ends in is active, with a start no later than the run's. */
  lemma {:induction false} RunIsTracked(g: Graph, cfg: Config, input: seq<bv8>, run: seq<State>)
    requires g.Valid() && IsRun(g, cfg, input, run)
    ensures 0 < |run| <= |input| + 1
    ensures var last := run[|run| - 1];
            var states := StatesAt(g, cfg, input, |run| - 1);
            last in states && states[last] <= RunSom(g, run)
  {
    hide Moves, StepMap;
    if |run| > 1 {
      RunIsTracked(g, cfg, input, run[..|run| - 1]);
    }
  }

  lemma Carrier(g: Graph, cfg: Config, states: States, offset: nat, prev: bv8, cur: bv8, next: States, s: State)
    returns (c: State)
    requires g.Valid() && s in next && StepOf(g, cfg, states, states.Keys, offset, prev, cur, next)
    ensures c in states && Moves(g, cfg, c, s, prev, cur) && next[s] == NextSom(g, c, states[c], offset)
  {
    c :| c in states.Keys && CarriedBy(g, cfg, states, c, offset, prev, cur, next, s);
  }

  /** Every active state ends some run whose start is exactly the tracked one. */
  lemma {:induction false} StateHasRun(g: Graph, cfg: Config, input: seq<bv8>, i: nat, s: State)
    returns (run: seq<State>)
    requires g.Valid() && i <= |input| && s in StatesAt(g, cfg, input, i)
    ensures IsRun(g, cfg, input, run) && |run| == i + 1 && run[i] == s
    ensures RunSom(g, run) == StatesAt(g, cfg, input, i)[s]
  {
    hide Moves, StepMap, StepOf;
    if i == 0 {
      run := [s];
    } else {
      var before, after := StatesAt(g, cfg, input, i - 1), StatesAt(g, cfg, input, i);
      var c := Carrier(g, cfg, before, i - 1, Prev(input, i - 1), input[i - 1], after, s);
      var init := StateHasRun(g, cfg, input, i - 1, c);
      run := init + [s];
      assert run[..|run| - 1] == init;
    }
  }

  /** The last state of the run reports a match that ends at e. */
  ghost predicate RunReports(g: Graph, cfg: Config, utf8: bool, notEod: bool, input: seq<bv8>, run: seq<State>, e: nat)
    requires g.Valid() && IsRun(g, cfg, input, run)
  {
    StateReports(g, cfg, utf8, notEod, input, |run| - 1, run[|run| - 1], e)
  }

  ghost predicate StateReports(g: Graph, cfg: Config, utf8: bool, notEod: bool, input: seq<bv8>, i: nat, c: State,
                               e: nat)
    requires g.Valid() && i <= |input|
  {
    if i < |input| then ReportsEnd(g, cfg, utf8, c, i, Prev(input, i), input[i], ACCEPT, e)
    else ReportsEnd(g, cfg, utf8, c, i, Prev(input, i), 0, ACCEPT, e) ||
         (!notEod && ReportsEnd(g, cfg, utf8, c, i, Prev(input, i), 0, ACCEPT_EOD, e))
  }

  ghost predicate ReportsEnd(g: Graph, cfg: Config, utf8: bool, c: State, offset: nat,
                             prev: bv8, cur: bv8, target: nat, e: nat)
    requires g.Valid()
  {
    && Reports(g, cfg, utf8, c, prev, cur, target)
    && exists a :: a in Adjustments(g, cfg, c.idx, c.level, target) && EndOf(offset, a) == e
  }

  lemma InAcceptMatches(g: Graph, cfg: Config, utf8: bool, states: States, offset: nat,
                        prev: bv8, cur: bv8, target: nat, m: (nat, nat))
    requires g.Valid()
    ensures m in AcceptMatches(g, cfg, utf8, states, offset, prev, cur, target) <==>
            exists c :: c in states && states[c] == m.0 && ReportsEnd(g, cfg, utf8, c, offset, prev, cur, target, m.1)
  {
    hide Reports, Adjustments;
    if c :| c in states && states[c] == m.0 && ReportsEnd(g, cfg, utf8, c, offset, prev, cur, target, m.1) {
      var a :| a in Adjustments(g, cfg, c.idx, c.level, target) && EndOf(offset, a) == m.1;
      assert (states[c], EndOf(offset, a)) == m;
    }
  }

  lemma InMatchesAt(g: Graph, cfg: Config, utf8: bool, notEod: bool, input: seq<bv8>, i: nat, m: (nat, nat))
    requires g.Valid() && i <= |input|
    ensures m in MatchesAt(g, cfg, utf8, notEod, input, i) <==>
            exists c :: c in StatesAt(g, cfg, input, i) && StatesAt(g, cfg, input, i)[c] == m.0 &&
                        StateReports(g, cfg, utf8, notEod, input, i, c, m.1)
  {
    hide StatesAt, AcceptMatches, ReportsEnd;
    var states, prev := StatesAt(g, cfg, input, i), Prev(input, i);
    if i < |input| {
      InAcceptMatches(g, cfg, utf8, states, i, prev, input[i], ACCEPT, m);
      if m in MatchesAt(g, cfg, utf8, notEod, input, i) {
        var c :| c in states && states[c] == m.0 && ReportsEnd(g, cfg, utf8, c, i, prev, input[i], ACCEPT, m.1);
        assert StateReports(g, cfg, utf8, notEod, input, i, c, m.1);
      }
    } else {
      InAcceptMatches(g, cfg, utf8, states, i, prev, 0, ACCEPT, m);
      InAcceptMatches(g, cfg, utf8, states, i, prev, 0, ACCEPT_EOD, m);
      if m in AcceptMatches(g, cfg, utf8, states, i, prev, 0, ACCEPT) {
        var c :| c in states && states[c] == m.0 && ReportsEnd(g, cfg, utf8, c, i, prev, 0, ACCEPT, m.1);
        assert StateReports(g, cfg, utf8, notEod, input, i, c, m.1);
      } else if !notEod && m in AcceptMatches(g, cfg, utf8, states, i, prev, 0, ACCEPT_EOD) {
        var c :| c in states && states[c] == m.0 && ReportsEnd(g, cfg, utf8, c, i, prev, 0, ACCEPT_EOD, m.1);
        assert StateReports(g, cfg, utf8, notEod, input, i, c, m.1);
      }
    }
  }

  lemma {:induction false} InMatchesBefore(g: Graph, cfg: Config, utf8: bool, notEod: bool, input: seq<bv8>,
                                           m: (nat, nat), j: nat)
    requires g.Valid() && j <= |input| + 1
    ensures m in MatchesBefore(g, cfg, utf8, notEod, input, j) <==>
            exists i :: 0 <= i < j && m in MatchesAt(g, cfg, utf8, notEod, input, i)
  {
    hide MatchesAt;
    if j > 0 {
      InMatchesBefore(g, cfg, utf8, notEod, input, m, j - 1);
    }
  }

  /** A run that reports e puts some match at e, starting no later than the run does, in the raw set. */
  lemma SpanIsMatched(g: Graph, cfg: Config, utf8: bool, notEod: bool, input: seq<bv8>, run: seq<State>, b: nat, e: nat)
    returns (a: nat)
    requires g.Valid() && Spans(g, cfg, utf8, notEod, input, run, b, e)
    ensures a <= b && (a, e) in RawMatches(g, cfg, utf8, notEod, input)
  {
    hide StatesAt, StateReports, MatchesAt, MatchesBefore;
    RunIsTracked(g, cfg, input, run);
    var i := |run| - 1;
    a := StatesAt(g, cfg, input, i)[run[i]];
    InMatchesBefore(g, cfg, utf8, notEod, input, (a, e), |input| + 1);
    InMatchesAt(g, cfg, utf8, notEod, input, i, (a, e));
  }

  /** Every raw match is the start and reported end of some run. */
  lemma MatchHasRun(g: Graph, cfg: Config, utf8: bool, notEod: bool, input: seq<bv8>, m: (nat, nat))
    returns (run: seq<State>)
    requires g.Valid() && m in RawMatches(g, cfg, utf8, notEod, input)
    ensures Spans(g, cfg, utf8, notEod, input, run, m.0, m.1)
  {
    hide StatesAt, StateReports, MatchesAt, MatchesBefore, IsRun, RunSom;
    InMatchesBefore(g, cfg, utf8, notEod, input, m, |input| + 1);
    var i: nat :| i <= |input| && m in MatchesAt(g, cfg, utf8, notEod, input, i);
    InMatchesAt(g, cfg, utf8, notEod, input, i, m);
    var states := StatesAt(g, cfg, input, i);
    var c :| c in states && states[c] == m.0 && StateReports(g, cfg, utf8, notEod, input, i, c, m.1);
    run := StateHasRun(g, cfg, input, i, c);
  }

  // ----- what findMatches returns

  /** Some run over a prefix of the input starts at a and reports e. */
  ghost predicate Spans(g: Graph, cfg: Config, utf8: bool, notEod: bool, input: seq<bv8>, run: seq<State>, a: nat,
                        e: nat)
    requires g.Valid()
  {
    IsRun(g, cfg, input, run) && RunReports(g, cfg, utf8, notEod, input, run, e) && RunSom(g, run) == a
  }

  /** a is the start of some run that reports e, and no run that reports e starts earlier. */
  ghost predicate LeastStartOf(g: Graph, cfg: Config, utf8: bool, notEod: bool, input: seq<bv8>, a: nat, e: nat)
    requires g.Valid()
  {
    && (exists run :: Spans(g, cfg, utf8, notEod, input, run, a, e))
    && (forall run, b: nat :: Spans(g, cfg, utf8, notEod, input, run, b, e) ==> a <= b)
  }

  lemma FilterKeepsLeast(matches: MatchSet, a: nat, e: nat)
    ensures (a, e) in Filtered(matches) <==>
            (a, e) in matches && a < TWO32 && forall m :: m in matches && m.1 == e ==> a <= m.0
  {
    var starts := {TWO32 - 1} + set m | m in matches && m.1 == e :: m.0;
    var cut := CutOff(matches, e);
    if (a, e) in matches {
      assert (a, e).0 in starts;
    }
    forall m | m in matches && m.1 == e
      ensures cut <= m.0
    {
      assert m.0 in starts;
    }
  }

  /**
   findMatches returns (a, e) exactly when a is the least start of the runs
   that report e - provided that start is below 2^32, where the filter's
   starting cut-off lies. An end whose least start is beyond it is lost.
   */
  lemma FindMatchesIsExact(g: Graph, cfg: Config, utf8: bool, notEod: bool, input: seq<bv8>, a: nat, e: nat)
    requires g.Valid()
    ensures (a, e) in Filtered(RawMatches(g, cfg, utf8, notEod, input)) <==>
            a < TWO32 && LeastStartOf(g, cfg, utf8, notEod, input, a, e)
  {
    hide RawMatches, Filtered, Spans;
    var raw := RawMatches(g, cfg, utf8, notEod, input);
    FilterKeepsLeast(raw, a, e);
    forall run, b: nat | Spans(g, cfg, utf8, notEod, input, run, b, e)
      ensures exists m :: m in raw && m.1 == e && m.0 <= b
    {
      var c := SpanIsMatched(g, cfg, utf8, notEod, input, run, b, e);
      assert (c, e) in raw;
    }
    forall m | m in raw && m.1 == e
      ensures exists run :: Spans(g, cfg, utf8, notEod, input, run, m.0, e)
    {
      var run := MatchHasRun(g, cfg, utf8, notEod, input, m);
    }
    if LeastStartOf(g, cfg, utf8, notEod, input, a, e) {
      var run :| Spans(g, cfg, utf8, notEod, input, run, a, e);
      var m :| m in raw && m.1 == e && m.0 <= a;
      assert m == (a, e);
    }
  }

  /** Starts lie inside the input, so nothing is lost on inputs of at most 2^32 bytes. */
  lemma {:induction false} RunStartsInside(g: Graph, cfg: Config, input: seq<bv8>, run: seq<State>)
    requires g.Valid() && IsRun(g, cfg, input, run)
    ensures RunSom(g, run) == 0 || RunSom(g, run) < |input|
  {
    if |run| > 1 {
      RunStartsInside(g, cfg, input, run[..|run| - 1]);
    }
  }

  lemma FindMatchesIsExactOnShortInput(g: Graph, cfg: Config, utf8: bool, notEod: bool, input: seq<bv8>, a: nat, e: nat)
    requires g.Valid() && |input| <= TWO32
    ensures (a, e) in Filtered(RawMatches(g, cfg, utf8, notEod, input)) <==>
            LeastStartOf(g, cfg, utf8, notEod, input, a, e)
  {
    hide RawMatches, Filtered, RunReports;
    FindMatchesIsExact(g, cfg, utf8, notEod, input, a, e);
    if run :| Spans(g, cfg, utf8, notEod, input, run, a, e) {
      RunStartsInside(g, cfg, input, run);
    }
  }

  // ----- exact matching is plain runs of the graph

  /** With no edits allowed, a state moves along an edge to a vertex that reads the byte. */
  lemma ZeroDistanceMoves(g: Graph, c: State, s: State, prev: bv8, cur: bv8)
    requires g.Valid() && c.level == 0
    ensures Moves(g, Config(false, 0), c, s, prev, cur) <==>
            && s.level == 0 && !s.helper && g.Edge(c.idx, s.idx) && !IsAnyAccept(s.idx)
            && (AllowStartDs(g) || s.idx != START_DS)
            && cur in g.reach[s.idx] && CanReach(g.Flags(c.idx, s.idx), prev, cur)
  {
    hide CanReach, AllowStartDs;
    var cfg := Config(false, 0);
    DirectSuccessors(g, cfg, c.idx);
    assert Helpers(g, cfg, c.idx, 0) == {};
    if s.level == 0 && !s.helper && g.Edge(c.idx, s.idx) {
      assert s.idx in Shadows(g, cfg, c.idx, 0);
      assert s == State(s.idx, 0 + 0, false);
    }
  }

  lemma DirectSuccessors(g: Graph, cfg: Config, u: nat)
    requires g.Valid()
    ensures forall v :: v in Shadows(g, cfg, u, 0) <==> g.Edge(u, v)
  {
    forall v
      ensures v in Shadows(g, cfg, u, 0) <==> g.Edge(u, v)
    {
      if g.Edge(u, v) && u != v {
        assert (u, v) in g.edges && (u, v).0 == u && (u, v).1 == v;
        assert v in SuccessorsAt(g, u, 0);
      }
    }
  }

  /** ... and reports from a vertex with an edge to accept, with that vertex's own reports. */
  lemma ZeroDistanceReports(g: Graph, utf8: bool, c: State, prev: bv8, cur: bv8, target: nat)
    requires g.Valid() && c.level == 0
    ensures Reports(g, Config(false, 0), utf8, c, prev, cur, target) <==>
            && g.Edge(c.idx, target) && CanReach(g.Flags(c.idx, target), prev, cur)
            && !(utf8 && c.idx == START_DS && !IsUtf8CodePoint(cur))
    ensures g.Edge(c.idx, target) && !(target == ACCEPT_EOD && c.idx == ACCEPT) ==>
            Adjustments(g, Config(false, 0), c.idx, 0, target) == g.adjusts[c.idx]
  {
    hide CanReach;
    DirectSuccessors(g, Config(false, 0), c.idx);
    if g.Edge(c.idx, target) {
      assert target in Shadows(g, Config(false, 0), c.idx, 0);
    }
  }

  /** A walk of the graph that reads the first |p| - 1 bytes of the input. */
  ghost predicate IsPath(g: Graph, input: seq<bv8>, p: seq<nat>)
    requires g.Valid()
  {
    if |p| <= 1 then |p| == 1 && (p[0] == START || (AllowStartDs(g) && p[0] == START_DS))
    else
      var k := |p| - 2;
      && k < |input| && IsPath(g, input, p[..k + 1])
      && g.Edge(p[k], p[k + 1]) && !IsAnyAccept(p[k + 1]) && (AllowStartDs(g) || p[k + 1] != START_DS)
      && input[k] in g.reach[p[k + 1]] && CanReach(g.Flags(p[k], p[k + 1]), Prev(input, k), input[k])
  }

  /** The offset at which the walk last left a start vertex. */
  ghost function PathSom(g: Graph, p: seq<nat>): nat {
    if |p| <= 1 then 0
    else if IsAnyStart(p[|p| - 2]) || p[|p| - 2] in g.virtualStarts then |p| - 2
    else PathSom(g, p[..|p| - 1])
  }

  /** Vertex v may report a match ending at e when i bytes have been read. */
  ghost predicate VertexReports(g: Graph, utf8: bool, notEod: bool, input: seq<bv8>, i: nat, v: nat, e: nat)
    requires g.Valid() && i <= |input|
  {
    var cur: bv8 := if i < |input| then input[i] else 0;
    && !(utf8 && v == START_DS && !IsUtf8CodePoint(cur))
    && (ReportsThrough(g, i, v, Prev(input, i), cur, ACCEPT, e) ||
        (i == |input| && !notEod && v != ACCEPT && ReportsThrough(g, i, v, Prev(input, i), cur, ACCEPT_EOD, e)))
  }

  ghost predicate ReportsThrough(g: Graph, i: nat, v: nat, prev: bv8, cur: bv8, target: nat, e: nat)
    requires g.Valid()
  {
    && g.Edge(v, target) && CanReach(g.Flags(v, target), prev, cur)
    && exists a :: a in g.adjusts[v] && EndOf(i, a) == e
  }

  function Lift(p: seq<nat>): seq<State> {
    seq(|p|, i requires 0 <= i < |p| => State(p[i], 0, false))
  }

  ghost function Vertices(run: seq<State>): seq<nat> {
    seq(|run|, i requires 0 <= i < |run| => run[i].idx)
  }

  /** Walks of the graph are the runs without edits, with the same starts. */
  lemma {:induction false} PathIsRun(g: Graph, input: seq<bv8>, p: seq<nat>)
    requires g.Valid()
    ensures IsPath(g, input, p) <==> IsRun(g, Config(false, 0), input, Lift(p))
    ensures PathSom(g, p) == RunSom(g, Lift(p))
  {
    hide Moves, AllowStartDs, CanReach;
    if |p| > 1 {
      var k := |p| - 2;
      assert Lift(p)[..k + 1] == Lift(p[..k + 1]);
      PathIsRun(g, input, p[..k + 1]);
      if k < |input| {
        ZeroDistanceMoves(g, Lift(p)[k], Lift(p)[k + 1], Prev(input, k), input[k]);
      }
    }
  }

  lemma {:induction false} RunIsPath(g: Graph, input: seq<bv8>, run: seq<State>)
    requires g.Valid() && IsRun(g, Config(false, 0), input, run)
    ensures run == Lift(Vertices(run))
  {
    hide Moves, AllowStartDs;
    if |run| > 1 {
      var k := |run| - 2;
      RunIsPath(g, input, run[..k + 1]);
      assert run[k] == run[..k + 1][k] == Lift(Vertices(run[..k + 1]))[k];
      ZeroDistanceMoves(g, run[k], run[k + 1], Prev(input, k), input[k]);
      assert forall i :: 0 <= i <= k ==> run[i] == run[..k + 1][i] == State(run[..k + 1][i].idx, 0, false);
    }
  }

  lemma ZeroDistanceStateReports(g: Graph, utf8: bool, notEod: bool, input: seq<bv8>, i: nat, v: nat, e: nat)
    requires g.Valid() && i <= |input|
    ensures StateReports(g, Config(false, 0), utf8, notEod, input, i, State(v, 0, false), e) <==>
            VertexReports(g, utf8, notEod, input, i, v, e)
  {
    hide Reports, Adjustments, CanReach, IsUtf8CodePoint, EndOf;
    var cur: bv8 := if i < |input| then input[i] else 0;
    var c := State(v, 0, false);
    ZeroDistanceReports(g, utf8, c, Prev(input, i), cur, ACCEPT);
    ZeroDistanceReports(g, utf8, c, Prev(input, i), cur, ACCEPT_EOD);
    NoEodReportsOfAccept(g);
  }

  lemma NoEodReportsOfAccept(g: Graph)
    requires g.Valid()
    ensures Adjustments(g, Config(false, 0), ACCEPT, 0, ACCEPT_EOD) == {}
  {
    hide PredecessorsAt;
  }

  /** A walk that starts at a and reports e. */
  ghost predicate Walks(g: Graph, utf8: bool, notEod: bool, input: seq<bv8>, p: seq<nat>, a: nat, e: nat)
    requires g.Valid()
  {
    && IsPath(g, input, p) && 0 < |p| <= |input| + 1
    && VertexReports(g, utf8, notEod, input, |p| - 1, p[|p| - 1], e) && PathSom(g, p) == a
  }

  lemma WalksAreSpans(g: Graph, utf8: bool, notEod: bool, input: seq<bv8>, p: seq<nat>, a: nat, e: nat)
    requires g.Valid()
    ensures Walks(g, utf8, notEod, input, p, a, e) <==> Spans(g, Config(false, 0), utf8, notEod, input, Lift(p), a, e)
  {
    hide StateReports, VertexReports;
    PathIsRun(g, input, p);
    if IsPath(g, input, p) {
      RunFits(g, Config(false, 0), input, Lift(p));
      ZeroDistanceStateReports(g, utf8, notEod, input, |p| - 1, p[|p| - 1], e);
    }
  }

  /**
   Exact matching: findMatches returns (a, e) exactly when some walk of the
   graph reports e and a is the least offset at which such a walk last left a
   start vertex, and that offset is below 2^32.
   */
  lemma ExactMatching(g: Graph, utf8: bool, notEod: bool, input: seq<bv8>, a: nat, e: nat)
    requires g.Valid()
    ensures (a, e) in Filtered(RawMatches(g, Config(false, 0), utf8, notEod, input)) <==>
            && a < TWO32
            && (exists p :: Walks(g, utf8, notEod, input, p, a, e))
            && (forall p, b: nat :: Walks(g, utf8, notEod, input, p, b, e) ==> a <= b)
  {
    hide RawMatches, Filtered, Walks, Spans;
    FindMatchesIsExact(g, Config(false, 0), utf8, notEod, input, a, e);
    forall p, b: nat | Walks(g, utf8, notEod, input, p, b, e)
      ensures exists run :: Spans(g, Config(false, 0), utf8, notEod, input, run, b, e)
    {
      WalksAreSpans(g, utf8, notEod, input, p, b, e);
    }
    forall run, b: nat | Spans(g, Config(false, 0), utf8, notEod, input, run, b, e)
      ensures exists p :: Walks(g, utf8, notEod, input, p, b, e)
    {
      SpanIsLifted(g, utf8, notEod, input, run, b, e);
      WalksAreSpans(g, utf8, notEod, input, Vertices(run), b, e);
    }
  }

  // ----- a match whose start lies past the cut-off

  /** Anything, then the byte 1: one vertex after startDs, which reports where it stands. */
  function LateGraph(): Graph {
    Graph(5, {(START_DS, START_DS), (START_DS, 4), (4, ACCEPT)}, map[], [{}, {0}, {}, {}, {1}], {},
        [{}, {}, {}, {}, {0}])
  }

  function LateInput(n: nat): seq<bv8> { seq(n, _ => 0) + [1] }

  lemma {:induction false} WaitingPath(n: nat, k: nat)
    requires k <= n
    ensures LateGraph().Valid() && AllowStartDs(LateGraph())
    ensures IsPath(LateGraph(), LateInput(n), seq(k + 1, _ => START_DS))
  {
    var g, p := LateGraph(), seq(k + 1, _ => START_DS);
    assert (START_DS, 4) in g.edges && (START_DS, 4).0 == START_DS && (START_DS, 4).1 != START_DS;
    if k > 0 {
      WaitingPath(n, k - 1);
      assert p[..k] == seq(k, _ => START_DS);
      assert LateInput(n)[k - 1] == 0;
    }
  }

  /** A walk over n zeros and a one that reports the end and starts at `a`. */
  ghost predicate LateWalk(n: nat, p: seq<nat>, a: nat) {
    LateGraph().Valid() && Walks(LateGraph(), false, true, LateInput(n), p, a, n + 1)
  }

  lemma LateWalkExists(n: nat)
    requires n + 1 < TWO64
    ensures exists p :: LateWalk(n, p, n)
  {
    var g, input := LateGraph(), LateInput(n);
    WaitingPath(n, n);
    var wait := seq(n + 1, _ => START_DS);
    var p := wait + [4];
    assert p[..n + 1] == wait && p[n] == START_DS && p[n + 1] == 4 && input[n] == 1;
    assert IsPath(g, input, p);
    assert 0 in g.adjusts[4] && EndOf(n + 1, 0) == n + 1;
    assert LateWalk(n, p, n);
  }

  /** The match starts at n and nowhere else. */
  lemma LateWalkStart(n: nat, p: seq<nat>, a: nat)
    requires n + 1 < TWO64 && LateWalk(n, p, a)
    ensures a == n
  {
    var g := LateGraph();
    assert p[|p| - 1] == 4 && g.adjusts[4] == {0};
    assert |p| - 1 == n + 1;
    assert g.Edge(p[n], p[n + 1]);
  }

  /** With 2^32 zeros the match is there, and findMatches returns nothing for its end. */
  lemma LateMatchIsLost(a: nat)
    ensures LateGraph().Valid() && exists p :: LateWalk(TWO32, p, TWO32)
    ensures (a, TWO32 + 1) !in Filtered(RawMatches(LateGraph(), Config(false, 0), false, true, LateInput(TWO32)))
  {
    hide Filtered, RawMatches, Walks;
    LateWalkExists(TWO32);
    var g, input, end := LateGraph(), LateInput(TWO32), TWO32 + 1;
    ExactMatching(g, false, true, input, a, end);
    forall p | Walks(g, false, true, input, p, a, end) ensures a == TWO32 {
      assert LateWalk(TWO32, p, a);
      LateWalkStart(TWO32, p, a);
    }
  }

  lemma SpanIsLifted(g: Graph, utf8: bool, notEod: bool, input: seq<bv8>, run: seq<State>, a: nat, e: nat)
    requires g.Valid() && Spans(g, Config(false, 0), utf8, notEod, input, run, a, e)
    ensures run == Lift(Vertices(run))
  {
    RunIsPath(g, input, run);
  }

  // ----- raising the bound

  /** cfg allows one more edit than cfg0 (from no edits, of either kind). */
  ghost predicate OneMore(cfg0: Config, cfg: Config) {
    cfg.dist == cfg0.dist + 1 && (cfg.hamming == cfg0.hamming || cfg0.dist == 0)
  }

  lemma MoreEditsKeepMoves(g: Graph, cfg0: Config, cfg: Config, c: State, s: State, prev: bv8, cur: bv8)
    requires g.Valid() && OneMore(cfg0, cfg) && Moves(g, cfg0, c, s, prev, cur)
    ensures Moves(g, cfg, c, s, prev, cur)
  {
    hide Enters, SuccessorsAt, CanTransitionToHelper;
    if s.helper {
      var d :| 0 <= d <= cfg0.dist - c.level && s.idx in Helpers(g, cfg0, c.idx, d) && s.level == c.level + d;
      assert s.idx in Helpers(g, cfg, c.idx, d);
      assert s == State(s.idx, c.level + d, true);
    } else {
      var d :| 0 <= d <= cfg0.dist - c.level && s.idx in Shadows(g, cfg0, c.idx, d) && s.level == c.level + d;
      assert s.idx in Shadows(g, cfg, c.idx, d);
      assert s == State(s.idx, c.level + d, false);
    }
  }

  /** Every state stays active, with a start no later. */
  lemma {:induction false} MoreEditsKeepStates(g: Graph, cfg0: Config, cfg: Config, input: seq<bv8>, i: nat)
    requires g.Valid() && OneMore(cfg0, cfg) && i <= |input|
    ensures forall s :: s in StatesAt(g, cfg0, input, i) ==>
              s in StatesAt(g, cfg, input, i) && StatesAt(g, cfg, input, i)[s] <= StatesAt(g, cfg0, input, i)[s]
  {
    hide Moves, StepMap;
    if i > 0 {
      MoreEditsKeepStates(g, cfg0, cfg, input, i - 1);
      var few, many := StatesAt(g, cfg0, input, i - 1), StatesAt(g, cfg, input, i - 1);
      var few', many' := StatesAt(g, cfg0, input, i), StatesAt(g, cfg, input, i);
      var prev, cur := Prev(input, i - 1), input[i - 1];
      forall s | s in few'
        ensures s in many' && many'[s] <= few'[s]
      {
        var c :| c in few.Keys && CarriedBy(g, cfg0, few, c, i - 1, prev, cur, few', s);
        MoreEditsKeepMoves(g, cfg0, cfg, c, s, prev, cur);
        assert many'[s] <= NextSom(g, c, many[c], i - 1);
      }
    }
  }

  lemma MoreEditsKeepReports(g: Graph, cfg0: Config, cfg: Config, utf8: bool, c: State, offset: nat,
                             prev: bv8, cur: bv8, target: nat, e: nat)
    requires g.Valid() && OneMore(cfg0, cfg) && ReportsEnd(g, cfg0, utf8, c, offset, prev, cur, target, e)
    ensures ReportsEnd(g, cfg, utf8, c, offset, prev, cur, target, e)
  {
    hide SuccessorsAt, PredecessorsAt, CanReach, EndOf;
    var d :| 0 <= d <= cfg0.dist - c.level && target in Shadows(g, cfg0, c.idx, d);
    assert target in Shadows(g, cfg, c.idx, d);
    var a :| a in Adjustments(g, cfg0, c.idx, c.level, target) && EndOf(offset, a) == e;
    MoreEditsKeepAdjustments(g, cfg0, cfg, c.idx, c.level, target, a);
  }

  lemma MoreEditsKeepAdjustments(g: Graph, cfg0: Config, cfg: Config, u: nat, level: nat, target: nat, a: int)
    requires g.Valid() && OneMore(cfg0, cfg) && a in Adjustments(g, cfg0, u, level, target)
    ensures a in Adjustments(g, cfg, u, level, target)
  {
    hide PredecessorsAt;
    if !(g.Edge(u, target) && u < g.n && !(target == ACCEPT_EOD && u == ACCEPT) && a in g.adjusts[u]) {
      var e, pd :|
        e in g.edges && e.1 == target && !(target == ACCEPT_EOD && e.0 == ACCEPT) &&
        0 <= pd < (if cfg0.hamming then 0 else cfg0.dist) && level < cfg0.dist - pd &&
        u in PredecessorsAt(g, e.0, pd) && a in g.adjusts[e.0];
      assert 0 <= pd < (if cfg.hamming then 0 else cfg.dist) && level < cfg.dist - pd;
    }
  }

  /** No raw match loses its end, and none can only be had with a later start. */
  lemma MoreEditsKeepRawMatches(g: Graph, cfg0: Config, cfg: Config, utf8: bool, notEod: bool, input: seq<bv8>,
                                m: (nat, nat)) returns (a: nat)
    requires g.Valid() && OneMore(cfg0, cfg) && m in RawMatches(g, cfg0, utf8, notEod, input)
    ensures a <= m.0 && (a, m.1) in RawMatches(g, cfg, utf8, notEod, input)
  {
    hide StatesAt, MatchesAt, MatchesBefore, ReportsEnd;
    InMatchesBefore(g, cfg0, utf8, notEod, input, m, |input| + 1);
    var i: nat :| i <= |input| && m in MatchesAt(g, cfg0, utf8, notEod, input, i);
    InMatchesAt(g, cfg0, utf8, notEod, input, i, m);
    var few, many := StatesAt(g, cfg0, input, i), StatesAt(g, cfg, input, i);
    var c :| c in few && few[c] == m.0 && StateReports(g, cfg0, utf8, notEod, input, i, c, m.1);
    MoreEditsKeepStates(g, cfg0, cfg, input, i);
    a := many[c];
    var prev := Prev(input, i);
    var cur: bv8 := if i < |input| then input[i] else 0;
    if ReportsEnd(g, cfg0, utf8, c, i, prev, cur, ACCEPT, m.1) {
      MoreEditsKeepReports(g, cfg0, cfg, utf8, c, i, prev, cur, ACCEPT, m.1);
    } else {
      MoreEditsKeepReports(g, cfg0, cfg, utf8, c, i, prev, cur, ACCEPT_EOD, m.1);
    }
    assert StateReports(g, cfg, utf8, notEod, input, i, c, m.1);
    InMatchesAt(g, cfg, utf8, notEod, input, i, (a, m.1));
    assert (a, m.1) in MatchesAt(g, cfg, utf8, notEod, input, i);
    InMatchesBefore(g, cfg, utf8, notEod, input, (a, m.1), |input| + 1);
  }

  /** Raising the bound by one never loses an end offset and never moves its start later. */
  lemma MoreEditsKeepMatches(g: Graph, cfg0: Config, cfg: Config, utf8: bool, notEod: bool, input: seq<bv8>, m: (nat,
                             nat))
    returns (a: nat)
    requires g.Valid() && OneMore(cfg0, cfg) && m in Filtered(RawMatches(g, cfg0, utf8, notEod, input))
    ensures a <= m.0 && (a, m.1) in Filtered(RawMatches(g, cfg, utf8, notEod, input))
  {
    hide RawMatches, Filtered;
    var raw := RawMatches(g, cfg, utf8, notEod, input);
    FilterKeepsLeast(RawMatches(g, cfg0, utf8, notEod, input), m.0, m.1);
    assert (m.0, m.1) == m;
    var b := MoreEditsKeepRawMatches(g, cfg0, cfg, utf8, notEod, input, m);
    assert (b, m.1) in raw;
    var starts := set k | k in raw && k.1 == m.1 :: k.0;
    assert (b, m.1).0 in starts;
    a := MinOf(starts);
    var k :| k in raw && k.1 == m.1 && k.0 == a;
    assert k == (a, m.1);
    assert forall l :: l in raw && l.1 == m.1 ==> l.0 in starts;
    FilterKeepsLeast(raw, a, m.1);
  }
}
