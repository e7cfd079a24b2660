/**
 The reference matcher of util/ng_find_matches.cpp: a set-of-states simulation
 of a Glushkov graph that tracks start-of-match offsets and, for approximate
 matching, the number of edits spent.
 */
module FindMatches {
  const START := 0
  const START_DS := 1
  const ACCEPT := 2
  const ACCEPT_EOD := 3
  const N_SPECIALS := 4
  const STATE_COUNT_MAX := 15000
  const WORD_TO_NONWORD: bv32 := 8
  const NONWORD_TO_WORD: bv32 := 16
  const WORD_TO_WORD: bv32 := 32
  const NONWORD_TO_NONWORD: bv32 := 64

  /** NGHolder: vertices are their indices, the four special ones first. */
  datatype Graph = Graph(
    n: nat,
    edges: set<(nat, nat)>,
    asserts: map<(nat, nat), bv32>,
    reach: seq<set<bv8>>,
    virtualStarts: set<nat>,
    adjusts: seq<set<int>>)  // per vertex, the offset adjustments of its reports
  {
    ghost predicate Valid() {
      && n >= N_SPECIALS && |reach| == n && |adjusts| == n
      && forall e :: e in edges ==> e.0 < n && e.1 < n
    }

    predicate Edge(u: nat, v: nat) { (u, v) in edges }

    function Flags(u: nat, v: nat): bv32 {
      if (u, v) in asserts then asserts[(u, v)] else 0
    }
  }

  predicate IsAnyAccept(v: nat) { v == ACCEPT || v == ACCEPT_EOD }
  predicate IsAnyStart(v: nat) { v == START || v == START_DS }
  predicate IsSpecial(v: nat) { v < N_SPECIALS }

  /** Which kind of approximate matching, and its bound. */
  datatype Config = Config(hamming: bool, dist: nat)

  /** An active state: a vertex, the edits spent, and whether it is an edit helper. */
  datatype State = State(idx: nat, level: nat, helper: bool)

  type States = map<State, nat>  // active states and their start-of-match offsets

  // ----- transition tables (GraphCache)

  /** Vertices d+1 non-loop steps from src, never stepping on from a special vertex. */
  function SuccessorsAt(g: Graph, src: nat, d: nat): (r: set<nat>)
    requires g.Valid()
    ensures forall v :: v in r ==> v < g.n
  {
    if d == 0 then set e | e in g.edges && e.0 == src && e.1 != src :: e.1
    else
      var cur := SuccessorsAt(g, src, d - 1);
      set e | e in g.edges && e.0 in cur && !IsSpecial(e.0) && e.0 != e.1 :: e.1
  }

  /** Vertices d+1 non-loop steps before src. */
  function PredecessorsAt(g: Graph, src: nat, d: nat): set<nat>
    requires g.Valid()
  {
    if d == 0 then set e | e in g.edges && e.1 == src && e.0 != src :: e.0
    else
      var cur := PredecessorsAt(g, src, d - 1);
      set e | e in g.edges && e.1 in cur && e.0 != e.1 :: e.0
  }

  predicate CanTransitionToHelper(g: Graph, u: nat, v: nat) {
    && !IsAnyAccept(u) && !IsAnyAccept(v)
    && !(u == START && v == START_DS)
    && v !in g.virtualStarts
  }

  /** shadow_transitions[i][d]: direct transitions (d = 0) and those that drop d vertices. */
  function Shadows(g: Graph, cfg: Config, i: nat, d: nat): set<nat>
    requires g.Valid()
  {
    (if d == 0 && g.Edge(i, i) then {i} else {}) +
    (if cfg.hamming && d > 0 then {}
     else set v | v in SuccessorsAt(g, i, d) && (v != START_DS || d == 0))
  }

  /** helper_transitions[i][d]: insertions and replacements costing d edits. */
  function Helpers(g: Graph, cfg: Config, i: nat, d: nat): set<nat>
    requires g.Valid()
  {
    if d == 0 || d > cfg.dist then {}
    else
      (if !cfg.hamming && !IsAnyAccept(i) then {i} else {}) +
      (if cfg.hamming && d > 1 then {}
       else set v | v in SuccessorsAt(g, i, d - 1) && CanTransitionToHelper(g, i, v))
  }

  /** gatherSuccessorsByDepth. */
  method GatherSuccessorsByDepth(g: Graph, src: nat, depth: nat) returns (result: seq<set<nat>>)
    requires g.Valid() && depth > 0
    ensures |result| == depth && forall d :: 0 <= d < depth ==> result[d] == SuccessorsAt(g, src, d)
  {
    result := [set e | e in g.edges && e.0 == src && e.1 != src :: e.1];
    for d := 1 to depth
      invariant |result| == d && forall k :: 0 <= k < d ==> result[k] == SuccessorsAt(g, src, k)
    {
      var todo, next := g.edges, {};
      var cur := result[d - 1];
      while todo != {}
        invariant todo <= g.edges
        invariant next == set e | e in g.edges - todo && e.0 in cur && !IsSpecial(e.0) && e.0 != e.1 :: e.1
      {
        var e :| e in todo;
        todo := todo - {e};
        if e.0 in cur && !IsSpecial(e.0) && e.0 != e.1 {
          next := next + {e.1};
        }
      }
      assert g.edges - {} == g.edges;
      result := result + [next];
    }
  }

  /** populateTransitionCache, for one vertex. */
  method PopulateTransitions(g: Graph, cfg: Config, i: nat) returns (shadows: seq<set<nat>>, helpers: seq<set<nat>>)
    requires g.Valid()
    ensures |shadows| == |helpers| == cfg.dist + 1
    ensures forall d :: 0 <= d <= cfg.dist ==> shadows[d] == Shadows(g, cfg, i, d)
    ensures forall d :: 0 <= d <= cfg.dist ==> helpers[d] == Helpers(g, cfg, i, d)
  {
    var succs := GatherSuccessorsByDepth(g, i, cfg.dist + 1);
    shadows := seq(cfg.dist + 1, _ => {});
    helpers := seq(cfg.dist + 1, _ => {});
    for d := 0 to cfg.dist + 1
      invariant |shadows| == |helpers| == cfg.dist + 1
      invariant forall k :: 0 <= k < d ==> shadows[k] == Shadows(g, cfg, i, k)
      invariant forall k :: 0 <= k <= cfg.dist ==>
                  helpers[k] == if k <= d then Helpers(g, cfg, i, k) else {}
      invariant forall k :: d <= k <= cfg.dist ==> shadows[k] == {}
    {
      var shadow, helper := {}, {};
      if !cfg.hamming && !IsAnyAccept(i) {
        helper := {i};
      }
      if g.Edge(i, i) && d == 0 {
        shadow := {i};
      }
      if !(cfg.hamming && d > 0) {
        shadow := shadow + set v | v in succs[d] && (v != START_DS || d == 0);
        helper := helper + set v | v in succs[d] && CanTransitionToHelper(g, i, v);
      }
      shadows := shadows[d := shadow];
      if d < cfg.dist {
        helpers := helpers[d + 1 := helper];
      }
    }
  }

  /** The tables of all vertices. */
  datatype GraphCache = GraphCache(shadows: seq<seq<set<nat>>>, helpers: seq<seq<set<nat>>>)

  ghost predicate CachedAt(gc: GraphCache, g: Graph, cfg: Config, i: nat)
    requires g.Valid() && i < |gc.shadows| && i < |gc.helpers|
  {
    && |gc.shadows[i]| == |gc.helpers[i]| == cfg.dist + 1
    && (forall d :: 0 <= d <= cfg.dist ==> gc.shadows[i][d] == Shadows(g, cfg, i, d))
    && (forall d :: 0 <= d <= cfg.dist ==> gc.helpers[i][d] == Helpers(g, cfg, i, d))
  }

  ghost predicate Caches(gc: GraphCache, g: Graph, cfg: Config)
    requires g.Valid()
  {
    |gc.shadows| == |gc.helpers| == g.n && forall i: nat :: i < g.n ==> CachedAt(gc, g, cfg, i)
  }

  /** GraphCache's constructor, for the transitions. */
  method BuildCache(g: Graph, cfg: Config) returns (gc: GraphCache)
    requires g.Valid()
    ensures Caches(gc, g, cfg)
  {
    gc := GraphCache([], []);
    for i := 0 to g.n
      invariant |gc.shadows| == |gc.helpers| == i
      invariant forall k: nat :: k < i ==> CachedAt(gc, g, cfg, k)
    {
      var shadows, helpers := PopulateTransitions(g, cfg, i);
      ghost var old_gc := gc;
      gc := GraphCache(gc.shadows + [shadows], gc.helpers + [helpers]);
      forall k: nat | k < i ensures CachedAt(gc, g, cfg, k) {
        assert CachedAt(old_gc, g, cfg, k);
      }
    }
  }

  // ----- one step

  predicate IsWordChar(c: bv8) {
    (0x41 <= c <= 0x5a) || (0x61 <= c <= 0x7a) || (0x30 <= c <= 0x39) || c == 0x5f
  }

  /** canReach: the word-boundary assertions on an edge. */
  predicate CanReach(flags: bv32, prev: bv8, cur: bv8) {
    || flags == 0
    || (flags & WORD_TO_NONWORD != 0 && IsWordChar(prev) && !IsWordChar(cur))
    || (flags & NONWORD_TO_WORD != 0 && !IsWordChar(prev) && IsWordChar(cur))
    || (flags & WORD_TO_WORD != 0 && IsWordChar(prev) && IsWordChar(cur))
    || (flags & NONWORD_TO_NONWORD != 0 && !IsWordChar(prev) && !IsWordChar(cur))
  }

  /** The two changes together make \b, the other two \B; each flag alone stands for one of the four cases. */
  lemma BoundaryFlags(prev: bv8, cur: bv8)
    ensures CanReach(8 | 16, prev, cur) <==> IsWordChar(prev) != IsWordChar(cur)
    ensures CanReach(32 | 64, prev, cur) <==> IsWordChar(prev) == IsWordChar(cur)
    ensures CanReach(8, prev, cur) <==> IsWordChar(prev) && !IsWordChar(cur)
    ensures CanReach(16, prev, cur) <==> !IsWordChar(prev) && IsWordChar(cur)
    ensures CanReach(32, prev, cur) <==> IsWordChar(prev) && IsWordChar(cur)
    ensures CanReach(0, prev, cur)
  {
    hide IsWordChar;
  }

  /** proper_out_degree(startDs) > 0. */
  predicate AllowStartDs(g: Graph) {
    exists e :: e in g.edges && e.0 == START_DS && e.1 != START_DS
  }

  /** getSuccessors. */
  function Successors(g: Graph, cfg: Config, c: State): set<State>
    requires g.Valid()
  {
    if c.level > cfg.dist then {}
    else
      (set d, v | 0 <= d <= cfg.dist - c.level && v in Shadows(g, cfg, c.idx, d) :: State(v, c.level + d, false)) +
      (set d, v | 0 <= d <= cfg.dist - c.level && v in Helpers(g, cfg, c.idx, d) :: State(v, c.level + d, true))
  }

  /** getSuccessors, out of the tables. */
  function TableSuccessors(gc: GraphCache, cfg: Config, c: State): set<State>
    requires c.idx < |gc.shadows| && c.idx < |gc.helpers|
    requires |gc.shadows[c.idx]| == |gc.helpers[c.idx]| == cfg.dist + 1
  {
    if c.level > cfg.dist then {}
    else
      (set d, v | 0 <= d <= cfg.dist - c.level && v in gc.shadows[c.idx][d] :: State(v, c.level + d, false)) +
      (set d, v | 0 <= d <= cfg.dist - c.level && v in gc.helpers[c.idx][d] :: State(v, c.level + d, true))
  }

  lemma TablesAreRight(g: Graph, cfg: Config, gc: GraphCache, c: State)
    requires g.Valid() && Caches(gc, g, cfg) && c.idx < g.n
    ensures CachedAt(gc, g, cfg, c.idx) && TableSuccessors(gc, cfg, c) == Successors(g, cfg, c)
  {
    hide Shadows, Helpers;
    assert CachedAt(gc, g, cfg, c.idx);
  }

  /** All states are of vertices of the graph. */
  ghost predicate InGraph(g: Graph, states: States) { forall s :: s in states ==> s.idx < g.n }

  lemma SuccessorsInGraph(g: Graph, cfg: Config, c: State, s: State)
    requires g.Valid() && c.idx < g.n && s in Successors(g, cfg, c)
    ensures s.idx < g.n
  {
  }

  lemma StepStaysInGraph(g: Graph, cfg: Config, states: States, offset: nat, prev: bv8, cur: bv8, next: States)
    requires g.Valid() && InGraph(g, states) && StepOf(g, cfg, states, states.Keys, offset, prev, cur, next)
    ensures InGraph(g, next)
  {
    hide Successors;
    forall s | s in next ensures s.idx < g.n {
      var c :| c in states.Keys && CarriedBy(g, cfg, states, c, offset, prev, cur, next, s);
      SuccessorsInGraph(g, cfg, c, s);
    }
  }

  /** The tests step() makes before activating successor s of c. */
  predicate Enters(g: Graph, c: State, s: State, prev: bv8, cur: bv8)
    requires g.Valid()
  {
    && !IsAnyAccept(s.idx)
    && (AllowStartDs(g) || s.idx != START_DS)
    && !(c.idx == START_DS && s.idx == START_DS && s.level != 0 && s.level == c.level)
    && !(c.idx == START && s.idx == START_DS && c.level != 0 && s.level != 0)
    && (s.helper ||
        (s.idx < g.n && cur in g.reach[s.idx] &&
         (!g.Edge(c.idx, s.idx) || CanReach(g.Flags(c.idx, s.idx), prev, cur))))
  }

  predicate Moves(g: Graph, cfg: Config, c: State, s: State, prev: bv8, cur: bv8)
    requires g.Valid()
  {
    s in Successors(g, cfg, c) && Enters(g, c, s, prev, cur)
  }

  /** Leaving a start vertex sets the start of match; otherwise it is inherited. */
  predicate Restarts(g: Graph, c: State) {
    (IsAnyStart(c.idx) && c.level == 0) || (c.idx in g.virtualStarts && !c.helper)
  }

  function NextSom(g: Graph, c: State, som: nat, offset: nat): nat {
    if Restarts(g, c) then offset else som
  }

  /** activateState: of two offsets for one state, the smaller is kept. */
  function Activate(next: States, s: State, som: nat): States {
    next[s := if s in next && next[s] < som then next[s] else som]
  }

  /** next is what step() computes from the predecessors in `from`. */
  ghost predicate StepOf(g: Graph, cfg: Config, states: States, from: set<State>,
                         offset: nat, prev: bv8, cur: bv8, next: States)
    requires g.Valid() && from <= states.Keys
  {
    && (forall c, s :: c in from && Moves(g, cfg, c, s, prev, cur) ==>
          s in next && next[s] <= NextSom(g, c, states[c], offset))
    && (forall s :: s in next ==> exists c :: c in from && CarriedBy(g, cfg, states, c, offset, prev, cur, next, s))
  }

  ghost predicate CarriedBy(g: Graph, cfg: Config, states: States, c: State,
                            offset: nat, prev: bv8, cur: bv8, next: States, s: State)
    requires g.Valid() && c in states && s in next
  {
    Moves(g, cfg, c, s, prev, cur) && next[s] == NextSom(g, c, states[c], offset)
  }

  /** step(). */
  method Step(g: Graph, cfg: Config, gc: GraphCache, states: States, offset: nat, prev: bv8, cur: bv8)
    returns (next: States)
    requires g.Valid() && Caches(gc, g, cfg) && InGraph(g, states)
    ensures StepOf(g, cfg, states, states.Keys, offset, prev, cur, next) && InGraph(g, next)
  {
    hide StepOf, Caches;
    assert StepOf(g, cfg, states, {}, offset, prev, cur, map[]) by { NoStep(g, cfg, states, offset, prev, cur); }
    next := map[];
    var todo := states.Keys;
    assert states.Keys - todo == {};
    while todo != {}
      invariant todo <= states.Keys
      invariant StepOf(g, cfg, states, states.Keys - todo, offset, prev, cur, next)
    {
      var c :| c in todo;
      ghost var done := states.Keys - todo;
      todo := todo - {c};
      assert states.Keys - todo == done + {c};
      var som := NextSom(g, c, states[c], offset);
      next := StepFrom(g, cfg, gc, states, done, c, som, offset, prev, cur, next);
    }
    assert states.Keys - {} == states.Keys;
    StepStaysInGraph(g, cfg, states, offset, prev, cur, next);
  }

  lemma NoStep(g: Graph, cfg: Config, states: States, offset: nat, prev: bv8, cur: bv8)
    requires g.Valid()
    ensures StepOf(g, cfg, states, {}, offset, prev, cur, map[])
  {
  }

  method StepFrom(g: Graph, cfg: Config, gc: GraphCache, ghost states: States, ghost done: set<State>, c: State,
                  som: nat,
                  ghost offset: nat, prev: bv8, cur: bv8, before: States) returns (next: States)
    requires g.Valid() && done <= states.Keys && c in states && som == NextSom(g, c, states[c], offset)
    requires StepOf(g, cfg, states, done, offset, prev, cur, before) && Caches(gc, g, cfg) && c.idx < g.n
    ensures StepOf(g, cfg, states, done + {c}, offset, prev, cur, next)
  {
    hide Successors, TableSuccessors, Enters, NextSom;
    next := before;
    TablesAreRight(g, cfg, gc, c);
    var succs := TableSuccessors(gc, cfg, c);
    while succs != {}
      invariant succs <= Successors(g, cfg, c)
      invariant forall s :: s in before ==> s in next && next[s] <= before[s]
      invariant forall s :: Moves(g, cfg, c, s, prev, cur) && s !in succs ==> s in next && next[s] <= som
      invariant forall s :: s in next ==>
                  (s in before && next[s] == before[s]) || (Moves(g, cfg, c, s, prev, cur) && next[s] == som)
    {
      var s :| s in succs;
      succs := succs - {s};
      if Enters(g, c, s, prev, cur) {
        next := Activate(next, s, som);
      }
    }
    forall s | s in next
      ensures exists b :: b in done + {c} && CarriedBy(g, cfg, states, b, offset, prev, cur, next, s)
    {
      if Moves(g, cfg, c, s, prev, cur) && next[s] == som {
        assert CarriedBy(g, cfg, states, c, offset, prev, cur, next, s);
      } else {
        var b :| b in done && CarriedBy(g, cfg, states, b, offset, prev, cur, before, s);
        assert CarriedBy(g, cfg, states, b, offset, prev, cur, next, s);
      }
    }
  }
}
