/**
 The whole simulation of util/ng_find_matches.cpp over an input: the states
 after each byte, the matches they report, and the final filter.
 */
module FindMatchesScan {
  import opened Common
  import opened FindMatches

  type MatchSet = set<(nat, nat)>  // (start of match, end offset)

  ghost function MinOf(s: set<nat>): (m: nat)
    requires s != {}
    ensures m in s && forall x :: x in s ==> m <= x
  {
    var x :| x in s;
    if s == {x} then x
    else
      var rest := MinOf(s - {x});
      assert s == {x} + (s - {x});
      if x < rest then x else rest
  }

  // ----- the states after i bytes

  ghost function ReachedStates(g: Graph, cfg: Config, states: States, prev: bv8, cur: bv8): set<State>
    requires g.Valid()
  {
    set c, s | c in states.Keys && s in Successors(g, cfg, c) && Enters(g, c, s, prev, cur) :: s
  }

  ghost function CandidateSoms(g: Graph, cfg: Config, states: States, offset: nat, prev: bv8, cur: bv8,
                               s: State): set<nat>
    requires g.Valid()
  {
    set c | c in states.Keys && Moves(g, cfg, c, s, prev, cur) :: NextSom(g, c, states[c], offset)
  }

  lemma ReachedHasCandidate(g: Graph, cfg: Config, states: States, offset: nat, prev: bv8, cur: bv8, s: State)
    requires g.Valid() && s in ReachedStates(g, cfg, states, prev, cur)
    ensures CandidateSoms(g, cfg, states, offset, prev, cur, s) != {}
  {
    var c :| c in states.Keys && s in Successors(g, cfg, c) && Enters(g, c, s, prev, cur);
    assert NextSom(g, c, states[c], offset) in CandidateSoms(g, cfg, states, offset, prev, cur, s);
  }

  /** One step as a function: each reached state with the least offset any predecessor gives it. */
  ghost function StepMap(g: Graph, cfg: Config, states: States, offset: nat, prev: bv8, cur: bv8): (next: States)
    requires g.Valid()
    ensures StepOf(g, cfg, states, states.Keys, offset, prev, cur, next)
  {
    var next := map s | s in ReachedStates(g, cfg, states, prev, cur) ::
      (ReachedHasCandidate(g, cfg, states, offset, prev, cur, s);
       MinOf(CandidateSoms(g, cfg, states, offset, prev, cur, s)));
    StepMapIsStep(g, cfg, states, offset, prev, cur, next);
    next
  }

  lemma StepMapIsStep(g: Graph, cfg: Config, states: States, offset: nat, prev: bv8, cur: bv8, next: States)
    requires g.Valid() && next.Keys == ReachedStates(g, cfg, states, prev, cur)
    requires forall s :: s in next ==>
               var soms := CandidateSoms(g, cfg, states, offset, prev, cur, s);
               next[s] in soms && forall m :: m in soms ==> next[s] <= m
    ensures StepOf(g, cfg, states, states.Keys, offset, prev, cur, next)
  {
    forall c, s | c in states.Keys && Moves(g, cfg, c, s, prev, cur)
      ensures s in next && next[s] <= NextSom(g, c, states[c], offset)
    {
      assert s in next.Keys;
      assert NextSom(g, c, states[c], offset) in CandidateSoms(g, cfg, states, offset, prev, cur, s);
    }
    forall s | s in next
      ensures exists c :: c in states.Keys && CarriedBy(g, cfg, states, c, offset, prev, cur, next, s)
    {
      var c :| c in states.Keys && Moves(g, cfg, c, s, prev, cur) && NextSom(g, c, states[c], offset) == next[s];
      assert CarriedBy(g, cfg, states, c, offset, prev, cur, next, s);
    }
  }

  /** A step has only one outcome, in whatever order states and successors are visited. */
  lemma StepIsUnique(g: Graph, cfg: Config, states: States, offset: nat, prev: bv8, cur: bv8, a: States, b: States)
    requires g.Valid()
    requires StepOf(g, cfg, states, states.Keys, offset, prev, cur, a)
    requires StepOf(g, cfg, states, states.Keys, offset, prev, cur, b)
    ensures a == b
  {
    StepNoLater(g, cfg, states, offset, prev, cur, a, b);
    StepNoLater(g, cfg, states, offset, prev, cur, b, a);
    assert a.Keys == b.Keys;
  }

  lemma StepNoLater(g: Graph, cfg: Config, states: States, offset: nat, prev: bv8, cur: bv8, a: States, b: States)
    requires g.Valid()
    requires StepOf(g, cfg, states, states.Keys, offset, prev, cur, a)
    requires StepOf(g, cfg, states, states.Keys, offset, prev, cur, b)
    ensures forall s :: s in b ==> s in a && a[s] <= b[s]
  {
    forall s | s in b
      ensures s in a && a[s] <= b[s]
    {
      var c :| c in states.Keys && CarriedBy(g, cfg, states, c, offset, prev, cur, b, s);
    }
  }

  /** fmstate's constructor. */
  function Initial(g: Graph): States {
    var states: States := map[State(START, 0, false) := 0];
    if AllowStartDs(g) then states[State(START_DS, 0, false) := 0] else states
  }

  function Prev(input: seq<bv8>, i: nat): bv8
    requires i <= |input|
  {
    if i == 0 then 0 else input[i - 1]
  }

  ghost function StatesAt(g: Graph, cfg: Config, input: seq<bv8>, i: nat): States
    requires g.Valid() && i <= |input|
  {
    if i == 0 then Initial(g)
    else StepMap(g, cfg, StatesAt(g, cfg, input, i - 1), i - 1, Prev(input, i - 1), input[i - 1])
  }

  // ----- reporting

  predicate IsUtf8CodePoint(c: bv8) {
    c & 0xF8 == 0xF0 || c & 0xF0 == 0xE0 || c & 0xE0 == 0xC0 || c & 0x80 == 0
  }

  /** accept_states / accept_eod_states: target within the edits still allowed. */
  predicate Accepts(g: Graph, cfg: Config, c: State, target: nat)
    requires g.Valid()
  {
    exists d :: 0 <= d <= cfg.dist - c.level && target in Shadows(g, cfg, c.idx, d)
  }

  /** vertex_reports_by_level / vertex_eod_reports_by_level: adjustments of the reports raised from u. */
  function Adjustments(g: Graph, cfg: Config, u: nat, level: nat, target: nat): set<int>
    requires g.Valid()
  {
    (if g.Edge(u, target) && u < g.n && !(target == ACCEPT_EOD && u == ACCEPT) then g.adjusts[u] else {}) +
    (set e, pd, a |
       e in g.edges && e.1 == target && !(target == ACCEPT_EOD && e.0 == ACCEPT) &&
       0 <= pd < (if cfg.hamming then 0 else cfg.dist) && level < cfg.dist - pd &&
       u in PredecessorsAt(g, e.0, pd) && a in g.adjusts[e.0] :: a)
  }

  /** The tests getAcceptMatches makes on an active state. */
  predicate Reports(g: Graph, cfg: Config, utf8: bool, c: State, prev: bv8, cur: bv8, target: nat)
    requires g.Valid()
  {
    && Accepts(g, cfg, c, target)
    && !(utf8 && c.idx == START_DS && !IsUtf8CodePoint(cur))
    && (!g.Edge(c.idx, target) || CanReach(g.Flags(c.idx, target), prev, cur))
  }

  function EndOf(offset: nat, adjust: int): nat {
    (offset + adjust) % TWO64
  }

  ghost function AcceptMatches(g: Graph, cfg: Config, utf8: bool, states: States,
                               offset: nat, prev: bv8, cur: bv8, target: nat): MatchSet
    requires g.Valid()
  {
    set c, a | c in states.Keys && Reports(g, cfg, utf8, c, prev, cur, target) &&
               a in Adjustments(g, cfg, c.idx, c.level, target) :: (states[c], EndOf(offset, a))
  }

  /** getAcceptMatches. */
  method GetAcceptMatches(g: Graph, cfg: Config, utf8: bool, states: States,
                          offset: nat, prev: bv8, cur: bv8, target: nat, before: MatchSet)
    returns (matches: MatchSet)
    requires g.Valid()
    ensures matches == before + AcceptMatches(g, cfg, utf8, states, offset, prev, cur, target)
  {
    matches := before;
    var todo := states.Keys;
    while todo != {}
      invariant todo <= states.Keys
      invariant matches == before + set c, a |
                  c in states.Keys - todo && Reports(g, cfg, utf8, c, prev, cur, target) &&
                  a in Adjustments(g, cfg, c.idx, c.level, target) :: (states[c], EndOf(offset, a))
    {
      var c :| c in todo;
      ghost var done := states.Keys - todo;
      todo := todo - {c};
      assert states.Keys - todo == done + {c};
      if Reports(g, cfg, utf8, c, prev, cur, target) {
        var found := set a | a in Adjustments(g, cfg, c.idx, c.level, target) :: (states[c], EndOf(offset, a));
        matches := matches + found;
      }
    }
    assert states.Keys - {} == states.Keys;
  }

  /** The matches reported while byte i is being read, or at the end of the data. */
  ghost function MatchesAt(g: Graph, cfg: Config, utf8: bool, notEod: bool, input: seq<bv8>, i: nat): MatchSet
    requires g.Valid() && i <= |input|
  {
    var states, prev := StatesAt(g, cfg, input, i), Prev(input, i);
    if i < |input| then AcceptMatches(g, cfg, utf8, states, i, prev, input[i], ACCEPT)
    else AcceptMatches(g, cfg, utf8, states, i, prev, 0, ACCEPT) +
         (if notEod then {} else AcceptMatches(g, cfg, utf8, states, i, prev, 0, ACCEPT_EOD))
  }

  ghost function MatchesBefore(g: Graph, cfg: Config, utf8: bool, notEod: bool, input: seq<bv8>, i: nat): MatchSet
    requires g.Valid() && i <= |input| + 1
  {
    if i == 0 then {}
    else MatchesBefore(g, cfg, utf8, notEod, input, i - 1) + MatchesAt(g, cfg, utf8, notEod, input, i - 1)
  }

  /** Every match reported anywhere, before filtering. */
  ghost function RawMatches(g: Graph, cfg: Config, utf8: bool, notEod: bool, input: seq<bv8>): MatchSet
    requires g.Valid()
  {
    MatchesBefore(g, cfg, utf8, notEod, input, |input| + 1)
  }

  // ----- filtering

  /** The cut-off filterMatches uses for end offset e: the least start, but never above 2^32 - 1. */
  ghost function CutOff(matches: MatchSet, e: nat): nat {
    MinOf({TWO32 - 1} + set m | m in matches && m.1 == e :: m.0)
  }

  ghost function Filtered(matches: MatchSet): MatchSet {
    set m | m in matches && m.0 <= CutOff(matches, m.1)
  }

  /** The scan for the least start among the matches that end at e. */
  method LeastStart(matches: MatchSet, e: nat) returns (minSom: nat)
    ensures minSom == CutOff(matches, e)
  {
    minSom := TWO32 - 1;
    var rest := matches;
    while rest != {}
      invariant rest <= matches && minSom <= TWO32 - 1
      invariant forall m :: m in matches && m !in rest && m.1 == e ==> minSom <= m.0
      invariant minSom == TWO32 - 1 || (minSom, e) in matches
    {
      var m: (nat, nat) :| m in rest;
      rest := rest - {m};
      if m.1 == e && m.0 < minSom {
        minSom := m.0;
      }
    }
    ghost var starts := {TWO32 - 1} + set m | m in matches && m.1 == e :: m.0;
    assert minSom == TWO32 - 1 || (minSom, e).0 in starts;
  }

  method FilterMatches(matches: MatchSet) returns (kept: MatchSet)
    ensures kept == Filtered(matches)
  {
    kept := matches;
    var todo := set m | m in matches :: m.1;
    ghost var ends := todo;
    while todo != {}
      invariant todo <= ends
      invariant kept == set m | m in matches && (m.1 in todo || m.0 <= CutOff(matches, m.1))
    {
      var e :| e in todo;
      var minSom := LeastStart(kept, e);
      assert (set m | m in kept && m.1 == e :: m.0) == (set m | m in matches && m.1 == e :: m.0);
      todo := todo - {e};
      kept := set m | m in kept && !(m.1 == e && m.0 > minSom);
    }
  }

  // ----- the whole run

  lemma NoStatesNoStep(g: Graph, cfg: Config, offset: nat, prev: bv8, cur: bv8)
    requires g.Valid()
    ensures StepMap(g, cfg, map[], offset, prev, cur) == map[]
  {
    var next := StepMap(g, cfg, map[], offset, prev, cur);
    assert StepOf(g, cfg, map[], {}, offset, prev, cur, next);
    assert next.Keys == {};
  }

  /** An empty state set stays empty: nothing later can match. */
  lemma {:induction false} EmptyStaysEmpty(g: Graph, cfg: Config, input: seq<bv8>, i: nat, j: nat)
    requires g.Valid() && i <= j <= |input| && StatesAt(g, cfg, input, i) == map[]
    ensures StatesAt(g, cfg, input, j) == map[]
  {
    hide StepMap, StepOf;
    if i < j {
      EmptyStaysEmpty(g, cfg, input, i, j - 1);
      NoStatesNoStep(g, cfg, j - 1, Prev(input, j - 1), input[j - 1]);
    }
  }

  lemma NoStatesNoMatches(g: Graph, cfg: Config, utf8: bool, notEod: bool, input: seq<bv8>, i: nat)
    requires g.Valid() && i <= |input| && StatesAt(g, cfg, input, i) == map[]
    ensures MatchesAt(g, cfg, utf8, notEod, input, i) == {}
  {
    hide StatesAt, Reports, Adjustments;
  }

  lemma {:induction false} NothingAfterEmpty(g: Graph, cfg: Config, utf8: bool, notEod: bool, input: seq<bv8>,
                                             i: nat, j: nat)
    requires g.Valid() && i <= j <= |input| + 1 && i <= |input| && StatesAt(g, cfg, input, i) == map[]
    ensures MatchesBefore(g, cfg, utf8, notEod, input, j) == MatchesBefore(g, cfg, utf8, notEod, input, i)
  {
    hide StatesAt, MatchesAt;
    if i < j {
      NothingAfterEmpty(g, cfg, utf8, notEod, input, i, j - 1);
      EmptyStaysEmpty(g, cfg, input, i, j - 1);
      NoStatesNoMatches(g, cfg, utf8, notEod, input, j - 1);
    }
  }

  /** findMatches: false when the automaton is too big; the early exit loses nothing. */
  method FindAll(g: Graph, input: seq<bv8>, editDistance: nat, hammDistance: nat, notEod: bool, utf8: bool)
    returns (ok: bool, matches: MatchSet)
    requires g.Valid()
    ensures ok == (TotalStates(g, Chosen(editDistance, hammDistance).dist) <= STATE_COUNT_MAX)
    ensures ok ==> matches == Filtered(RawMatches(g, Chosen(editDistance, hammDistance), utf8, notEod, input))
    ensures !ok ==> matches == {}
  {
    hide StepMap, StepOf, AcceptMatches, Filtered;
    var cfg := Chosen(editDistance, hammDistance);
    matches := {};
    if TotalStates(g, cfg.dist) > STATE_COUNT_MAX {
      return false, {};
    }
    var gc := BuildCache(g, cfg);
    var states := Initial(g);
    var prev: bv8 := 0;
    for i := 0 to |input|
      invariant states == StatesAt(g, cfg, input, i) && prev == Prev(input, i) && InGraph(g, states)
      invariant matches == MatchesBefore(g, cfg, utf8, notEod, input, i)
    {
      var next := Step(g, cfg, gc, states, i, prev, input[i]);
      StepIsUnique(g, cfg, states, i, prev, input[i], next, StatesAt(g, cfg, input, i + 1));
      matches := GetAcceptMatches(g, cfg, utf8, states, i, prev, input[i], ACCEPT, matches);
      if next == map[] {
        NothingAfterEmpty(g, cfg, utf8, notEod, input, i + 1, |input| + 1);
        matches := FilterMatches(matches);
        return true, matches;
      }
      states, prev := next, input[i];
    }
    matches := GetAcceptMatches(g, cfg, utf8, states, |input|, prev, 0, ACCEPT, matches);
    if !notEod {
      matches := GetAcceptMatches(g, cfg, utf8, states, |input|, prev, 0, ACCEPT_EOD, matches);
    }
    assert matches == RawMatches(g, cfg, utf8, notEod, input);
    matches := FilterMatches(matches);
    ok := true;
  }

  /** total_states; the factor for the distance is computed in 32 bits. */
  function TotalStates(g: Graph, dist: nat): nat { g.n * ((3 * dist + 1) % TWO32) }

  /**
   It is the true number exactly for distances up to 1431655764.  Beyond them the size test
   wrongly passes a graph when what is left of the number is small, as with the next one.
   */
  lemma TotalStatesBound(g: Graph, dist: nat)
    requires g.n > 0
    ensures TotalStates(g, dist) == g.n * (3 * dist + 1) <==> dist <= 1431655764
    ensures (TotalStates(g, dist) <= STATE_COUNT_MAX <==> g.n * (3 * dist + 1) <= STATE_COUNT_MAX) <==>
            dist <= 1431655764 || g.n * ((3 * dist + 1) % TWO32) > STATE_COUNT_MAX
    ensures TotalStates(g, 1431655765) == 0 && g.n * (3 * 1431655765 + 1) > STATE_COUNT_MAX
  {
    assert (3 * 1431655765 + 1) % TWO32 == 0 && g.n * 0 == 0;
    Grows(g.n, 3 * 1431655765 + 1);
    var f := 3 * dist + 1;
    if dist > 1431655764 {
      assert f >= TWO32 && f % TWO32 < f;
      Grows(g.n, f - f % TWO32);
      assert g.n * (f - f % TWO32) == g.n * f - g.n * (f % TWO32);
      Grows(g.n, f);
    }
  }

  lemma Grows(n: nat, f: nat)
    requires n > 0
    ensures n * f >= f
  {
    assert n * f == f + (n - 1) * f;
  }

  function Chosen(editDistance: nat, hammDistance: nat): Config {
    if hammDistance > 0 then Config(true, hammDistance) else Config(false, editDistance)
  }
}
