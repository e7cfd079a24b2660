/**
 Chimera (chimera/ch_runtime.c): the data a scan works on, the two oracles it
 consults (libpcre and Hyperscan), and the reference meaning of a scan - the
 iterated PCRE matches of each pattern.
 */
module ChimeraModel {
  import opened Common

  const CH_SUCCESS := 0
  const CH_INVALID := -1
  const CH_SCAN_TERMINATED := -3
  const CH_SCRATCH_IN_USE := -10
  const CH_FAIL_INTERNAL := -32
  const CH_CALLBACK_TERMINATE := 1
  const CH_CALLBACK_SKIP_PATTERN := 2
  const PCRE_ERROR_NOMATCH := -1
  const PCRE_ERROR_MATCHLIMIT := -8
  const PCRE_ERROR_BADUTF8 := -10
  const PCRE_ERROR_RECURSIONLIMIT := -21
  const CH_ERROR_MATCHLIMIT := 1
  const CH_ERROR_RECURSIONLIMIT := 2
  const INT_MAX := 0x7FFF_FFFF
  /** ~0U: the fixedWidth of a pattern that must be confirmed, and the id used for the final flush. */
  const ALL_ONES := 0xFFFF_FFFF

  datatype Capture = Inactive | Active(from: nat, to: nat)

  datatype Pattern = Pattern(userId: nat, singleMatch: bool, utf8: bool, minWidth: nat, fixedWidth: nat)

  /** What pcre_exec returns: the first match at or after the start offset, or a negative code. */
  datatype PcreResult = Hit(from: nat, to: nat, groups: seq<Capture>) | Miss(rv: int)

  /** What the user's callbacks see, in order. `index` is the internal pattern number. */
  datatype Event =
    | Match(index: nat, userId: nat, from: nat, to: nat, groups: seq<Capture>)
    | Fault(kind: int, userId: nat)

  /** One callback of the internal Hyperscan scan. */
  datatype HsMatch = HsMatch(id: nat, from: nat, to: nat)

  /** Everything fixed during one scan. Callbacks may depend on all they have seen so far. */
  datatype Env = Env(
    data: seq<bv8>,
    patterns: seq<Pattern>,
    unguarded: seq<nat>,
    groupsOn: bool,
    allConfirm: bool,
    allSingle: bool,
    noMultiMatch: bool,
    pcre: (nat, nat) -> PcreResult,
    validUtf8: (nat, nat) -> bool,
    onEvent: seq<Event> -> int,
    onError: Option<seq<Event> -> int>)
  {
    function Length(): nat { |data| }
    function Count(): nat { |patterns| }

    predicate NeedsConfirm(id: nat)
      requires id < Count()
    {
      patterns[id].fixedWidth == ALL_ONES
    }

    /** Start of the first code point at or after offset p. */
    function SkipContinuation(p: nat): (r: nat)
      ensures p <= r <= (if p <= Length() then Length() else p)
      ensures forall q :: p <= q < r ==> data[q] & 0xc0 == 0x80
      ensures r < Length() ==> data[r] & 0xc0 != 0x80
      decreases Length() - p
    {
      if p < Length() && data[p] & 0xc0 == 0x80 then SkipContinuation(p + 1) else p
    }

    /** Where the next scan of a pattern starts after it matched [from, to). */
    function NextStart(id: nat, from: nat, to: nat): (r: nat)
      requires id < Count() && from <= to <= Length()
      ensures from < r && to <= r <= Length() + 1
    {
      if from != to then to
      else if patterns[id].utf8 then SkipContinuation(to + 1)
      else to + 1
    }

    function Groups(hit: seq<Capture>): seq<Capture> {
      if groupsOn then hit else []
    }

    /** libpcre's promise: a match lies inside the data and not before the start offset. */
    ghost predicate PcreContract() {
      forall id: nat, s: nat :: id < Count() && s <= Length() && pcre(id, s).Hit? ==>
        s <= pcre(id, s).from <= pcre(id, s).to <= Length()
    }

    /**
     The matches a pattern should deliver from offset s on: PCRE's match,
     then, unless the pattern wants a single match, those from the next start.
     */
    ghost function Expected(id: nat, s: nat): seq<Event>
      requires id < Count() && PcreContract()
      decreases Length() + 1 - s
    {
      if s > Length() || pcre(id, s).Miss? then []
      else
        var h := pcre(id, s);
        [Match(id, patterns[id].userId, h.from, h.to, Groups(h.groups))] +
        (if patterns[id].singleMatch then [] else Expected(id, NextStart(id, h.from, h.to)))
    }
  }

  /** Iterated matches never start before s, never overlap, and end in order. */
  lemma {:induction false} ExpectedNeverOverlaps(env: Env, id: nat, s: nat, i: nat, j: nat)
    requires id < env.Count() && env.PcreContract()
    requires i <= j < |env.Expected(id, s)|
    ensures var w := env.Expected(id, s);
            && w[i].Match? && w[j].Match? && w[j].index == id
            && s <= w[i].from <= w[i].to <= env.Length()
            && (i < j ==> w[i].to <= w[j].from && w[i].from < w[j].from && w[i].to <= w[j].to)
    decreases env.Length() + 1 - s
  {
    var h := env.pcre(id, s);
    var next := env.NextStart(id, h.from, h.to);
    if i > 0 {
      ExpectedNeverOverlaps(env, id, next, i - 1, j - 1);
    } else if j > 0 {
      ExpectedNeverOverlaps(env, id, next, j - 1, j - 1);
    }
  }

  // ----- what iterated matches are, in terms of PCRE alone

  /**
   The scan after match m starts at s: where m ends, or, if m is empty, past it at the
   next byte, for UTF-8 at the next one that does not continue a code point.
   */
  ghost predicate Resumes(env: Env, id: nat, m: Event, s: nat)
    requires id < env.Count() && m.Match?
  {
    if m.from < m.to then s == m.to
    else if !env.patterns[id].utf8 then s == m.to + 1
    else
      && m.to < s && (s >= env.Length() || env.data[s] & 0xc0 != 0x80)
      && forall q :: m.to < q < s ==> q < env.Length() && env.data[q] & 0xc0 == 0x80
  }

  /** The callback for what PCRE finds from s. */
  ghost predicate Raises(env: Env, id: nat, s: nat, m: Event)
    requires id < env.Count()
  {
    && s <= env.Length() && env.pcre(id, s).Hit? && m.Match? && m.index == id && m.userId == env.patterns[id].userId
    && m.from == env.pcre(id, s).from && m.to == env.pcre(id, s).to
    && m.groups == if env.groupsOn then env.pcre(id, s).groups else []
  }

  ghost predicate FindsNone(env: Env, id: nat, s: nat)
    requires id < env.Count()
  {
    s > env.Length() || env.pcre(id, s).Miss?
  }

  /**
   The first match is the one that PCRE finds from s, and each later one the one it finds
   from where the match before it resumes; with `all`, there is no further one.
   */
  ghost predicate Iterates(env: Env, id: nat, s: nat, w: seq<Event>, all: bool)
    requires id < env.Count()
    decreases |w|
  {
    if w == [] then all ==> FindsNone(env, id, s)
    else
      Raises(env, id, s, w[0]) &&
      if env.patterns[id].singleMatch then |w| == 1
      else exists t: nat :: Resumes(env, id, w[0], t) && Iterates(env, id, t, w[1..], all)
  }

  /** There is one place to resume at. */
  lemma ResumesOnce(env: Env, id: nat, m: Event, s: nat, t: nat)
    requires id < env.Count() && m.Match? && Resumes(env, id, m, s) && Resumes(env, id, m, t)
    ensures s == t
  {
  }

  lemma ResumesAtNextStart(env: Env, id: nat, m: Event)
    requires id < env.Count() && m.Match? && m.from <= m.to <= env.Length()
    ensures Resumes(env, id, m, env.NextStart(id, m.from, m.to))
  {
  }

  lemma {:induction false} ExpectedIterates(env: Env, id: nat, s: nat)
    requires id < env.Count() && env.PcreContract()
    ensures Iterates(env, id, s, env.Expected(id, s), true)
    decreases env.Length() + 1 - s
  {
    hide Resumes;
    var w := env.Expected(id, s);
    if w != [] {
      var next := env.NextStart(id, w[0].from, w[0].to);
      ResumesAtNextStart(env, id, w[0]);
      if !env.patterns[id].singleMatch {
        ExpectedIterates(env, id, next);
        assert w[1..] == env.Expected(id, next);
      }
    }
  }

  lemma {:induction false} PrefixIterates(env: Env, id: nat, s: nat, v: seq<Event>, w: seq<Event>, all: bool)
    requires id < env.Count() && v <= w && Iterates(env, id, s, w, all)
    ensures Iterates(env, id, s, v, false)
    decreases |v|
  {
    hide Resumes, Raises;
    if v != [] && !env.patterns[id].singleMatch {
      RaisedIsMatch(env, id, s, w[0]);
      var t: nat :| Resumes(env, id, w[0], t) && Iterates(env, id, t, w[1..], all);
      PrefixIterates(env, id, t, v[1..], w[1..], all);
    }
  }

  lemma RaisedIsMatch(env: Env, id: nat, s: nat, m: Event)
    requires id < env.Count() && Raises(env, id, s, m)
    ensures m.Match?
  {
  }

  /** The matches of one pattern in a trace, in order of delivery. */
  ghost function Delivered(trace: seq<Event>, id: nat): seq<Event> {
    if trace == [] then []
    else
      var last := trace[|trace| - 1];
      Delivered(trace[..|trace| - 1], id) + (if last.Match? && last.index == id then [last] else [])
  }

  lemma DeliveredAppend(trace: seq<Event>, e: Event, id: nat)
    ensures Delivered(trace + [e], id) ==
            Delivered(trace, id) + (if e.Match? && e.index == id then [e] else [])
  {
    assert (trace + [e])[..|trace|] == trace;
  }

  /** A match stands in its pattern's list at the number of that pattern's earlier matches. */
  lemma {:induction false} DeliveredAt(trace: seq<Event>, i: nat)
    requires i < |trace| && trace[i].Match?
    ensures var id := trace[i].index;
            var at := |Delivered(trace[..i], id)|;
            at < |Delivered(trace, id)| && Delivered(trace, id)[at] == trace[i]
  {
    var init := trace[..|trace| - 1];
    if i < |trace| - 1 {
      DeliveredAt(init, i);
      assert init[..i] == trace[..i];
    } else {
      assert init == trace[..i];
    }
  }

  lemma {:induction false} DeliveredOccurs(trace: seq<Event>, i: nat)
    requires i < |trace| && trace[i].Match?
    ensures Delivered(trace, trace[i].index) != []
  {
    if i < |trace| - 1 {
      DeliveredOccurs(trace[..|trace| - 1], i);
    }
  }

  /**
   Hyperscan's promises for one scan of env.data with the guarded patterns:
   - callbacks come in order of end offset, inside the data, for guarded patterns only;
   - a fixed-width pattern is reported exactly where PCRE matches it, so PCRE's
     match from s is the first report starting at or after s;
   - any other pattern is prefiltered: if PCRE matches it, Hyperscan reports it
     no later than the end of PCRE's first match.
   */
  ghost predicate HsContract(env: Env, hs: seq<HsMatch>) {
    && (forall j :: 0 <= j < |hs| ==> HsInRange(env, hs[j]))
    && (forall i, j :: 0 <= i <= j < |hs| ==> hs[i].to <= hs[j].to)
    && (forall id: nat :: id < env.Count() && id !in env.unguarded ==>
        if env.NeedsConfirm(id) then Prefiltered(env, hs, id) else FixedWidthAgrees(env, hs, id))
  }

  ghost predicate HsInRange(env: Env, m: HsMatch) {
    && m.id < env.Count() && m.id !in env.unguarded && m.from <= m.to <= env.Length()
    && (!env.NeedsConfirm(m.id) ==>
        m.to - m.from == env.patterns[m.id].fixedWidth == env.patterns[m.id].minWidth >= 1)
  }

  ghost predicate Prefiltered(env: Env, hs: seq<HsMatch>, id: nat) {
    env.pcre(id, 0).Hit? ==> exists j :: 0 <= j < |hs| && hs[j].id == id && hs[j].to <= env.pcre(id, 0).to
  }

  /** hs[j] is the first report of its pattern that starts at or after s. */
  ghost predicate FirstFrom(hs: seq<HsMatch>, j: nat, s: nat) {
    && j < |hs| && hs[j].from >= s
    && forall i :: 0 <= i < j && hs[i].id == hs[j].id ==> hs[i].from < s
  }

  ghost predicate FixedWidthAgrees(env: Env, hs: seq<HsMatch>, id: nat) {
    forall s: nat :: s <= env.Length() ==>
      && (env.pcre(id, s).Miss? ==> forall j :: 0 <= j < |hs| && hs[j].id == id ==> hs[j].from < s)
      && (env.pcre(id, s).Hit? ==>
          exists j: nat :: FirstFrom(hs, j, s) && hs[j].id == id && HitIs(env, env.pcre(id, s), hs[j]))
  }

  ghost predicate HitIs(env: Env, h: PcreResult, m: HsMatch)
    requires h.Hit?
  {
    h.from == m.from && h.to == m.to && (env.groupsOn ==> h.groups == [Active(m.from, m.to)])
  }

  /** A database as ch_compile builds it. */
  ghost predicate DbContract(env: Env) {
    && env.Count() <= ALL_ONES
    && (forall i :: 0 <= i < |env.unguarded| ==> env.unguarded[i] < env.Count())
    && (forall i, j :: 0 <= i < j < |env.unguarded| ==> env.unguarded[i] != env.unguarded[j])
    && (env.noMultiMatch ==> forall id: nat :: id < env.Count() ==> id in env.unguarded)
  }

  // ----- a database without Hyperscan

  /** /a/ with user id 7 on "aa", as a database of one pattern that only PCRE knows. */
  function PcreOnly(): Env {
    Env([0x61, 0x61], [Pattern(7, false, false, 1, ALL_ONES)], [0], false, true, false, true,
        (id: nat, s: nat) => if s < 2 then Hit(s, s + 1, []) else Miss(PCRE_ERROR_NOMATCH),
        (a: nat, b: nat) => true, (seen: seq<Event>) => 0, None)
  }

  /** It meets every promise, and both matches are expected of it. */
  lemma PcreOnlyIsGiven()
    ensures var env := PcreOnly();
            env.noMultiMatch && env.PcreContract() && DbContract(env) && HsContract(env, []) &&
            env.Expected(0, 0) == [Match(0, 7, 0, 1, []), Match(0, 7, 1, 2, [])]
  {
    var env := PcreOnly();
    assert 0 in env.unguarded;
    assert env.Expected(0, 2) == [];
    assert env.Expected(0, 1) == [Match(0, 7, 1, 2, [])];
  }

  /** The same pattern, which Hyperscan now reports, and again as one that PCRE must confirm. */
  function Guarded(): Env {
    PcreOnly().(patterns := [Pattern(7, false, false, 1, 1), Pattern(8, false, false, 1, ALL_ONES)], unguarded := [],
                allConfirm := false, noMultiMatch := false)
  }

  function Reported(): seq<HsMatch> {
    [HsMatch(0, 0, 1), HsMatch(1, 0, 1), HsMatch(0, 1, 2)]
  }

  lemma GuardedIsGiven()
    ensures var env := Guarded(); env.PcreContract() && DbContract(env) && HsContract(env, Reported())
  {
    var env, hs := Guarded(), Reported();
    GuardedAgrees();
    hide FixedWidthAgrees;
    assert hs[1].id == 1 && Prefiltered(env, hs, 1);
  }

  lemma GuardedAgrees()
    ensures FixedWidthAgrees(Guarded(), Reported(), 0)
  {
    var env, hs := Guarded(), Reported();
    forall s: nat | s < 2
      ensures exists j: nat :: FirstFrom(hs, j, s) && hs[j].id == 0 && HitIs(env, env.pcre(0, s), hs[j])
    {
      if s == 0 {
        assert FirstFrom(hs, 0, s);
      } else {
        assert FirstFrom(hs, 2, s);
      }
    }
    assert env.pcre(0, 2).Miss?;
  }
}
