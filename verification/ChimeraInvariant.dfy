/**
 The invariant of a Chimera scan and what each kind of step does to it.
 Between steps every pattern is idle, queued or finished; during a step one
 pattern may be in hand: popped from the queue and not yet rescanned.
 */
module ChimeraInvariant {
  import opened MatchQueue
  import opened ChimeraModel

  datatype PatternData = PatternData(scanStart: nat, groups: seq<Capture>)

  datatype View = View(queue: set<Item>, active: set<nat>, pats: seq<PatternData>, trace: seq<Event>)

  const NOBODY := -1

  // ----- the parts of the invariant

  ghost predicate Queued(v: View, id: nat) {
    exists x :: x in v.queue && x.id == id
  }

  ghost predicate QueuedOk(env: Env, v: View, x: Item)
    requires |v.pats| == env.Count()
  {
    && x.id in v.active && x.id < env.Count() && x.from <= x.to <= env.Length()
    && v.pats[x.id].scanStart == env.NextStart(x.id, x.from, x.to)
  }

  /** Every match in the trace is of a pattern of the database. */
  ghost predicate Known(env: Env, trace: seq<Event>) {
    forall i :: 0 <= i < |trace| && trace[i].Match? ==> trace[i].index < env.Count()
  }

  /** At most one queue entry per pattern, each agreeing with its pattern's scan start. */
  ghost predicate Shape(env: Env, v: View) {
    && |v.pats| == env.Count() && Known(env, v.trace)
    && (forall id :: id in v.active ==> id < env.Count())
    && (forall x :: x in v.queue ==> QueuedOk(env, v, x))
    && (forall x, y :: x in v.queue && y in v.queue && x.id == y.id ==> x == y)
  }

  ghost predicate DeliveredBy(trace: seq<Event>, t: nat) {
    forall i :: 0 <= i < |trace| && trace[i].Match? ==> trace[i].to <= t
  }

  ghost predicate EndsInOrder(trace: seq<Event>) {
    forall i, j :: 0 <= i <= j < |trace| && trace[i].Match? && trace[j].Match? ==> trace[i].to <= trace[j].to
  }

  /** Nothing delivered lies beyond the offset reached or beyond a pending match. */
  ghost predicate Timely(v: View, reached: nat) {
    && EndsInOrder(v.trace)
    && DeliveredBy(v.trace, reached)
    && forall x :: x in v.queue ==> DeliveredBy(v.trace, x.to)
  }

  /** The callback's answer to event i asked for the scan to stop. */
  ghost predicate Stopped(env: Env, trace: seq<Event>, i: nat)
    requires i < |trace|
  {
    if trace[i].Match? then env.onEvent(trace[..i + 1]) == CH_CALLBACK_TERMINATE
    else env.onError.Some? && env.onError.value(trace[..i + 1]) == CH_CALLBACK_TERMINATE
  }

  ghost predicate SkippedAt(env: Env, trace: seq<Event>, i: nat, id: nat)
    requires i < |trace|
  {
    trace[i].Match? && trace[i].index == id && env.onEvent(trace[..i + 1]) == CH_CALLBACK_SKIP_PATTERN
  }

  ghost predicate Skipped(env: Env, trace: seq<Event>, id: nat) {
    exists i :: 0 <= i < |trace| && SkippedAt(env, trace, i, id)
  }

  /** No event follows a stop, and no match of a pattern follows a skip of it. */
  ghost predicate Obedient(env: Env, trace: seq<Event>) {
    && (forall i :: 0 <= i < |trace| - 1 ==> !Stopped(env, trace, i))
    && (forall i, j :: 0 <= i < j < |trace| && trace[j].Match? ==> !SkippedAt(env, trace, i, trace[j].index))
  }

  ghost predicate Unstopped(env: Env, trace: seq<Event>) {
    forall i :: 0 <= i < |trace| ==> !Stopped(env, trace, i)
  }

  /** What a queued pattern still has to deliver. */
  ghost function Remaining(env: Env, v: View, x: Item): seq<Event>
    requires env.PcreContract() && Shape(env, v) && x in v.queue
  {
    [Match(x.id, env.patterns[x.id].userId, x.from, x.to, v.pats[x.id].groups)] +
    (if env.patterns[x.id].singleMatch then [] else env.Expected(x.id, env.NextStart(x.id, x.from, x.to)))
  }

  /** Where pattern id stands; `hand` is the pattern in hand, to be rescanned from `resume`. */
  ghost predicate OnTrack(env: Env, v: View, id: nat, hand: int, resume: nat)
    requires env.PcreContract() && Shape(env, v) && id < env.Count()
  {
    var done, want := Delivered(v.trace, id), env.Expected(id, 0);
    if id !in v.active then done == []
    else if id == hand then !Skipped(env, v.trace, id) && done + env.Expected(id, resume) == want
    else if Queued(v, id) then
      !Skipped(env, v.trace, id) && forall x :: x in v.queue && x.id == id ==> done + Remaining(env, v, x) == want
    else done <= want && (Skipped(env, v.trace, id) || done == want)
  }

  /** How far the first k Hyperscan callbacks have been taken into account. */
  ghost predicate InSync(env: Env, hs: seq<HsMatch>, k: nat, v: View, hand: int)
    requires Shape(env, v) && k <= |hs| && HsContract(env, hs)
  {
    && (forall j :: 0 <= j < k ==> hs[j].id in v.active && Passed(env, v, hs[j]))
    && (forall id :: id in v.active && id !in env.unguarded && id != hand && !Queued(v, id) ==> Spent(env, v, id))
    && (forall id :: id in v.active && id !in env.unguarded ==> v.pats[id].scanStart <= env.Length() + 1)
  }

  /** A fixed-width report that the scan start has overtaken. */
  ghost predicate Passed(env: Env, v: View, m: HsMatch)
    requires Shape(env, v) && HsInRange(env, m)
  {
    || env.NeedsConfirm(m.id) || env.patterns[m.id].singleMatch
    || m.to < v.pats[m.id].scanStart + env.patterns[m.id].minWidth
  }

  ghost predicate Spent(env: Env, v: View, id: nat)
    requires Shape(env, v) && id < env.Count()
  {
    env.NeedsConfirm(id) || env.patterns[id].singleMatch || v.pats[id].scanStart >= env.Length()
  }

  ghost predicate Given(env: Env, hs: seq<HsMatch>) {
    env.PcreContract() && DbContract(env) && HsContract(env, hs)
  }

  ghost predicate Inv(env: Env, hs: seq<HsMatch>, k: nat, v: View, reached: nat, hand: int, resume: nat)
    requires Given(env, hs) && k <= |hs|
  {
    && Shape(env, v)
    && Timely(v, reached)
    && Obedient(env, v.trace) && Unstopped(env, v.trace)
    && (hand != NOBODY ==> hand in v.active && !Queued(v, hand))
    && (forall id: nat :: id < env.Count() ==> OnTrack(env, v, id, hand, resume))
    && InSync(env, hs, k, v, hand)
  }

  /** What holds of the events of any scan, however it ends. */
  ghost predicate Sound(env: Env, trace: seq<Event>)
    requires env.PcreContract()
  {
    && Known(env, trace) && EndsInOrder(trace) && Obedient(env, trace)
    && forall id: nat :: id < env.Count() ==> Delivered(trace, id) <= env.Expected(id, 0)
  }

  // ----- appending one event

  lemma OldAnswers(env: Env, trace: seq<Event>, e: Event, i: nat)
    requires i < |trace|
    ensures Stopped(env, trace + [e], i) == Stopped(env, trace, i)
    ensures forall id :: SkippedAt(env, trace + [e], i, id) == SkippedAt(env, trace, i, id)
  {
    assert (trace + [e])[..i + 1] == trace[..i + 1];
  }

  lemma SkippedAppend(env: Env, trace: seq<Event>, e: Event, id: nat)
    ensures Skipped(env, trace + [e], id) <==> Skipped(env, trace, id) || SkippedAt(env, trace + [e], |trace|, id)
  {
    var t := trace + [e];
    forall i | 0 <= i < |trace|
      ensures SkippedAt(env, t, i, id) == SkippedAt(env, trace, i, id)
    {
      OldAnswers(env, trace, e, i);
    }
  }

  lemma ObedientAppend(env: Env, trace: seq<Event>, e: Event)
    requires Obedient(env, trace) && Unstopped(env, trace)
    requires e.Match? ==> !Skipped(env, trace, e.index)
    ensures Obedient(env, trace + [e])
    ensures !Stopped(env, trace + [e], |trace|) ==> Unstopped(env, trace + [e])
  {
    var t := trace + [e];
    forall i | 0 <= i < |trace|
      ensures !Stopped(env, t, i)
    {
      OldAnswers(env, trace, e, i);
    }
    forall i, j | 0 <= i < j < |t| && t[j].Match?
      ensures !SkippedAt(env, t, i, t[j].index)
    {
      OldAnswers(env, trace, e, i);
      assert SkippedAt(env, t, i, t[j].index) == SkippedAt(env, trace, i, t[j].index);
    }
  }
}
