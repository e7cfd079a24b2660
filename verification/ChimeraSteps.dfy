/** What each step of a Chimera scan does to the invariant. */
module ChimeraSteps {
  import opened MatchQueue
  import opened ChimeraModel
  import opened ChimeraInvariant

  ghost function MatchOf(env: Env, v: View, x: Item): Event
    requires Shape(env, v) && x in v.queue
  {
    Match(x.id, env.patterns[x.id].userId, x.from, x.to, v.pats[x.id].groups)
  }

  /** The state right after the callback has been given the match x from the queue. */
  ghost function AfterDelivery(env: Env, v: View, x: Item): View
    requires Shape(env, v) && x in v.queue
  {
    v.(queue := v.queue - {x}, trace := v.trace + [MatchOf(env, v, x)])
  }

  ghost function WithScanStart(v: View, id: nat, s: nat): View
    requires id < |v.pats|
  {
    v.(pats := v.pats[id := v.pats[id].(scanStart := s)])
  }

  ghost predicate Least(q: set<Item>, x: Item) {
    x in q && forall y :: y in q ==> !Less(y, x)
  }

  /** Popping the least match: order and callback discipline, whatever the callback answers. */
  lemma DeliveryIsTimely(env: Env, hs: seq<HsMatch>, k: nat, v: View, reached: nat, x: Item)
    requires Given(env, hs) && k <= |hs| && Inv(env, hs, k, v, reached, NOBODY, 0)
    requires Least(v.queue, x) && x.to <= reached
    ensures var w := AfterDelivery(env, v, x);
            && Shape(env, w) && Timely(w, reached) && DeliveredBy(w.trace, x.to)
            && Obedient(env, w.trace)
            && (env.onEvent(w.trace) != CH_CALLBACK_TERMINATE ==> Unstopped(env, w.trace))
            && !Queued(w, x.id)
  {
    var w := AfterDelivery(env, v, x);
    var e := MatchOf(env, v, x);
    assert OnTrack(env, v, x.id, NOBODY, 0);
    assert Queued(v, x.id);
    ObedientAppend(env, v.trace, e);
    assert w.trace[..|v.trace| + 1] == w.trace;
    forall y | y in w.queue
      ensures DeliveredBy(w.trace, y.to)
    {
      assert !Less(y, x);
    }
  }

  /** The delivered pattern itself: its next match is the next one expected. */
  lemma DeliveryAdvances(env: Env, hs: seq<HsMatch>, k: nat, v: View, reached: nat, x: Item)
    requires Given(env, hs) && k <= |hs| && Inv(env, hs, k, v, reached, NOBODY, 0)
    requires x in v.queue
    ensures var w := AfterDelivery(env, v, x);
            Delivered(w.trace, x.id) +
            (if env.patterns[x.id].singleMatch then [] else env.Expected(x.id, v.pats[x.id].scanStart))
            == env.Expected(x.id, 0)
    ensures Skipped(env, AfterDelivery(env, v, x).trace, x.id) <==>
            env.onEvent(AfterDelivery(env, v, x).trace) == CH_CALLBACK_SKIP_PATTERN
  {
    var w := AfterDelivery(env, v, x);
    var e := MatchOf(env, v, x);
    DeliveredAppend(v.trace, e, x.id);
    SkippedAppend(env, v.trace, e, x.id);
    assert w.trace[..|v.trace| + 1] == w.trace;
    assert OnTrack(env, v, x.id, NOBODY, 0);
    assert Queued(v, x.id);
    var rest := if env.patterns[x.id].singleMatch then [] else env.Expected(x.id, v.pats[x.id].scanStart);
    assert Delivered(v.trace, x.id) + ([e] + rest) == Delivered(v.trace, x.id) + [e] + rest;
  }

  /** All other patterns stand where they stood. */
  lemma OthersUnmoved(env: Env, v: View, w: View, id: nat, hand: int, resume: nat)
    requires env.PcreContract() && Shape(env, v) && Shape(env, w) && id < env.Count()
    requires OnTrack(env, v, id, NOBODY, 0) && id != hand
    requires id in v.active <==> id in w.active
    requires Delivered(w.trace, id) == Delivered(v.trace, id)
    requires Skipped(env, w.trace, id) == Skipped(env, v.trace, id)
    requires forall x: Item :: x.id == id ==> (x in v.queue <==> x in w.queue)
    requires w.pats[id].groups == v.pats[id].groups
    ensures OnTrack(env, w, id, hand, resume)
  {
    if Queued(w, id) {
      assert Queued(v, id);
      forall x | x in w.queue && x.id == id
        ensures Delivered(w.trace, id) + Remaining(env, w, x) == env.Expected(id, 0)
      {
        assert x in v.queue;
      }
    } else {
      assert !Queued(v, id);
    }
  }

  lemma SameTraceOthers(env: Env, v: View, x: Item, id: nat)
    requires Shape(env, v) && x in v.queue && id != x.id
    ensures Delivered(AfterDelivery(env, v, x).trace, id) == Delivered(v.trace, id)
    ensures Skipped(env, AfterDelivery(env, v, x).trace, id) == Skipped(env, v.trace, id)
  {
    DeliveredAppend(v.trace, MatchOf(env, v, x), id);
    SkippedAppend(env, v.trace, MatchOf(env, v, x), id);
  }

  /** However the callback answers, what has been delivered is a prefix of what is expected. */
  lemma DeliveryIsSound(env: Env, hs: seq<HsMatch>, k: nat, v: View, reached: nat, x: Item)
    requires Given(env, hs) && k <= |hs| && Inv(env, hs, k, v, reached, NOBODY, 0)
    requires Least(v.queue, x) && x.to <= reached
    ensures Sound(env, AfterDelivery(env, v, x).trace)
  {
    var w := AfterDelivery(env, v, x);
    DeliveryIsTimely(env, hs, k, v, reached, x);
    forall id: nat | id < env.Count()
      ensures Delivered(w.trace, id) <= env.Expected(id, 0)
    {
      if id == x.id {
        DeliveryAdvances(env, hs, k, v, reached, x);
      } else {
        SameTraceOthers(env, v, x, id);
        assert OnTrack(env, v, id, NOBODY, 0);
        TrackIsPrefix(env, v, id, NOBODY, 0);
      }
    }
  }

  lemma TrackIsPrefix(env: Env, v: View, id: nat, hand: int, resume: nat)
    requires env.PcreContract() && Shape(env, v) && id < env.Count() && OnTrack(env, v, id, hand, resume)
    ensures Delivered(v.trace, id) <= env.Expected(id, 0)
  {
    if id in v.active && id != hand && Queued(v, id) {
      var x :| x in v.queue && x.id == id;
      assert Delivered(v.trace, id) + Remaining(env, v, x) == env.Expected(id, 0);
    }
  }

  lemma InvIsSound(env: Env, hs: seq<HsMatch>, k: nat, v: View, reached: nat, hand: int, resume: nat)
    requires Given(env, hs) && k <= |hs| && Inv(env, hs, k, v, reached, hand, resume)
    ensures Sound(env, v.trace)
  {
    forall id: nat | id < env.Count()
      ensures Delivered(v.trace, id) <= env.Expected(id, 0)
    {
      TrackIsPrefix(env, v, id, hand, resume);
    }
  }

  /** The callback lets the pattern go on: it is now in hand, to be rescanned from its scan start. */
  lemma DeliveryContinues(env: Env, hs: seq<HsMatch>, k: nat, v: View, reached: nat, x: Item)
    requires Given(env, hs) && k <= |hs| && Inv(env, hs, k, v, reached, NOBODY, 0)
    requires Least(v.queue, x) && x.to <= reached
    requires env.onEvent(AfterDelivery(env, v, x).trace) != CH_CALLBACK_TERMINATE
    requires env.onEvent(AfterDelivery(env, v, x).trace) != CH_CALLBACK_SKIP_PATTERN
    ensures var w := AfterDelivery(env, v, x);
            if env.patterns[x.id].singleMatch then Inv(env, hs, k, w, reached, NOBODY, 0)
            else Inv(env, hs, k, w, reached, x.id, v.pats[x.id].scanStart)
  {
    var w := AfterDelivery(env, v, x);
    var single := env.patterns[x.id].singleMatch;
    var hand, resume := if single then NOBODY else x.id, if single then 0 else v.pats[x.id].scanStart;
    DeliveryIsTimely(env, hs, k, v, reached, x);
    DeliveryAdvances(env, hs, k, v, reached, x);
    forall id: nat | id < env.Count()
      ensures OnTrack(env, w, id, hand, resume)
    {
      if id != x.id {
        SameTraceOthers(env, v, x, id);
        assert OnTrack(env, v, id, NOBODY, 0);
        OthersUnmoved(env, v, w, id, hand, resume);
      }
    }
    SyncAfterPop(env, hs, k, v, w, x, hand);
  }

  lemma PopKeepsOthersQueued(v: View, w: View, x: Item, id: nat)
    requires w.queue == v.queue - {x} && id != x.id
    ensures Queued(w, id) == Queued(v, id)
  {
    if Queued(v, id) {
      var y :| y in v.queue && y.id == id;
      assert y in w.queue;
    }
  }

  lemma SyncAfterPop(env: Env, hs: seq<HsMatch>, k: nat, v: View, w: View, x: Item, hand: int)
    requires Given(env, hs) && k <= |hs| && Shape(env, v) && Shape(env, w) && InSync(env, hs, k, v, NOBODY)
    requires x in v.queue && w.queue == v.queue - {x} && w.active == v.active
    requires forall id :: 0 <= id < env.Count() && id != x.id ==> w.pats[id] == v.pats[id]
    requires w.pats[x.id].scanStart == v.pats[x.id].scanStart || w.pats[x.id].scanStart == env.Length()
    requires hand == x.id || (hand == NOBODY && Spent(env, w, x.id))
    ensures InSync(env, hs, k, w, hand)
  {
    forall j | 0 <= j < k
      ensures Passed(env, w, hs[j])
    {
      assert Passed(env, v, hs[j]);
      assert HsInRange(env, hs[j]);
    }
    forall id | id in w.active && id !in env.unguarded && id != hand && !Queued(w, id)
      ensures Spent(env, w, id)
    {
      if id != x.id {
        PopKeepsOthersQueued(v, w, x, id);
        assert Spent(env, v, id);
      }
    }
  }

  /** The callback skips the pattern: it is finished, its scan start parked at the end. */
  lemma DeliverySkips(env: Env, hs: seq<HsMatch>, k: nat, v: View, reached: nat, x: Item)
    requires Given(env, hs) && k <= |hs| && Inv(env, hs, k, v, reached, NOBODY, 0)
    requires Least(v.queue, x) && x.to <= reached
    requires env.onEvent(AfterDelivery(env, v, x).trace) == CH_CALLBACK_SKIP_PATTERN
    ensures Inv(env, hs, k, WithScanStart(AfterDelivery(env, v, x), x.id, env.Length()), reached, NOBODY, 0)
  {
    var u := AfterDelivery(env, v, x);
    var w := WithScanStart(u, x.id, env.Length());
    DeliveryIsTimely(env, hs, k, v, reached, x);
    DeliveryAdvances(env, hs, k, v, reached, x);
    assert Shape(env, w) by {
      assert forall y :: y in w.queue ==> y.id != x.id;
      forall y | y in w.queue
        ensures QueuedOk(env, w, y)
      {
        assert QueuedOk(env, v, y);
      }
    }
    assert !Queued(w, x.id);
    forall id: nat | id < env.Count()
      ensures OnTrack(env, w, id, NOBODY, 0)
    {
      if id != x.id {
        SameTraceOthers(env, v, x, id);
        assert OnTrack(env, v, id, NOBODY, 0);
        OthersUnmoved(env, v, w, id, NOBODY, 0);
      }
    }
    SyncAfterPop(env, hs, k, v, w, x, NOBODY);
  }

  /** What the runtime itself reads off the invariant. */
  lemma Basics(env: Env, hs: seq<HsMatch>, k: nat, v: View, reached: nat, hand: int, resume: nat)
    requires Given(env, hs) && k <= |hs| && Inv(env, hs, k, v, reached, hand, resume)
    ensures Shape(env, v) && Sound(env, v.trace) && Unstopped(env, v.trace) && DeliveredBy(v.trace, reached)
    ensures hand != NOBODY ==> 0 <= hand < env.Count() && hand in v.active && !Queued(v, hand) &&
                               |v.queue| < env.Count()
    ensures InSync(env, hs, k, v, hand)
  {
    InvIsSound(env, hs, k, v, reached, hand, resume);
    if hand != NOBODY {
      QueueHasRoom(env, v, hand);
    }
  }

  /** A delivery, for every answer of the callback. */
  lemma DeliveryLemma(env: Env, hs: seq<HsMatch>, k: nat, v: View, reached: nat, x: Item)
    requires Given(env, hs) && k <= |hs| && Inv(env, hs, k, v, reached, NOBODY, 0)
    requires Least(v.queue, x) && x.to <= reached
    ensures var w := AfterDelivery(env, v, x);
            var answer := env.onEvent(w.trace);
            && Sound(env, w.trace) && |w.queue| < env.Count() && !Queued(w, x.id) && OnlyMoved(v, w, x.id)
            && x.id < env.Count() && x.to <= v.pats[x.id].scanStart <= env.Length() + 1
            && DeliveredBy(w.trace, v.pats[x.id].scanStart)
            && (answer != CH_CALLBACK_TERMINATE ==> Unstopped(env, w.trace))
            && (answer == CH_CALLBACK_SKIP_PATTERN ==>
                  Inv(env, hs, k, WithScanStart(w, x.id, env.Length()), reached, NOBODY, 0))
            && (answer != CH_CALLBACK_TERMINATE && answer != CH_CALLBACK_SKIP_PATTERN ==>
                  if env.patterns[x.id].singleMatch then Inv(env, hs, k, w, reached, NOBODY, 0)
                  else Inv(env, hs, k, w, reached, x.id, v.pats[x.id].scanStart))
  {
    var w := AfterDelivery(env, v, x);
    var answer := env.onEvent(w.trace);
    assert QueuedOk(env, v, x);
    DeliveryIsSound(env, hs, k, v, reached, x);
    DeliveryIsTimely(env, hs, k, v, reached, x);
    QueueHasRoom(env, w, x.id);
    assert DeliveredBy(w.trace, v.pats[x.id].scanStart) by {
      assert DeliveredBy(w.trace, x.to);
    }
    if answer == CH_CALLBACK_SKIP_PATTERN {
      DeliverySkips(env, hs, k, v, reached, x);
    } else if answer != CH_CALLBACK_TERMINATE {
      DeliveryContinues(env, hs, k, v, reached, x);
    }
  }

  lemma WeightDrops(env: Env, v: View, w: View, x: Item)
    requires Shape(env, v) && x in v.queue && |w.pats| == |v.pats|
    requires Queued(w, x.id) ==> w.pats[x.id].scanStart > v.pats[x.id].scanStart
    ensures Weight(env, w, x.id) < Weight(env, v, x.id)
  {
    assert QueuedOk(env, v, x) && Queued(v, x.id);
  }

  // ----- the pattern in hand is rescanned

  /** A match of the pattern in hand enters the queue. */
  ghost function WithMatch(env: Env, v: View, id: nat, from: nat, to: nat, groups: seq<Capture>): View
    requires id < env.Count() == |v.pats| && from <= to <= env.Length()
  {
    v.(queue := v.queue + {Item(from, to, id)},
       pats := v.pats[id := PatternData(env.NextStart(id, from, to), groups)])
  }

  lemma Requeue(env: Env, hs: seq<HsMatch>, k: nat, v: View, reached: nat, id: nat, resume: nat)
    requires Given(env, hs) && k <= |hs| && id < env.Count() && resume <= env.Length()
    requires Inv(env, hs, k, v, reached, id, resume)
    requires env.pcre(id, resume).Hit?
    requires DeliveredBy(v.trace, env.pcre(id, resume).to)
    requires k == 0 || v.pats[id].scanStart <= resume
    ensures var h := env.pcre(id, resume);
            Inv(env, hs, k, WithMatch(env, v, id, h.from, h.to, env.Groups(h.groups)), reached, NOBODY, 0)
  {
    var h := env.pcre(id, resume);
    var w := WithMatch(env, v, id, h.from, h.to, env.Groups(h.groups));
    var x := Item(h.from, h.to, id);
    assert OnTrack(env, v, id, id, resume);
    RequeuedShape(env, v, w, x);
    forall p: nat | p < env.Count()
      ensures OnTrack(env, w, p, NOBODY, 0)
    {
      assert OnTrack(env, v, p, id, resume);
      if p == id {
        assert Queued(w, id);
        assert forall y :: y in w.queue && y.id == id ==> y == x;
      } else {
        TrackWithoutHand(env, v, p, id, resume);
        OthersUnmoved(env, v, w, p, NOBODY, 0);
      }
    }
    forall p | p in w.active && p !in env.unguarded && !Queued(w, p)
      ensures Spent(env, w, p)
    {
      assert p == id ==> x in w.queue;
      RequeueKeepsOthersQueued(v, w, x, p);
      assert Spent(env, v, p);
    }
    forall j | 0 <= j < k
      ensures Passed(env, w, hs[j])
    {
      assert Passed(env, v, hs[j]);
    }
  }

  lemma RequeuedShape(env: Env, v: View, w: View, x: Item)
    requires Shape(env, v) && x.id in v.active && !Queued(v, x.id) && x.from <= x.to <= env.Length()
    requires w.active == v.active && w.trace == v.trace && w.queue == v.queue + {x} && |w.pats| == |v.pats|
    requires w.pats[x.id].scanStart == env.NextStart(x.id, x.from, x.to)
    requires forall p :: 0 <= p < env.Count() && p != x.id ==> w.pats[p] == v.pats[p]
    ensures Shape(env, w)
  {
    forall y | y in w.queue
      ensures QueuedOk(env, w, y)
    {
      if y != x {
        assert QueuedOk(env, v, y) && y.id != x.id;
      }
    }
  }

  lemma RequeueKeepsOthersQueued(v: View, w: View, x: Item, p: nat)
    requires w.queue == v.queue + {x} && p != x.id
    ensures Queued(w, p) == Queued(v, p)
  {
    if Queued(v, p) {
      var y :| y in v.queue && y.id == p;
      assert y in w.queue;
    }
  }

  lemma TrackWithoutHand(env: Env, v: View, p: nat, hand: int, resume: nat)
    requires env.PcreContract() && Shape(env, v) && p < env.Count() && p != hand
    requires OnTrack(env, v, p, hand, resume)
    ensures OnTrack(env, v, p, NOBODY, 0)
  {
  }

  /** Nothing more is expected of the pattern in hand; if it is fixed-width it must be parked. */
  lemma Finish(env: Env, hs: seq<HsMatch>, k: nat, v: View, reached: nat, id: nat, resume: nat, s: nat)
    requires Given(env, hs) && k <= |hs| && id < env.Count()
    requires Inv(env, hs, k, v, reached, id, resume)
    requires env.Expected(id, resume) == []
    requires s == v.pats[id].scanStart || s == env.Length()
    requires id in env.unguarded || env.NeedsConfirm(id) || s >= env.Length()
    ensures Inv(env, hs, k, WithScanStart(v, id, s), reached, NOBODY, 0)
  {
    var w := WithScanStart(v, id, s);
    assert Shape(env, w) by {
      forall y | y in w.queue
        ensures QueuedOk(env, w, y)
      {
        assert QueuedOk(env, v, y) && y.id != id;
      }
    }
    forall p: nat | p < env.Count()
      ensures OnTrack(env, w, p, NOBODY, 0)
    {
      assert OnTrack(env, v, p, id, resume);
      if p == id {
        assert !Queued(w, id);
        assert Delivered(v.trace, id) + [] == Delivered(v.trace, id);
      } else {
        TrackWithoutHand(env, v, p, id, resume);
        OthersUnmoved(env, v, w, p, NOBODY, 0);
      }
    }
    forall p | p in w.active && p !in env.unguarded && !Queued(w, p)
      ensures Spent(env, w, p)
    {
      assert Queued(w, p) == Queued(v, p);
      assert p != id ==> Spent(env, v, p);
    }
    forall j | 0 <= j < k
      ensures Passed(env, w, hs[j])
    {
      assert Passed(env, v, hs[j]) && HsInRange(env, hs[j]);
    }
  }

  /** An error reported to the user that does not stop the scan changes nobody's progress. */
  lemma FaultKeepsInv(env: Env, hs: seq<HsMatch>, k: nat, v: View, reached: nat, hand: int, resume: nat, e: Event)
    requires Given(env, hs) && k <= |hs| && Inv(env, hs, k, v, reached, hand, resume) && e.Fault?
    ensures Sound(env, v.trace + [e])
    ensures !Stopped(env, v.trace + [e], |v.trace|) ==>
              Inv(env, hs, k, v.(trace := v.trace + [e]), reached, hand, resume)
  {
    var w := v.(trace := v.trace + [e]);
    ObedientAppend(env, v.trace, e);
    assert Shape(env, w) by {
      forall y | y in w.queue
        ensures QueuedOk(env, w, y)
      {
        assert QueuedOk(env, v, y);
      }
    }
    forall p: nat | p < env.Count()
      ensures OnTrack(env, w, p, hand, resume) && Delivered(w.trace, p) <= env.Expected(p, 0)
    {
      FaultMovesNobody(env, v, w, e, p, hand, resume);
    }
    assert Timely(w, reached);
    SyncIgnoresTrace(env, hs, k, v, w, hand);
  }

  lemma FaultIsNoMatch(env: Env, trace: seq<Event>, e: Event, p: nat)
    requires e.Fault?
    ensures Delivered(trace + [e], p) == Delivered(trace, p)
    ensures Skipped(env, trace + [e], p) == Skipped(env, trace, p)
  {
    DeliveredAppend(trace, e, p);
    SkippedAppend(env, trace, e, p);
  }

  lemma FaultMovesNobody(env: Env, v: View, w: View, e: Event, p: nat, hand: int, resume: nat)
    requires env.PcreContract() && Shape(env, v) && Shape(env, w) && p < env.Count()
    requires e.Fault? && w == v.(trace := v.trace + [e]) && OnTrack(env, v, p, hand, resume)
    ensures OnTrack(env, w, p, hand, resume) && Delivered(w.trace, p) <= env.Expected(p, 0)
  {
    hide Delivered, Skipped, Shape;
    FaultIsNoMatch(env, v.trace, e, p);
    if p != hand {
      hide Env.Expected;
      TrackWithoutHand(env, v, p, hand, resume);
      OthersUnmoved(env, v, w, p, hand, resume);
    }
    TrackIsPrefix(env, w, p, hand, resume);
  }

  lemma SyncIgnoresTrace(env: Env, hs: seq<HsMatch>, k: nat, v: View, w: View, hand: int)
    requires Given(env, hs) && k <= |hs| && Shape(env, v) && Shape(env, w) && w == v.(trace := w.trace)
    requires InSync(env, hs, k, v, hand)
    ensures InSync(env, hs, k, w, hand)
  {
    forall p | p in w.active && p !in env.unguarded && p != hand && !Queued(w, p)
      ensures Spent(env, w, p)
    {
      assert !Queued(v, p);
      assert Spent(env, v, p);
    }
    forall j | 0 <= j < k
      ensures Passed(env, w, hs[j])
    {
      assert Passed(env, v, hs[j]);
    }
  }

  // ----- Hyperscan callbacks

  /** A pattern seen for the first time comes into hand, to be scanned from the beginning. */
  lemma Activate(env: Env, hs: seq<HsMatch>, k: nat, v: View, reached: nat, id: nat, s: nat)
    requires Given(env, hs) && k <= |hs| && id < env.Count() && id !in v.active
    requires Inv(env, hs, k, v, reached, NOBODY, 0)
    requires id in env.unguarded || s <= env.Length() + 1
    ensures Inv(env, hs, k, WithScanStart(v, id, s).(active := v.active + {id}), reached, id, 0)
  {
    var w := WithScanStart(v, id, s).(active := v.active + {id});
    assert Shape(env, w) by {
      forall y | y in w.queue
        ensures QueuedOk(env, w, y)
      {
        assert QueuedOk(env, v, y) && y.id != id;
      }
    }
    assert OnTrack(env, v, id, NOBODY, 0);
    NotSkippedUnseen(env, v, id);
    forall p: nat | p < env.Count()
      ensures OnTrack(env, w, p, id, 0)
    {
      assert OnTrack(env, v, p, NOBODY, 0);
      if p != id {
        OthersUnmoved(env, v, w, p, id, 0);
      }
    }
    forall p | p in w.active && p !in env.unguarded && p != id && !Queued(w, p)
      ensures Spent(env, w, p)
    {
      assert Queued(w, p) == Queued(v, p);
      assert Spent(env, v, p);
    }
    forall j | 0 <= j < k
      ensures hs[j].id in w.active && Passed(env, w, hs[j])
    {
      assert hs[j].id in v.active && Passed(env, v, hs[j]);
    }
  }

  lemma NotSkippedUnseen(env: Env, v: View, id: nat)
    requires Delivered(v.trace, id) == []
    ensures !Skipped(env, v.trace, id)
  {
    if Skipped(env, v.trace, id) {
      var i :| 0 <= i < |v.trace| && SkippedAt(env, v.trace, i, id);
      DeliveredOccurs(v.trace, i);
    }
  }

  /** The next Hyperscan callback has been dealt with. */
  lemma NextCallback(env: Env, hs: seq<HsMatch>, k: nat, v: View, reached: nat)
    requires Given(env, hs) && k < |hs| && Inv(env, hs, k, v, reached, NOBODY, 0)
    requires hs[k].id in v.active && Passed(env, v, hs[k])
    ensures Inv(env, hs, k + 1, v, reached, NOBODY, 0)
  {
    forall j | 0 <= j < k + 1
      ensures hs[j].id in v.active && Passed(env, v, hs[j])
    {
      assert j < k ==> Passed(env, v, hs[j]);
    }
  }

  lemma ReachFurther(env: Env, hs: seq<HsMatch>, k: nat, v: View, reached: nat, further: nat, hand: int, resume: nat)
    requires Given(env, hs) && k <= |hs| && Inv(env, hs, k, v, reached, hand, resume) && reached <= further
    ensures Inv(env, hs, k, v, further, hand, resume)
  {
    assert DeliveredBy(v.trace, further) by {
      assert DeliveredBy(v.trace, reached);
    }
  }

  /** Every earlier report of the same pattern starts before s. */
  ghost predicate OthersBefore(hs: seq<HsMatch>, k: nat, s: nat)
    requires k < |hs|
  {
    forall i :: 0 <= i < k && hs[i].id == hs[k].id ==> hs[i].from < s
  }

  lemma PassedAreBefore(env: Env, hs: seq<HsMatch>, k: nat, v: View, reached: nat, hand: int, resume: nat)
    requires Given(env, hs) && k < |hs| && Inv(env, hs, k, v, reached, hand, resume)
    requires !env.NeedsConfirm(hs[k].id) && !env.patterns[hs[k].id].singleMatch
    ensures OthersBefore(hs, k, v.pats[hs[k].id].scanStart)
  {
    forall i | 0 <= i < k && hs[i].id == hs[k].id
      ensures hs[i].from < v.pats[hs[k].id].scanStart
    {
      assert Passed(env, v, hs[i]) && HsInRange(env, hs[i]);
    }
  }

  /** A report of an active fixed-width pattern that passes the width test: a match that ends by then is queued. */
  lemma ReportIsQueued(env: Env, hs: seq<HsMatch>, k: nat, v: View)
    requires Given(env, hs) && k < |hs| && HsInRange(env, hs[k]) && Inv(env, hs, k, v, hs[k].to, NOBODY, 0)
    requires !env.NeedsConfirm(hs[k].id) && hs[k].id in v.active && !env.patterns[hs[k].id].singleMatch
    requires hs[k].to >= v.pats[hs[k].id].scanStart + env.patterns[hs[k].id].minWidth
    ensures |v.pats| == env.Count() && hs[k].id < env.Count() && hs[k].id < ALL_ONES
    ensures exists x :: x in v.queue && x.id == hs[k].id && x.to <= hs[k].to
    ensures v.pats[hs[k].id].scanStart < env.Length() &&
            v.pats[hs[k].id].scanStart <= hs[k].from <= hs[k].to <= env.Length()
    ensures OthersBefore(hs, k, v.pats[hs[k].id].scanStart) && Sound(env, v.trace)
  {
    hide Inv, Sound;
    var id := hs[k].id;
    Basics(env, hs, k, v, hs[k].to, NOBODY, 0);
    PassedAreBefore(env, hs, k, v, hs[k].to, NOBODY, 0);
    assert Queued(v, id);
    var x :| x in v.queue && x.id == id;
    assert QueuedOk(env, v, x);
  }

  /** For a fixed-width pattern in hand, the callback at hand is PCRE's next match. */
  lemma CallbackIsNextMatch(env: Env, hs: seq<HsMatch>, k: nat, v: View, reached: nat, resume: nat)
    requires Given(env, hs) && k < |hs| && HsInRange(env, hs[k]) && !env.NeedsConfirm(hs[k].id)
    requires Inv(env, hs, k, v, reached, hs[k].id, resume)
    requires resume <= hs[k].from && OthersBefore(hs, k, resume)
    ensures env.pcre(hs[k].id, resume).Hit? && HitIs(env, env.pcre(hs[k].id, resume), hs[k])
  {
    var id := hs[k].id;
    assert FixedWidthAgrees(env, hs, id);
    assert env.pcre(id, resume).Hit?;
    var j: nat :| FirstFrom(hs, j, resume) && hs[j].id == id && HitIs(env, env.pcre(id, resume), hs[j]);
    assert j == k;
  }

  /** A prefiltered pattern seen for the first time matches no earlier than where Hyperscan now is. */
  lemma FirstMatchNotPast(env: Env, hs: seq<HsMatch>, k: nat, v: View, reached: nat)
    requires Given(env, hs) && k < |hs| && HsInRange(env, hs[k]) && env.NeedsConfirm(hs[k].id)
    requires Inv(env, hs, k, v, reached, NOBODY, 0) && hs[k].id !in v.active
    requires env.pcre(hs[k].id, 0).Hit?
    ensures hs[k].to <= env.pcre(hs[k].id, 0).to
  {
    assert Prefiltered(env, hs, hs[k].id);
    var j :| 0 <= j < |hs| && hs[j].id == hs[k].id && hs[j].to <= env.pcre(hs[k].id, 0).to;
    assert forall i :: 0 <= i < k ==> hs[i].id in v.active;
    assert j >= k;
  }

  // ----- the start and the end of the scan

  /** At the start nothing is active, queued or delivered. */
  lemma Nothing(env: Env, hs: seq<HsMatch>, v: View)
    requires Given(env, hs) && v.queue == {} && v.active == {} && v.trace == [] && |v.pats| == env.Count()
    ensures Inv(env, hs, 0, v, 0, NOBODY, 0)
  {
  }

  lemma AllUnguarded(env: Env, m: HsMatch)
    requires DbContract(env) && env.noMultiMatch
    ensures !HsInRange(env, m)
  {
  }

  /** Without guarded patterns Hyperscan has nothing to report. */
  lemma NoGuarded(env: Env, hs: seq<HsMatch>)
    requires Given(env, hs) && env.noMultiMatch
    ensures hs == []
  {
    hide HsInRange, DbContract;
    if hs != [] {
      AllUnguarded(env, hs[0]);
    }
  }

  /** With the queue flushed and Hyperscan done, every pattern not skipped is complete. */
  lemma FlushedIsComplete(env: Env, hs: seq<HsMatch>, k: nat, v: View, reached: nat, id: nat)
    requires Given(env, hs) && k <= |hs| && id < env.Count()
    requires Inv(env, hs, k, v, reached, NOBODY, 0) && v.queue == {}
    requires forall i :: 0 <= i < |env.unguarded| ==> env.unguarded[i] in v.active
    requires k == |hs| || forall p: nat :: p < env.Count() ==> p in v.active
    ensures Skipped(env, v.trace, id) || Delivered(v.trace, id) == env.Expected(id, 0)
  {
    assert OnTrack(env, v, id, NOBODY, 0);
    if id !in v.active {
      assert id !in env.unguarded;
      assert k == |hs|;
      assert forall j :: 0 <= j < |hs| ==> hs[j].id in v.active;
      if env.NeedsConfirm(id) {
        assert Prefiltered(env, hs, id);
      } else {
        assert FixedWidthAgrees(env, hs, id);
      }
      assert env.pcre(id, 0).Miss?;
    }
  }

  // ----- one call of scanPcre

  /** What handlePcreNonMatch appends to the trace, and what it returns. */
  ghost function MissTrace(env: Env, trace: seq<Event>, id: nat, rv: int): seq<Event>
    requires id < env.Count()
  {
    if rv == PCRE_ERROR_MATCHLIMIT && env.onError.Some?
    then trace + [Fault(CH_ERROR_MATCHLIMIT, env.patterns[id].userId)]
    else if rv == PCRE_ERROR_RECURSIONLIMIT && env.onError.Some?
    then trace + [Fault(CH_ERROR_RECURSIONLIMIT, env.patterns[id].userId)]
    else trace
  }

  ghost function MissCode(env: Env, trace: seq<Event>, id: nat, rv: int): int
    requires id < env.Count()
  {
    if rv == PCRE_ERROR_NOMATCH then CH_SUCCESS
    else if rv == PCRE_ERROR_MATCHLIMIT || rv == PCRE_ERROR_RECURSIONLIMIT then
      if env.onError.Some? then env.onError.value(MissTrace(env, trace, id, rv)) else CH_SUCCESS
    else CH_FAIL_INTERNAL
  }

  // ----- why a scan fails

  /** PCRE answers with a code that is no match, no match limit and no recursion limit. */
  ghost predicate FatalAt(env: Env, id: nat, s: nat) {
    env.pcre(id, s).Miss? &&
    env.pcre(id, s).rv !in {PCRE_ERROR_NOMATCH, PCRE_ERROR_MATCHLIMIT, PCRE_ERROR_RECURSIONLIMIT}
  }

  ghost predicate FatalPcre(env: Env) {
    exists id: nat, s: nat :: id < env.Count() && s <= env.Length() && FatalAt(env, id, s)
  }

  /** A UTF-8 pattern meets data that is not UTF-8. */
  ghost predicate BadUtf8(env: Env, id: nat)
    requires id < env.Count()
  {
    env.patterns[id].utf8 && env.Length() > 0 && !env.validUtf8(0, env.Length())
  }

  ghost predicate AnyBadUtf8(env: Env) {
    exists id: nat :: id < env.Count() && BadUtf8(env, id)
  }

  /** The error callback answered event i with `code`. */
  ghost predicate FaultAnswered(env: Env, trace: seq<Event>, i: nat, code: int)
    requires i < |trace|
  {
    trace[i].Fault? && env.onError.Some? && env.onError.value(trace[..i + 1]) == code
  }

  /** An answer of the error callback other than to go on or to skip the pattern. */
  ghost predicate ErrorAnswer(env: Env, trace: seq<Event>, code: int) {
    code != CH_SUCCESS && code != CH_CALLBACK_SKIP_PATTERN &&
    exists i :: 0 <= i < |trace| && FaultAnswered(env, trace, i, code)
  }

  /** `rc` is success, or has a cause: a stop, a fatal PCRE code, bad UTF-8, or the error callback's own answer. */
  ghost predicate Excused(env: Env, trace: seq<Event>, rc: int) {
    || rc == CH_SUCCESS
    || (rc == CH_SCAN_TERMINATED && !Unstopped(env, trace))
    || (rc == CH_FAIL_INTERNAL && (FatalPcre(env) || AnyBadUtf8(env)))
    || ErrorAnswer(env, trace, rc)
  }

  /** The same of a code as scanPcre returns it, where a stop is still the callback's answer. */
  ghost predicate RawExcused(env: Env, trace: seq<Event>, rc: int) {
    || rc == CH_CALLBACK_SKIP_PATTERN
    || (rc == CH_CALLBACK_TERMINATE && !Unstopped(env, trace))
    || Excused(env, trace, rc)
  }

  /** What the Hyperscan callback leaves in the scratch: a stop there is the callback's answer, too. */
  ghost predicate RetExcused(env: Env, trace: seq<Event>, ret: int) {
    (ret == CH_CALLBACK_TERMINATE && !Unstopped(env, trace)) || Excused(env, trace, ret)
  }

  lemma StopIsExcused(env: Env, trace: seq<Event>)
    requires RetExcused(env, trace, CH_CALLBACK_TERMINATE)
    ensures Excused(env, trace, CH_SCAN_TERMINATED)
  {
    if Unstopped(env, trace) {
      ErrorStops(env, trace);
    }
  }

  /** The code that the callers of scanPcre make of its answer. */
  lemma RawIsExcused(env: Env, trace: seq<Event>, rc: int)
    requires RawExcused(env, trace, rc) && (rc == CH_CALLBACK_TERMINATE ==> !Unstopped(env, trace))
    ensures rc == CH_CALLBACK_TERMINATE ==> Excused(env, trace, CH_SCAN_TERMINATED)
    ensures rc != CH_CALLBACK_TERMINATE && rc != CH_CALLBACK_SKIP_PATTERN ==> Excused(env, trace, rc)
    ensures rc != CH_CALLBACK_SKIP_PATTERN ==> RetExcused(env, trace, rc)
    ensures Excused(env, trace, CH_SUCCESS) && RetExcused(env, trace, CH_SUCCESS)
  {
  }

  lemma OtherIsExcused(env: Env, trace: seq<Event>, ret: int)
    requires RetExcused(env, trace, ret) && ret != CH_CALLBACK_TERMINATE
    ensures Excused(env, trace, ret)
  {
  }

  lemma SuccessIsExcused(env: Env)
    ensures forall t :: Excused(env, t, CH_SUCCESS) && RetExcused(env, t, CH_SUCCESS)
    ensures forall t, rc :: Excused(env, t, rc) ==> RetExcused(env, t, rc)
  {
  }

  lemma ErrorStops(env: Env, trace: seq<Event>)
    requires ErrorAnswer(env, trace, CH_CALLBACK_TERMINATE)
    ensures !Unstopped(env, trace)
  {
    var i :| 0 <= i < |trace| && FaultAnswered(env, trace, i, CH_CALLBACK_TERMINATE);
    assert Stopped(env, trace, i);
  }

  /** Whatever scanPcre returns has a cause. */
  lemma ScanIsExcused(env: Env, v: View, w: View, id: nat, start: nat, rc: int, rejected: bool)
    requires id < env.Count() == |v.pats| && start <= env.Length() && env.PcreContract()
    requires ScanOutcome(env, v, w, id, start, rc, rejected) && (rejected ==> BadUtf8(env, id))
    ensures RawExcused(env, w.trace, rc)
    ensures rc == CH_CALLBACK_TERMINATE ==> !Unstopped(env, w.trace)
  {
    if !rejected && env.pcre(id, start).Miss? {
      var rv := env.pcre(id, start).rv;
      if w.trace != v.trace {
        assert w.trace[..|v.trace| + 1] == w.trace;
        assert FaultAnswered(env, w.trace, |v.trace|, rc);
        if rc == CH_CALLBACK_TERMINATE {
          ErrorStops(env, w.trace);
        }
      } else if rc == CH_FAIL_INTERNAL {
        assert FatalAt(env, id, start);
      }
    }
  }

  /** A delivery that the callback answers with a stop. */
  lemma DeliveryStops(env: Env, v: View, x: Item)
    requires Shape(env, v) && x in v.queue
    requires env.onEvent(AfterDelivery(env, v, x).trace) == CH_CALLBACK_TERMINATE
    ensures Excused(env, AfterDelivery(env, v, x).trace, CH_SCAN_TERMINATED)
  {
    var t := AfterDelivery(env, v, x).trace;
    assert t[..|v.trace| + 1] == t;
    assert Stopped(env, t, |v.trace|);
  }

  /** Every callback made so far was answered with going on; after a fault the pattern may be skipped. */
  ghost predicate Willing(env: Env, trace: seq<Event>) {
    forall i :: 0 <= i < |trace| ==> WillingAt(env, trace, i)
  }

  ghost predicate WillingAt(env: Env, trace: seq<Event>, i: nat)
    requires i < |trace|
  {
    if trace[i].Match? then env.onEvent(trace[..i + 1]) !in {CH_CALLBACK_TERMINATE, CH_CALLBACK_SKIP_PATTERN}
    else env.onError.Some? ==> env.onError.value(trace[..i + 1]) in {CH_SUCCESS, CH_CALLBACK_SKIP_PATTERN}
  }

  /** With willing callbacks only PCRE and the data can make a scan fail, and no pattern is skipped. */
  lemma WillingSucceeds(env: Env, trace: seq<Event>, rc: int)
    requires Willing(env, trace) && !FatalPcre(env) && !AnyBadUtf8(env) && Excused(env, trace, rc)
    ensures rc == CH_SUCCESS && forall id: nat :: !Skipped(env, trace, id)
  {
    forall i | 0 <= i < |trace|
      ensures !Stopped(env, trace, i) && (FaultAnswered(env, trace, i, rc) ==> !ErrorAnswer(env, trace, rc))
    {
      assert WillingAt(env, trace, i);
    }
    forall i, id: nat | 0 <= i < |trace| ensures !SkippedAt(env, trace, i, id) {
      assert WillingAt(env, trace, i);
    }
  }

  /** The state w and code rc that scanPcre may leave from v; `rejected` when the data is not UTF-8. */
  ghost predicate ScanOutcome(env: Env, v: View, w: View, id: nat, start: nat, rc: int, rejected: bool)
    requires id < env.Count() == |v.pats| && start <= env.Length() && env.PcreContract()
  {
    if rejected then w == v && rc == CH_FAIL_INTERNAL
    else match env.pcre(id, start)
      case Miss(rv) =>
        w == v.(trace := MissTrace(env, v.trace, id, rv)) && rc == MissCode(env, v.trace, id, rv)
      case Hit(from, to, groups) =>
        w == WithMatch(env, v, id, from, to, env.Groups(groups)) && rc == CH_SUCCESS
  }

  lemma AfterScan(env: Env, hs: seq<HsMatch>, k: nat, v: View, w: View, reached: nat,
                  id: nat, resume: nat, rc: int, rejected: bool)
    requires Given(env, hs) && k <= |hs| && id < env.Count() && resume <= env.Length()
    requires Inv(env, hs, k, v, reached, id, resume)
    requires ScanOutcome(env, v, w, id, resume, rc, rejected)
    requires env.pcre(id, resume).Hit? ==> DeliveredBy(v.trace, env.pcre(id, resume).to)
    requires k == 0 || v.pats[id].scanStart <= resume
    ensures Sound(env, w.trace)
    ensures rc != CH_CALLBACK_TERMINATE ==> Unstopped(env, w.trace)
    ensures !rejected && env.pcre(id, resume).Hit? ==> Inv(env, hs, k, w, reached, NOBODY, 0)
    ensures !rejected && env.pcre(id, resume).Miss? && rc != CH_CALLBACK_TERMINATE ==>
              Inv(env, hs, k, w, reached, id, resume) && env.Expected(id, resume) == []
  {
    if rejected {
      InvIsSound(env, hs, k, v, reached, id, resume);
    } else if env.pcre(id, resume).Hit? {
      Requeue(env, hs, k, v, reached, id, resume);
      InvIsSound(env, hs, k, w, reached, NOBODY, 0);
    } else if w.trace == v.trace {
      InvIsSound(env, hs, k, v, reached, id, resume);
    } else {
      var e := w.trace[|v.trace|];
      assert w.trace == v.trace + [e];
      assert w.trace[..|v.trace| + 1] == w.trace;
      FaultKeepsInv(env, hs, k, v, reached, id, resume, e);
      ObedientAppend(env, v.trace, e);
    }
  }

  /** After a scan: a hit is queued; after a miss the pattern may be parked, or left if it needs no parking. */
  lemma ScanLemma(env: Env, hs: seq<HsMatch>, k: nat, v: View, w: View, reached: nat,
                  id: nat, resume: nat, rc: int, rejected: bool)
    requires Given(env, hs) && k <= |hs| && id < env.Count() && resume <= env.Length()
    requires Inv(env, hs, k, v, reached, id, resume)
    requires ScanOutcome(env, v, w, id, resume, rc, rejected)
    requires env.pcre(id, resume).Hit? ==> DeliveredBy(v.trace, env.pcre(id, resume).to)
    requires k == 0 || v.pats[id].scanStart <= resume
    ensures Sound(env, w.trace) && OnlyMoved(v, w, id) && |w.pats| == |v.pats|
    ensures rc != CH_CALLBACK_TERMINATE ==> Unstopped(env, w.trace)
    ensures !rejected && env.pcre(id, resume).Hit? ==>
              && Inv(env, hs, k, w, reached, NOBODY, 0) && rc == CH_SUCCESS
              && |w.queue| == |v.queue| + 1 && w.pats[id].scanStart > resume
    ensures rejected || env.pcre(id, resume).Miss? ==> w.queue == v.queue && w.pats == v.pats
    ensures rejected ==> rc == CH_FAIL_INTERNAL
    ensures !rejected && env.pcre(id, resume).Miss? && rc != CH_CALLBACK_TERMINATE ==>
              && Inv(env, hs, k, WithScanStart(w, id, env.Length()), reached, NOBODY, 0)
              && (id in env.unguarded || env.NeedsConfirm(id) ==> Inv(env, hs, k, w, reached, NOBODY, 0))
  {
    AfterScan(env, hs, k, v, w, reached, id, resume, rc, rejected);
    if !rejected && env.pcre(id, resume).Hit? {
      var h := env.pcre(id, resume);
      assert Item(h.from, h.to, id) !in v.queue;
    } else if !rejected && rc != CH_CALLBACK_TERMINATE {
      Finish(env, hs, k, w, reached, id, resume, env.Length());
      if id in env.unguarded || env.NeedsConfirm(id) {
        Finish(env, hs, k, w, reached, id, resume, w.pats[id].scanStart);
        assert WithScanStart(w, id, w.pats[id].scanStart) == w;
      }
    }
  }

  // ----- why catching up ends

  ghost function Weight(env: Env, v: View, id: nat): int
    requires id < |v.pats|
  {
    if Queued(v, id) then env.Length() + 2 - v.pats[id].scanStart else 0
  }

  /** The distance all queued patterns still have to go. */
  ghost function Potential(env: Env, v: View, n: nat): int
    requires n <= |v.pats|
  {
    if n == 0 then 0 else Potential(env, v, n - 1) + Weight(env, v, n - 1)
  }

  lemma {:induction false} PotentialNotNegative(env: Env, v: View, n: nat)
    requires Shape(env, v) && n <= |v.pats|
    ensures Potential(env, v, n) >= 0
  {
    if n > 0 {
      PotentialNotNegative(env, v, n - 1);
      if Queued(v, n - 1) {
        var x :| x in v.queue && x.id == n - 1;
        assert QueuedOk(env, v, x);
      }
    }
  }

  /** v and w differ only in what concerns pattern id. */
  ghost predicate OnlyMoved(v: View, w: View, id: nat) {
    && |w.pats| == |v.pats|
    && (forall p :: 0 <= p < |v.pats| && p != id ==> w.pats[p] == v.pats[p])
    && (forall y: Item :: y.id != id ==> (y in w.queue <==> y in v.queue))
  }

  /** Taking a pattern out of the queue, or putting it back with a later start, uses up potential. */
  lemma {:induction false} PotentialDrops(env: Env, v: View, w: View, id: nat, n: nat)
    requires OnlyMoved(v, w, id) && id < n <= |v.pats|
    requires Weight(env, w, id) < Weight(env, v, id)
    ensures Potential(env, w, n) < Potential(env, v, n)
  {
    if n - 1 == id {
      PotentialSame(env, v, w, id, id);
    } else {
      PotentialDrops(env, v, w, id, n - 1);
      SameWeight(env, v, w, id, n - 1);
    }
  }

  lemma SameWeight(env: Env, v: View, w: View, id: nat, p: nat)
    requires OnlyMoved(v, w, id) && p < |v.pats| && p != id
    ensures Weight(env, w, p) == Weight(env, v, p)
  {
    assert Queued(w, p) == Queued(v, p);
  }

  lemma {:induction false} PotentialSame(env: Env, v: View, w: View, id: nat, n: nat)
    requires OnlyMoved(v, w, id) && n <= id < |v.pats|
    ensures Potential(env, w, n) == Potential(env, v, n)
  {
    if n > 0 {
      PotentialSame(env, v, w, id, n - 1);
      SameWeight(env, v, w, id, n - 1);
    }
  }

  // ----- why the queue never overflows

  lemma {:induction false} QueueFits(q: set<Item>, n: nat)
    requires forall x :: x in q ==> x.id < n
    requires forall x, y :: x in q && y in q && x.id == y.id ==> x == y
    ensures |q| <= n
  {
    if n > 0 {
      if x :| x in q && x.id == n - 1 {
        QueueFits(q - {x}, n - 1);
      } else {
        QueueFits(q, n - 1);
      }
    } else {
      assert q == {};
    }
  }

  /** While some pattern is not queued there is a free slot. */
  lemma QueueHasRoom(env: Env, v: View, id: nat)
    requires Shape(env, v) && id < env.Count() && !Queued(v, id)
    ensures |v.queue| < env.Count()
  {
    var x := Item(0, 0, id);
    assert x !in v.queue;
    QueueFits(v.queue + {x}, env.Count());
  }

  // ----- what a sound trace means for the user

  /** Two matches of one pattern never overlap and carry that pattern's user id. */
  lemma MatchesNeverOverlap(env: Env, trace: seq<Event>, i: nat, j: nat)
    requires env.PcreContract() && Sound(env, trace)
    requires i < j < |trace| && trace[i].Match? && trace[j].Match? && trace[i].index == trace[j].index
    ensures trace[i].from <= trace[i].to <= trace[j].from <= trace[j].to <= env.Length()
    ensures trace[i].from < trace[j].from
  {
    var id := trace[i].index;
    DeliveredAt(trace, i);
    DeliveredAt(trace, j);
    DeliveredAt(trace[..j], i);
    assert trace[..j][..i] == trace[..i];
    var a, b := |Delivered(trace[..i], id)|, |Delivered(trace[..j], id)|;
    assert a < b;
    ExpectedNeverOverlaps(env, id, 0, a, b);
    ExpectedNeverOverlaps(env, id, 0, b, b);
    assert Delivered(trace, id) <= env.Expected(id, 0);
  }

  /** A sound trace has for each pattern what iterating PCRE finds, all of it where delivery is complete. */
  lemma DeliveredIterates(env: Env, hs: seq<HsMatch>, trace: seq<Event>, rc: int)
    requires Given(env, hs) && Sound(env, trace)
    requires rc == CH_SUCCESS ==>
               forall id: nat :: id < env.Count() ==>
                 Skipped(env, trace, id) || Delivered(trace, id) == env.Expected(id, 0)
    ensures forall id: nat :: id < env.Count() ==>
              Iterates(env, id, 0, Delivered(trace, id), rc == CH_SUCCESS && !Skipped(env, trace, id))
  {
    hide Iterates, Skipped, HsContract, DbContract;
    forall id: nat | id < env.Count()
      ensures Iterates(env, id, 0, Delivered(trace, id), rc == CH_SUCCESS && !Skipped(env, trace, id))
    {
      ExpectedIterates(env, id, 0);
      PrefixIterates(env, id, 0, Delivered(trace, id), env.Expected(id, 0), true);
    }
  }
}
