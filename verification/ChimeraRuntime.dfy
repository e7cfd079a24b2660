/**
 The Chimera runtime itself (chimera/ch_runtime.c): one scan of one block of
 data, its fields updated in place.
 */
module ChimeraRuntime {
  import opened Common
  import opened MatchQueue
  import opened ChimeraModel
  import opened ChimeraInvariant
  import opened ChimeraSteps

  class Scan {
    const env: Env
    const pq: Queue
    var active: set<nat>
    var pats: seq<PatternData>
    var trace: seq<Event>  // the callbacks made so far
    var ret: int
    var utf8Highwater: nat
    var inUse: bool
    ghost var checks: nat  // how often the data has been validated as UTF-8
    ghost var queue: set<Item>  // what pq holds while each pattern is queued at most once

    /** A scratch sized for the database; its pattern data may be left over from an earlier scan. */
    constructor (env: Env, stale: seq<PatternData>)
      requires |stale| == env.Count()
      ensures this.env == env && pats == stale && !inUse && Linked() && trace == []
      ensures fresh(pq) && fresh(pq.item)
    {
      this.env := env;
      pq := new Queue(|env.patterns|);
      active, pats, trace, ret, utf8Highwater, inUse := {}, stale, [], CH_SUCCESS, 0, false;
      queue, checks := {}, 0;
      new;
      assert pq.view == [];
    }

    ghost predicate Linked()
      reads this, pq, pq.item
    {
      && pq.Valid() && pq.item.Length >= env.Count()
      && pq.Contents() == multiset(queue) && pq.size == |queue|
    }

    ghost function Now(): View
      reads this
    {
      View(queue, active, pats, trace)
    }

    /** The data has not been validated yet, or all of it has, once and with success. */
    ghost predicate Utf8Ready()
      reads this
    {
      if utf8Highwater == 0 then checks == 0
      else utf8Highwater == env.Length() && checks == 1 && env.validUtf8(0, env.Length())
    }

    ghost predicate Running(hs: seq<HsMatch>, k: nat, reached: nat, hand: int, resume: nat)
      reads this, pq, pq.item
    {
      Given(env, hs) && k <= |hs| && Linked() && Utf8Ready() && Inv(env, hs, k, Now(), reached, hand, resume)
    }

    lemma TopIsLeast()
      requires Linked() && pq.size > 0
      ensures Least(queue, pq.item[0])
      // the earliest end, among these the earliest start, and among these the first pattern
      ensures forall y :: y in queue ==>
                var x := pq.item[0];
                x.to < y.to || (x.to == y.to && (x.from < y.from || (x.from == y.from && x.id <= y.id)))
    {
      var s := pq.view;
      assert s[0] in multiset(s);
      forall y | y in queue
        ensures !Less(y, s[0])
      {
        assert y in multiset(s);
        var i :| 0 <= i < |s| && s[i] == y;
        RootIsLeast(s, i);
      }
    }

    /** pq_insert_with, for a pattern that is not queued. */
    method Enqueue(x: Item)
      requires Linked() && |queue| < env.Count() && x !in queue
      modifies this`queue, pq, pq.item
      ensures Linked() && queue == old(queue) + {x} && pq.size == old(pq.size) + 1
    {
      pq.Insert(x);
      queue := queue + {x};
    }

    /** handlePcreNonMatch. */
    method HandlePcreNonMatch(id: nat, rv: int) returns (rc: int)
      requires id < env.Count()
      modifies this`trace
      ensures trace == MissTrace(env, old(trace), id, rv) && rc == MissCode(env, old(trace), id, rv)
      // PCRE's match limit (-8) is fault 1, its recursion limit (-21) fault 2
      ensures env.onError.Some? && rv == -8 ==> trace == old(trace) + [Fault(1, env.patterns[id].userId)]
      ensures env.onError.Some? && rv == -21 ==> trace == old(trace) + [Fault(2, env.patterns[id].userId)]
    {
      if rv == PCRE_ERROR_NOMATCH {
        return CH_SUCCESS;
      } else if rv == PCRE_ERROR_MATCHLIMIT {
        if env.onError.Some? {
          trace := trace + [Fault(CH_ERROR_MATCHLIMIT, env.patterns[id].userId)];
          return env.onError.value(trace);
        }
        return CH_SUCCESS;
      } else if rv == PCRE_ERROR_RECURSIONLIMIT {
        if env.onError.Some? {
          trace := trace + [Fault(CH_ERROR_RECURSIONLIMIT, env.patterns[id].userId)];
          return env.onError.value(trace);
        }
        return CH_SUCCESS;
      }
      return CH_FAIL_INTERNAL;
    }

    /** isValidUTF8 of the whole data: remembered after the first time, and right whatever is remembered. */
    method IsValidUtf8() returns (ok: bool)
      requires Utf8Ready()
      modifies this`utf8Highwater, this`checks
      ensures ok <==> env.Length() == 0 || env.validUtf8(0, env.Length())
      ensures ok ==> Utf8Ready()
      ensures checks <= 1
    {
      var end := env.Length();
      if utf8Highwater >= end {
        return true;
      }
      checks := checks + 1;
      if !env.validUtf8(utf8Highwater, end) {
        return false;
      }
      utf8Highwater := end;
      return true;
    }

    /** The start offset of the next scan after a match. */
    method StepPast(id: nat, from: nat, to: nat) returns (start: nat)
      requires id < env.Count() && from <= to <= env.Length()
      ensures start == env.NextStart(id, from, to)
    {
      if from != to {
        start := to;
      } else if env.patterns[id].utf8 {
        start := to + 1;
        while start < env.Length() && env.data[start] & 0xc0 == 0x80
          invariant to + 1 <= start <= env.Length() + 1
          invariant env.SkipContinuation(start) == env.SkipContinuation(to + 1)
        {
          start := start + 1;
        }
      } else {
        start := to + 1;
      }
    }

    /** scanPcre: runs PCRE from start and queues its match. */
    method ScanPcre(id: nat, start: nat) returns (rc: int, ghost rejected: bool)
      requires Linked() && Utf8Ready() && env.PcreContract() && |pats| == env.Count()
      requires id < env.Count() && start <= env.Length()
      requires |queue| < env.Count() && !Queued(Now(), id)
      modifies this`queue, this`pats, this`trace, this`utf8Highwater, this`checks, pq, pq.item
      ensures Linked()
      ensures ScanOutcome(env, old(Now()), Now(), id, start, rc, rejected)
      ensures rejected <==> BadUtf8(env, id)
      ensures checks <= 1 && (!rejected ==> Utf8Ready())
    {
      rejected := false;
      if env.patterns[id].utf8 {
        var ok := IsValidUtf8();
        if !ok {
          rejected := true;
          rc := HandlePcreNonMatch(id, PCRE_ERROR_BADUTF8);
          return;
        }
      }
      match env.pcre(id, start) {
        case Miss(rv) =>
          rc := HandlePcreNonMatch(id, rv);
        case Hit(from, to, groups) =>
          var kept := if env.groupsOn then groups else [];
          Enqueue(Item(from, to, id));
          var next := StepPast(id, from, to);
          pats := pats[id := PatternData(next, kept)];
          rc := CH_SUCCESS;
      }
    }

    /** Pops the least queued match and hands it to the user callback. */
    method DeliverTop() returns (top: Item, answer: int)
      requires Linked() && Shape(env, Now()) && pq.size > 0
      modifies this`queue, this`trace, pq, pq.item
      ensures Linked() && top == old(pq.item[0]) && Least(old(queue), top)
      ensures Now() == AfterDelivery(env, old(Now()), top)
      ensures answer == env.onEvent(trace) && pq.size == old(pq.size) - 1
    {
      TopIsLeast();
      top := pq.item[0];
      assert QueuedOk(env, Now(), top);
      pq.Pop();
      queue := queue - {top};
      trace := trace + [Match(top.id, env.patterns[top.id].userId, top.from, top.to, pats[top.id].groups)];
      answer := env.onEvent(trace);
    }

    /** The rescan of a delivered pattern in catchupPcre. */
    method Rescan(id: nat, numItem: nat, ghost hs: seq<HsMatch>, ghost k: nat, ghost reached: nat)
      returns (rc: int)
      requires id < env.Count() == |pats| && !env.patterns[id].singleMatch
      requires Running(hs, k, reached, id, pats[id].scanStart)
      requires DeliveredBy(trace, pats[id].scanStart) && pq.size == numItem - 1
      requires pats[id].scanStart <= env.Length() + 1
      modifies this`queue, this`pats, this`trace, this`utf8Highwater, this`checks, pq, pq.item
      ensures Linked() && Sound(env, trace) && |pats| == |old(pats)|
      ensures rc == CH_SUCCESS ==> Running(hs, k, reached, NOBODY, 0) && OnlyMoved(old(Now()), Now(), id)
      ensures rc == CH_SUCCESS && Queued(Now(), id) ==> pats[id].scanStart > old(pats[id].scanStart)
      ensures rc != CH_SUCCESS ==> rc in {CH_SCAN_TERMINATED, CH_FAIL_INTERNAL} && |queue| < env.Count()
      ensures rc != CH_SCAN_TERMINATED ==> Unstopped(env, trace)
      ensures Excused(env, trace, rc) && checks <= 1
    {
      hide Inv, Shape, Sound, ScanOutcome, Unstopped, InSync, HsContract, DbContract, Queue.Valid,
        Excused, RawExcused, RetExcused;
      SuccessIsExcused(env);
      var start := pats[id].scanStart;
      ghost var v := Now();
      Basics(env, hs, k, v, reached, id, start);
      if env.Length() < start {
        Finish(env, hs, k, v, reached, id, start, start);
        assert WithScanStart(v, id, start) == v;
        return CH_SUCCESS;
      }
      var ret;
      ghost var rejected;
      ret, rejected := ScanPcre(id, start);
      ghost var w := Now();
      ScanLemma(env, hs, k, v, w, reached, id, start, ret, rejected);
      ScanIsExcused(env, v, Now(), id, start, ret, rejected);
      RawIsExcused(env, trace, ret);
      if ret == CH_CALLBACK_TERMINATE {
        return CH_SCAN_TERMINATED;
      } else if ret == CH_CALLBACK_SKIP_PATTERN {
        pats := pats[id := pats[id].(scanStart := env.Length())];
      } else if ret == CH_FAIL_INTERNAL {
        return ret;
      }
      if pq.size == numItem - 1 {
        pats := pats[id := pats[id].(scanStart := env.Length())];
        assert Now() == WithScanStart(w, id, env.Length());
      }
      return CH_SUCCESS;
    }

    /** Pattern id has a queued match that ends by `to`. */
    ghost predicate QueuedBy(id: nat, to: nat)
      reads this
    {
      exists x :: x in queue && x.id == id && x.to <= to
    }

    /** Pattern id's match has just been delivered: it is in hand, or it was skipped. */
    ghost predicate CaughtUp(id: nat, scanStart: nat, to: nat, hs: seq<HsMatch>, k: nat)
      reads this, pq, pq.item
    {
      && id < |pats| && !Queued(Now(), id)
      && if pats[id].scanStart >= env.Length() then Running(hs, k, to, NOBODY, 0)
         else pats[id].scanStart == scanStart && Running(hs, k, to, id, scanStart)
    }

    /** One round of the loop of catchupPcre. `done` when the match of pattern id was delivered. */
    method CatchupStep(id: nat, to: nat, ghost hs: seq<HsMatch>, ghost k: nat)
      returns (rc: int, done: bool, top: Item)
      requires Running(hs, k, to, NOBODY, 0) && pq.size > 0 && pq.item[0].to <= to
      requires id < env.Count() ==> !env.patterns[id].singleMatch && pats[id].scanStart < env.Length()
      modifies this`queue, this`pats, this`trace, this`utf8Highwater, this`checks, pq, pq.item
      ensures Linked() && Sound(env, trace) && |pats| == |old(pats)| && top.id < |pats|
      ensures rc == CH_SUCCESS && !done ==>
                && Running(hs, k, to, NOBODY, 0) && top.id != id && OnlyMoved(old(Now()), Now(), top.id)
                && Weight(env, Now(), top.id) < Weight(env, old(Now()), top.id)
      ensures rc == CH_SUCCESS && done ==> top.id == id && CaughtUp(id, old(pats)[id].scanStart, to, hs, k)
      ensures rc != CH_SUCCESS ==> rc in {CH_SCAN_TERMINATED, CH_FAIL_INTERNAL} && |queue| < env.Count()
      ensures rc != CH_SCAN_TERMINATED ==> Unstopped(env, trace)
      ensures Excused(env, trace, rc) && checks <= 1
    {
      hide Inv, Shape, Sound, Unstopped, InSync, HsContract, DbContract, Queue.Valid, Excused;
      SuccessIsExcused(env);
      rc, done := CH_SUCCESS, false;
      var numItem := pq.size;
      ghost var v := Now();
      Basics(env, hs, k, v, to, NOBODY, 0);
      var answer;
      top, answer := DeliverTop();
      DeliveryLemma(env, hs, k, v, to, top);
      if answer == CH_CALLBACK_TERMINATE {
        DeliveryStops(env, v, top);
        rc := CH_SCAN_TERMINATED;
      } else if answer == CH_CALLBACK_SKIP_PATTERN {
        pats := pats[top.id := pats[top.id].(scanStart := env.Length())];
        done := top.id == id;
      } else {
        done := top.id == id;
        if !done && !env.patterns[top.id].singleMatch {
          rc := Rescan(top.id, numItem, hs, k, to);
        }
      }
      if rc == CH_SUCCESS {
        WeightDrops(env, v, Now(), top);
      }
    }

    /**
     catchupPcre: delivers queued matches that end by `to`, until pattern id's
     own match has been delivered or, for the final flush, the queue is empty.
     */
    method CatchupPcre(id: nat, to: nat, ghost hs: seq<HsMatch>, ghost k: nat) returns (rc: int)
      requires Running(hs, k, to, NOBODY, 0)
      requires if id == ALL_ONES then to == env.Length()
               else id < env.Count() && !env.patterns[id].singleMatch && QueuedBy(id, to) &&
                    pats[id].scanStart < env.Length()
      modifies this`queue, this`pats, this`trace, this`utf8Highwater, this`checks, pq, pq.item
      ensures Linked() && Sound(env, trace) && |pats| == |old(pats)|
      ensures rc == CH_SUCCESS && id == ALL_ONES ==> Running(hs, k, to, NOBODY, 0) && queue == {}
      ensures rc == CH_SUCCESS && id != ALL_ONES ==> CaughtUp(id, old(pats)[id].scanStart, to, hs, k)
      ensures rc != CH_SUCCESS ==> rc in {CH_SCAN_TERMINATED, CH_FAIL_INTERNAL} && |queue| < env.Count()
      ensures rc != CH_SCAN_TERMINATED ==> Unstopped(env, trace)
      ensures Excused(env, trace, rc) && checks <= 1
    {
      hide Inv, Sound, Unstopped, InSync, HsContract, Excused;
      SuccessIsExcused(env);
      Basics(env, hs, k, Now(), to, NOBODY, 0);
      PotentialNotNegative(env, Now(), env.Count());
      while pq.size > 0
        invariant Running(hs, k, to, NOBODY, 0) && Shape(env, Now()) && |pats| == |old(pats)|
        invariant Sound(env, trace) && Unstopped(env, trace)
        invariant id != ALL_ONES ==> QueuedBy(id, to) && pats[id].scanStart == old(pats)[id].scanStart
        invariant Potential(env, Now(), env.Count()) >= 0
        decreases Potential(env, Now(), env.Count())
      {
        TopIsLeast();
        if pq.item[0].to > to {
          // The match at hand would be queued here; but a match of `id` ending by `to` is queued already.
          assert false;
        }
        ghost var v := Now();
        var done, top;
        rc, done, top := CatchupStep(id, to, hs, k);
        if rc != CH_SUCCESS || done {
          return;
        }
        if id != ALL_ONES {
          StillQueued(v, Now(), top, id, to);
        }
        Basics(env, hs, k, Now(), to, NOBODY, 0);
        PotentialDrops(env, v, Now(), top.id, env.Count());
        PotentialNotNegative(env, Now(), env.Count());
      }
      return CH_SUCCESS;
    }

    static lemma StillQueued(v: View, w: View, top: Item, id: nat, to: nat)
      requires OnlyMoved(v, w, top.id) && id != top.id
      requires exists x :: x in v.queue && x.id == id && x.to <= to
      ensures exists x :: x in w.queue && x.id == id && x.to <= to
    {
      var x :| x in v.queue && x.id == id && x.to <= to;
      assert x in w.queue;
    }

    ghost predicate AllActive()
      reads this
    {
      forall p: nat :: p < env.Count() ==> p in active
    }

    /** mmbit_all(active, patternCount). */
    method CheckAllActive() returns (all: bool)
      ensures all == AllActive()
    {
      all := forall p :: 0 <= p < |env.patterns| ==> p in active;
    }

    /** Marks a pattern as seen, ready to be scanned from the beginning. */
    method Admit(id: nat, ghost reached: nat, ghost hs: seq<HsMatch>, ghost k: nat)
      requires Running(hs, k, reached, NOBODY, 0) && id < env.Count() && id !in active
      modifies this`active, this`pats
      ensures Running(hs, k, reached, id, 0) && active == old(active) + {id}
      ensures |pats| == |old(pats)| && pats[id].scanStart == 0 && |queue| < env.Count()
    {
      ghost var before := Now();
      Activate(env, hs, k, before, reached, id, 0);
      active := active + {id};
      pats := pats[id := pats[id].(scanStart := 0)];
      assert Now() == WithScanStart(before, id, 0).(active := before.active + {id});
      QueueHasRoom(env, Now(), id);
    }

    /** The first scan of a pattern that has just become active, and what its two callers do with a skip. */
    method FirstScan(id: nat, ghost reached: nat, ghost hs: seq<HsMatch>, ghost k: nat) returns (rc: int)
      requires Running(hs, k, reached, id, 0) && id < env.Count() == |pats|
      requires (id in env.unguarded || env.NeedsConfirm(id)) && (k == 0 || pats[id].scanStart == 0)
      requires env.pcre(id, 0).Hit? ==> DeliveredBy(trace, env.pcre(id, 0).to)
      modifies this`queue, this`pats, this`trace, this`utf8Highwater, this`checks, pq, pq.item
      ensures Linked() && Sound(env, trace) && |pats| == |old(pats)|
      ensures rc != CH_CALLBACK_TERMINATE && rc != CH_FAIL_INTERNAL ==> Running(hs, k, reached, NOBODY, 0)
      ensures rc != CH_CALLBACK_TERMINATE ==> Unstopped(env, trace)
      ensures RetExcused(env, trace, rc) && checks <= 1
    {
      hide Inv, Shape, Sound, ScanOutcome, Unstopped, InSync, HsContract, DbContract, Queue.Valid,
        Excused, RawExcused, RetExcused;
      ghost var v := Now();
      Basics(env, hs, k, v, reached, id, 0);
      ghost var rejected;
      rc, rejected := ScanPcre(id, 0);
      ScanLemma(env, hs, k, v, Now(), reached, id, 0, rc, rejected);
      ScanIsExcused(env, v, Now(), id, 0, rc, rejected);
      RawIsExcused(env, trace, rc);
      if rc == CH_CALLBACK_SKIP_PATTERN {
        pats := pats[id := pats[id].(scanStart := env.Length())];
        rc := CH_SUCCESS;
      }
    }

    /** The first-time confirm of multiCallback. */
    method Confirm(m: HsMatch, ghost hs: seq<HsMatch>, ghost k: nat) returns (rc: int)
      requires k < |hs| && m == hs[k] && Running(hs, k, m.to, NOBODY, 0) && HsInRange(env, m)
      requires env.NeedsConfirm(m.id) && m.id !in active
      modifies this`queue, this`active, this`pats, this`trace, this`utf8Highwater, this`checks, this`ret, pq, pq.item
      ensures Linked() && Sound(env, trace) && active == old(active) + {m.id}
      ensures rc == CH_SUCCESS ==> ret == CH_SUCCESS && Running(hs, k, m.to, NOBODY, 0)
      ensures rc != CH_SUCCESS ==> ret != CH_SUCCESS
      ensures ret != CH_CALLBACK_TERMINATE ==> Unstopped(env, trace)
      ensures RetExcused(env, trace, ret) && checks <= 1
    {
      hide Inv, Shape, Sound, Unstopped, InSync, HsContract, DbContract, Queue.Valid, RetExcused;
      var id := m.id;
      Basics(env, hs, k, Now(), m.to, NOBODY, 0);
      if env.pcre(id, 0).Hit? {
        FirstMatchNotPast(env, hs, k, Now(), m.to);
        assert DeliveredBy(trace, env.pcre(id, 0).to) by {
          assert DeliveredBy(trace, m.to);
        }
      }
      Admit(id, m.to, hs, k);
      rc := FirstScan(id, m.to, hs, k);
      ret := rc;
      if rc == CH_CALLBACK_TERMINATE {
        return CH_SCAN_TERMINATED;
      }
    }

    /** Queues a fixed-width match reported by Hyperscan for the pattern in hand. */
    method QueueFixedWidth(m: HsMatch, ghost resume: nat, ghost hs: seq<HsMatch>, ghost k: nat)
      requires k < |hs| && m == hs[k] && Running(hs, k, m.to, m.id, resume) && HsInRange(env, m)
      requires !env.NeedsConfirm(m.id) && resume <= m.from && OthersBefore(hs, k, resume)
      requires pats[m.id].scanStart <= resume
      modifies this`queue, this`pats, pq, pq.item
      ensures Running(hs, k + 1, m.to, NOBODY, 0)
    {
      hide Inv, Shape, Sound, Queue.Valid;
      ghost var v := Now();
      Basics(env, hs, k, v, m.to, m.id, resume);
      CallbackIsNextMatch(env, hs, k, v, m.to, resume);
      Requeue(env, hs, k, v, m.to, m.id, resume);
      var start := StepPast(m.id, m.from, m.to);
      var groups := if env.groupsOn then [Active(m.from, m.to)] else [];
      pats := pats[m.id := PatternData(start, groups)];
      Enqueue(Item(m.from, m.to, m.id));
      NextCallback(env, hs, k, Now(), m.to);
    }

    /** A later report of a fixed-width pattern that is already active. */
    method CatchupFixedWidth(m: HsMatch, ghost hs: seq<HsMatch>, ghost k: nat) returns (rc: int)
      requires k < |hs| && m == hs[k] && Running(hs, k, m.to, NOBODY, 0) && HsInRange(env, m)
      requires !env.NeedsConfirm(m.id) && m.id in active && !env.patterns[m.id].singleMatch
      requires m.to >= pats[m.id].scanStart + env.patterns[m.id].minWidth
      modifies this`queue, this`pats, this`trace, this`utf8Highwater, this`checks, this`ret, pq, pq.item
      ensures pq.Valid() && Sound(env, trace) && ret == rc
      ensures rc == CH_SUCCESS ==> Running(hs, k + 1, m.to, NOBODY, 0)
      ensures ret != CH_SCAN_TERMINATED ==> Unstopped(env, trace)
      ensures Excused(env, trace, ret) && checks <= 1
    {
      hide Inv, InSync, Sound, Unstopped, HsContract, DbContract, Queue.Valid, Excused;
      var id := m.id;
      ReportIsQueued(env, hs, k, Now());
      ghost var resume := pats[id].scanStart;
      rc := CatchupPcre(id, m.to, hs, k);
      ret := rc;
      if pats[id].scanStart >= env.Length() {
        if rc == CH_SUCCESS {
          NextCallback(env, hs, k, Now(), m.to);
        }
        return;
      }
      if rc == CH_SUCCESS {
        QueueFixedWidth(m, resume, hs, k);
      } else {
        // The scan is ending; the match is still queued, and there is room for it.
        var start := StepPast(id, m.from, m.to);
        var groups := if env.groupsOn then [Active(m.from, m.to)] else [];
        pats := pats[id := PatternData(start, groups)];
        pq.Insert(Item(m.from, m.to, id));
      }
    }

    /** The first report of a fixed-width pattern. */
    method FirstReport(m: HsMatch, ghost hs: seq<HsMatch>, ghost k: nat)
      requires k < |hs| && m == hs[k] && Running(hs, k, m.to, NOBODY, 0) && HsInRange(env, m)
      requires !env.NeedsConfirm(m.id) && m.id !in active
      modifies this`queue, this`active, this`pats, pq, pq.item
      ensures Running(hs, k + 1, m.to, NOBODY, 0) && active == old(active) + {m.id}
    {
      var id := m.id;
      assert OthersBefore(hs, k, 0) by {
        assert InSync(env, hs, k, Now(), NOBODY);
      }
      Admit(id, m.to, hs, k);
      QueueFixedWidth(m, 0, hs, k);
    }

    /** multiCallback: what Chimera does with one Hyperscan match. */
    method MultiCallback(m: HsMatch, ghost reached: nat, ghost hs: seq<HsMatch>, ghost k: nat) returns (rc: int)
      requires k < |hs| && m == hs[k] && Running(hs, k, reached, NOBODY, 0) && reached <= m.to
      requires ret == CH_SUCCESS && env.Length() <= INT_MAX
      modifies this`queue, this`active, this`pats, this`trace, this`utf8Highwater, this`checks, this`ret, pq, pq.item
      ensures pq.Valid() && Sound(env, trace) && old(active) <= active
      ensures rc == CH_SUCCESS ==> ret == CH_SUCCESS
      ensures ret == CH_SUCCESS ==> Running(hs, k + 1, m.to, NOBODY, 0)
      ensures ret == CH_SUCCESS && rc != CH_SUCCESS ==> AllActive()
      ensures ret != CH_SCAN_TERMINATED && ret != CH_CALLBACK_TERMINATE ==> Unstopped(env, trace)
      ensures RetExcused(env, trace, ret) && checks <= 1
    {
      hide Inv, Sound, Unstopped, DbContract, Queue.Valid, Excused, RetExcused;
      SuccessIsExcused(env);
      ReachFurther(env, hs, k, Now(), reached, m.to, NOBODY, 0);
      Basics(env, hs, k, Now(), m.to, NOBODY, 0);
      assert HsInRange(env, m);
      var id := m.id;
      var p := env.patterns[id];
      var needConfirm := p.fixedWidth == ALL_ONES;
      if needConfirm && id in active {
        NextCallback(env, hs, k, Now(), m.to);
        var all := CheckAllActive();
        return if env.allConfirm && all then 1 else 0;
      }
      var already := id in active;
      if needConfirm {
        rc := Confirm(m, hs, k);
        if rc == CH_SUCCESS {
          NextCallback(env, hs, k, Now(), m.to);
        }
        return;
      }
      if !already {
        FirstReport(m, hs, k);
        return CH_SUCCESS;
      }
      assert pats[id].scanStart <= env.Length() + 1;  // so the u32 sum below does not wrap
      if m.to < (pats[id].scanStart + p.minWidth) % TWO32 {
        NextCallback(env, hs, k, Now(), m.to);
        return CH_SUCCESS;
      } else if p.singleMatch {
        NextCallback(env, hs, k, Now(), m.to);
        var all := CheckAllActive();
        return if env.allSingle && all then 1 else 0;
      }
      rc := CatchupFixedWidth(m, hs, k);
    }

    /** The body of the loop of initQueue. */
    method StartUnguarded(id: nat, ghost hs: seq<HsMatch>) returns (rc: int)
      requires Running(hs, 0, 0, NOBODY, 0) && |pats| == env.Count()
      requires id < env.Count() && id !in active && id in env.unguarded
      modifies this`queue, this`active, this`pats, this`trace, this`utf8Highwater, this`checks, pq, pq.item
      ensures Linked() && Sound(env, trace) && active == old(active) + {id} && |pats| == env.Count()
      ensures rc == CH_SUCCESS ==> Running(hs, 0, 0, NOBODY, 0)
      ensures rc != CH_SCAN_TERMINATED ==> Unstopped(env, trace)
      ensures Excused(env, trace, rc) && checks <= 1
    {
      hide Inv, Shape, Sound, Unstopped, InSync, HsContract, Queue.Valid, Excused, RetExcused;
      SuccessIsExcused(env);
      ghost var before := Now();
      active := active + {id};
      Activate(env, hs, 0, before, 0, id, pats[id].scanStart);
      assert Now() == WithScanStart(before, id, pats[id].scanStart).(active := before.active + {id});
      Basics(env, hs, 0, Now(), 0, id, 0);
      rc := FirstScan(id, 0, hs, 0);
      if rc == CH_CALLBACK_TERMINATE {
        StopIsExcused(env, trace);
        return CH_SCAN_TERMINATED;
      } else if rc == CH_FAIL_INTERNAL {
        OtherIsExcused(env, trace, rc);
        return;
      }
      return CH_SUCCESS;
    }

    /** initQueue: scans every pattern that Hyperscan cannot guard. */
    method InitQueue(ghost hs: seq<HsMatch>) returns (rc: int)
      requires Given(env, hs) && Linked() && Utf8Ready() && |pats| == env.Count()
      requires queue == {} && active == {} && trace == []
      modifies this`queue, this`active, this`pats, this`trace, this`utf8Highwater, this`checks, pq, pq.item
      ensures Linked() && Sound(env, trace)
      ensures rc == CH_SUCCESS ==> Running(hs, 0, 0, NOBODY, 0) && UnguardedActive(|env.unguarded|)
      ensures rc != CH_SCAN_TERMINATED ==> Unstopped(env, trace)
      ensures Excused(env, trace, rc) && checks <= 1
    {
      hide Inv, Shape, Sound, Unstopped, InSync, ScanOutcome, HsContract, Queue.Valid,
        Excused, RawExcused, RetExcused;
      SuccessIsExcused(env);
      Nothing(env, hs, Now());
      Basics(env, hs, 0, Now(), 0, NOBODY, 0);
      for i := 0 to |env.unguarded|
        invariant Running(hs, 0, 0, NOBODY, 0) && Sound(env, trace) && Unstopped(env, trace)
        invariant UnguardedActive(i) && |pats| == env.Count()
        invariant forall p :: p in active ==> p in env.unguarded[..i]
      {
        assert env.unguarded[i] !in active;
        rc := StartUnguarded(env.unguarded[i], hs);
        if rc != CH_SUCCESS {
          return;
        }
      }
      return CH_SUCCESS;
    }

    ghost predicate UnguardedActive(n: nat)
      reads this
    {
      forall i :: 0 <= i < n && i < |env.unguarded| ==> env.unguarded[i] in active
    }

    /** scanHyperscan: Hyperscan calls back until a callback returns non-zero. */
    method ScanHyperscan(hs: seq<HsMatch>, hsCode: int) returns (rc: int, ghost k: nat)
      requires Running(hs, 0, 0, NOBODY, 0) && ret == CH_SUCCESS && env.Length() <= INT_MAX
      requires UnguardedActive(|env.unguarded|)
      modifies this`queue, this`active, this`pats, this`trace, this`utf8Highwater, this`checks, this`ret, pq, pq.item
      ensures k <= |hs| && pq.Valid() && Sound(env, trace)
      ensures ret == CH_SUCCESS ==>
                && Running(hs, k, env.Length(), NOBODY, 0) && UnguardedActive(|env.unguarded|)
                && ((rc == hsCode && k == |hs|) || (rc == CH_SCAN_TERMINATED && AllActive()))
      ensures ret != CH_SCAN_TERMINATED && ret != CH_CALLBACK_TERMINATE ==> Unstopped(env, trace)
      ensures RetExcused(env, trace, ret) && checks <= 1
    {
      hide Inv, Sound, Unstopped, InSync, Queue.Valid, RetExcused;
      SuccessIsExcused(env);
      Basics(env, hs, 0, Now(), 0, NOBODY, 0);
      ghost var reached: nat := 0;
      k := 0;
      for i := 0 to |hs|
        invariant k == i && Running(hs, k, reached, NOBODY, 0) && Sound(env, trace) && Unstopped(env, trace)
        invariant ret == CH_SUCCESS && UnguardedActive(|env.unguarded|)
        invariant reached <= env.Length() && forall j :: i <= j < |hs| ==> reached <= hs[j].to
      {
        assert HsInRange(env, hs[i]);
        var stop := MultiCallback(hs[i], reached, hs, i);
        k := k + 1;
        reached := hs[i].to;
        if stop != CH_SUCCESS {
          if ret == CH_SUCCESS {
            ReachFurther(env, hs, k, Now(), reached, env.Length(), NOBODY, 0);
          }
          return CH_SCAN_TERMINATED, k;
        }
      }
      ReachFurther(env, hs, k, Now(), reached, env.Length(), NOBODY, 0);
      rc := hsCode;
    }

    /** What a scan promises, whatever its callbacks answer and however it ends. */
    ghost predicate Kept(rc: int, hsCode: int)
      requires env.PcreContract()
      reads this
    {
      // Ends in order, obedient, and per pattern a prefix of the expected matches.
      && Sound(env, trace)
      // A request to stop is always reported.
      && (rc != CH_SCAN_TERMINATED ==> Unstopped(env, trace))
      // A successful scan delivers every expected match of every pattern that was not skipped.
      && (rc == CH_SUCCESS ==>
            forall id: nat :: id < env.Count() ==>
              Skipped(env, trace, id) || Delivered(trace, id) == env.Expected(id, 0))
      // A code other than success has its cause, or is Hyperscan's own.
      && ((rc == hsCode && !env.noMultiMatch) || Excused(env, trace, rc))
      // The data is validated as UTF-8 at most once.
      && checks <= 1
    }

    /** The part of ch_scan_i that follows its checks. */
    method ScanData(hs: seq<HsMatch>, hsCode: int) returns (rc: int)
      requires Given(env, hs) && Linked() && |pats| == env.Count() && hsCode != CH_SCAN_TERMINATED
      requires env.Length() <= INT_MAX
      modifies this, pq, pq.item
      ensures pq.Valid() && inUse == old(inUse) && Kept(rc, hsCode)
    {
      hide Inv, Sound, Unstopped, InSync, HsContract, Excused, RetExcused;
      SuccessIsExcused(env);
      pq.Clear();
      queue, active, trace, ret, utf8Highwater, checks := {}, {}, [], CH_SUCCESS, 0, 0;
      rc := InitQueue(hs);
      if rc != CH_SUCCESS {
        return;
      }
      ghost var k := 0;
      if !env.noMultiMatch {
        rc, k := ScanHyperscan(hs, hsCode);
        if ret == CH_CALLBACK_TERMINATE {
          StopIsExcused(env, trace);
          return CH_SCAN_TERMINATED;
        } else if ret != CH_SUCCESS {
          OtherIsExcused(env, trace, ret);
          return ret;
        }
        if rc != CH_SUCCESS && rc != CH_SCAN_TERMINATED {
          Basics(env, hs, k, Now(), env.Length(), NOBODY, 0);
          return;
        }
      } else {
        NoGuarded(env, hs);
        ReachFurther(env, hs, k, Now(), 0, env.Length(), NOBODY, 0);
      }
      assert k == |hs| || AllActive();
      rc := CatchupPcre(ALL_ONES, env.Length(), hs, k);
      if rc != CH_SUCCESS {
        return;
      }
      forall id: nat | id < env.Count()
        ensures Skipped(env, trace, id) || Delivered(trace, id) == env.Expected(id, 0)
      {
        FlushedIsComplete(env, hs, k, Now(), env.Length(), id);
      }
    }

    /**
     ch_scan, for a valid database and scratch. hs is what Hyperscan would
     report on this data and hsCode what it returns if never told to stop.
     */
    method ChScan(hs: seq<HsMatch>, hsCode: int) returns (rc: int)
      requires Given(env, hs) && Linked() && |pats| == env.Count() && hsCode != CH_SCAN_TERMINATED
      modifies this, pq, pq.item
      ensures old(inUse) ==> rc == CH_SCRATCH_IN_USE && inUse && trace == old(trace)
      ensures !old(inUse) ==> !inUse && pq.Valid()
      ensures !old(inUse) && env.Length() > INT_MAX ==> rc == CH_INVALID && trace == old(trace)
      ensures !old(inUse) && env.Length() <= INT_MAX ==> Kept(rc, hsCode)
      // Each pattern's matches are those PCRE finds, each from where the one before it ends, all of them on success.
      ensures !old(inUse) && env.Length() <= INT_MAX ==>
                forall id: nat :: id < env.Count() ==>
                  Iterates(env, id, 0, Delivered(trace, id), rc == CH_SUCCESS && !Skipped(env, trace, id))
      // Callbacks that go on, and data, PCRE and Hyperscan without errors: success, and every match of every pattern.
      ensures !old(inUse) && env.Length() <= INT_MAX && hsCode == CH_SUCCESS && Willing(env, trace) &&
              !FatalPcre(env) && !AnyBadUtf8(env) ==>
                && rc == CH_SUCCESS
                && forall id: nat :: id < env.Count() ==> Delivered(trace, id) == env.Expected(id, 0)
    {
      hide Sound, Unstopped, Given, Willing, FatalPcre, AnyBadUtf8, Excused, Skipped, Iterates;
      if inUse {
        return CH_SCRATCH_IN_USE;
      }
      inUse := true;
      if env.Length() > INT_MAX {
        inUse := false;
        return CH_INVALID;
      }
      rc := ScanData(hs, hsCode);
      inUse := false;
      DeliveredIterates(env, hs, trace, rc);
      if Willing(env, trace) && !FatalPcre(env) && !AnyBadUtf8(env) && hsCode == CH_SUCCESS {
        SuccessIsExcused(env);
        WillingSucceeds(env, trace, rc);
      }
    }
  }
}
