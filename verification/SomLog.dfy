/**
 The start-of-match half of the deduper: src/report.h stores SOM matches in two
 logs, one for even and one for odd end offsets, and src/som/som_runtime.c raises
 them once no smaller start can turn up.
 */
module SomLog {
  import opened Common

  /** A match as the user sees it. */
  datatype Match = Match(key: nat, from: nat, end: int)

  /** One stored match: the report offset, its adjustment (0 or -1), the dedupe key and the start. */
  datatype Call = Call(offset: nat, adjust: int, key: nat, from: nat) {
    predicate Valid(keys: nat) {
      offset < NONE - 1 && (adjust == 0 || adjust == -1) && 0 <= offset + adjust && key < keys
    }

    function End(): int { offset + adjust }
  }

  /** A log: which keys are stored, and the start of each. */
  type Log = map<nat, nat>

  /** `stale` is bit 0 of som_log_dirty, about the log of the previous offset; `now` is bit 1. */
  datatype Logs = Logs(current: nat, even: Log, odd: Log, stale: bool, now: bool, out: seq<Match>) {
    function At(end: int): Log { if end % 2 == 0 then even else odd }

    function With(end: int, log: Log): Logs {
      if end % 2 == 0 then this.(even := log) else this.(odd := log)
    }
  }

  /** clearSomLog: the matches of one log, keys ascending. */
  function Raise(log: Log, key: nat, keys: nat, end: int): seq<Match>
    requires key <= keys
    decreases keys - key
  {
    if key == keys then []
    else (if key in log then [Match(key, log[key], end)] else []) + Raise(log, key + 1, keys, end)
  }

  /** flushStoredSomMatches_i, on the way to report offset `offset`. */
  function FlushDirty(s: Logs, keys: nat, offset: nat): Logs {
    if s.current == NONE then s.(even := map[], odd := map[], stale := false, now := false)
    else if offset == s.current + 1 then
      var t := s.With(offset, map[]);
      t.(out := s.out + Raise(s.At(offset), 0, keys, s.current - 1), stale := s.now, now := false)
    else
      s.(out := s.out + Raise(s.At(s.current - 1), 0, keys, s.current - 1) + Raise(s.At(s.current), 0, keys, s.current),
         even := map[], odd := map[], stale := false, now := false)
  }

  function Flush(s: Logs, keys: nat, offset: nat): Logs {
    if s.stale || s.now then FlushDirty(s, keys, offset) else s
  }

  function Stored(log: Log, key: nat, from: nat): Log {
    log[key := if key in log then Min(log[key], from) else from]
  }

  /** dedupeCatchup for a SOM match, the user going on. */
  function Step(s: Logs, keys: nat, c: Call): Logs {
    var t := if c.offset != s.current then Flush(s, keys, c.offset).(current := c.offset) else s;
    var u := t.With(c.End(), Stored(t.At(c.End()), c.key, c.from));
    if c.adjust != 0 then u.(stale := true) else u.(now := true)
  }

  // ----- in place

  class SomDeduper {
    const keys: nat
    var current: nat
    var log: array<Log>
    var stale: bool
    var now: bool
    var out: seq<Match>

    ghost predicate Valid()
      reads this, log
    {
      log.Length == 2
    }

    ghost function View(): Logs
      requires Valid()
      reads this, log
    {
      Logs(current, log[0], log[1], stale, now, out)
    }

    constructor (count: nat, left: array<Log>)
      requires left.Length == 2
      ensures Valid() && keys == count && log == left && View() == Logs(NONE, left[0], left[1], true, false, [])
    {
      keys, current, log, stale, now, out := count, NONE, left, true, false, [];
    }

    /** clearSomLog. */
    method ClearLog(end: int)
      requires Valid()
      modifies this`out, log
      ensures Valid() && log == old(log)
      ensures View() == old(View()).With(end, map[]).(out := old(out) + Raise(old(View()).At(end), 0, keys, end))
    {
      var parity := end % 2;
      ghost var all := Raise(log[parity], 0, keys, end);
      for key := 0 to keys
        invariant log[0] == old(log[0]) && log[1] == old(log[1])
        invariant out + Raise(log[parity], key, keys, end) == old(out) + all
      {
        if key in log[parity] {
          out := out + [Match(key, log[parity][key], end)];
        }
      }
      log[parity] := map[];
    }

    /** flushStoredSomMatches. */
    method FlushMatches(offset: nat)
      requires Valid()
      modifies this, log
      ensures Valid() && log == old(log)
      ensures View() == Flush(old(View()), keys, offset)
    {
      hide Raise;
      if !stale && !now {
        return;
      }
      if current == NONE {
        log[0], log[1] := map[], map[];
        stale, now := false, false;
        return;
      }
      if offset == current + 1 {
        ParityOf(current);
        ClearLog(current - 1);
        stale, now := now, false;
      } else {
        ParityOf(current);
        ClearLog(current - 1);
        ClearLog(current);
        stale, now := false, false;
      }
    }

    /** The SOM branch of dedupeCatchup. */
    method Catchup(c: Call)
      requires Valid() && c.Valid(keys)
      modifies this, log
      ensures Valid() && log == old(log)
      ensures View() == Step(old(View()), keys, c)
    {
      hide Flush;
      if c.offset != current {
        FlushMatches(c.offset);
        current := c.offset;
      }
      var parity := c.End() % 2;
      if c.key in log[parity] {
        log[parity] := log[parity][c.key := Min(log[parity][c.key], c.from)];
      } else {
        log[parity] := log[parity][c.key := c.from];
      }
      if c.adjust != 0 {
        stale := true;
      } else {
        now := true;
      }
    }
  }

  lemma ParityOf(n: nat)
    ensures (n + 1) % 2 == (n - 1) % 2 != n % 2
  {
  }

  // ----- what a scan raises

  /** The least start stored for each key and end offset. */
  type Best = map<(nat, int), nat>

  function Noted(best: Best, c: Call): Best {
    best[(c.key, c.End()) := if (c.key, c.End()) in best then Min(best[(c.key, c.End())], c.from) else c.from]
  }

  function AllNoted(best: Best, calls: seq<Call>): Best
    decreases |calls|
  {
    if calls == [] then best else AllNoted(Noted(best, calls[0]), calls[1..])
  }

  function Scan(s: Logs, keys: nat, calls: seq<Call>): Logs
    decreases |calls|
  {
    if calls == [] then s else Scan(Step(s, keys, calls[0]), keys, calls[1..])
  }

  predicate Before(a: Match, b: Match) { a.end < b.end || (a.end == b.end && a.key < b.key) }

  predicate Sorted(out: seq<Match>) {
    forall i, j :: 0 <= i < j < |out| ==> Before(out[i], out[j])
  }

  /** `out` lists the stored matches that end before `limit`, by end offset and key, each with its least start. */
  ghost predicate Lists(out: seq<Match>, best: Best, limit: int) {
    Sorted(out) &&
    forall m: Match :: m in out <==> (m.key, m.end) in best && m.end < limit && best[(m.key, m.end)] == m.from
  }

  /** The log at `end` holds what has been stored for that end offset. */
  ghost predicate Holds(log: Log, best: Best, end: int) {
    forall k: nat :: (k in log <==> (k, end) in best) && (k in log ==> log[k] == best[(k, end)])
  }

  ghost predicate InRange(best: Best, keys: nat, last: int) {
    forall e <- best :: e.0 < keys && 0 <= e.1 <= last
  }

  ghost predicate Agrees(s: Logs, keys: nat, best: Best) {
    if s.current == NONE then best == map[] && s.out == [] && s.stale
    else
      s.current < NONE - 1 && InRange(best, keys, s.current) && Lists(s.out, best, s.current - 1) &&
      Holds(s.At(s.current), best, s.current) && Holds(s.At(s.current - 1), best, s.current - 1) &&
      (s.At(s.current - 1) != map[] ==> s.stale) && (s.At(s.current) != map[] ==> s.now)
  }

  lemma {:induction false} RaiseLists(log: Log, key: nat, keys: nat, end: int)
    requires key <= keys
    ensures var r := Raise(log, key, keys, end);
            Sorted(r) &&
            forall m: Match :: m in r <==> key <= m.key < keys && m.key in log && m.from == log[m.key] && m.end == end
    decreases keys - key
  {
    if key < keys {
      RaiseLists(log, key + 1, keys, end);
      var r, rest := Raise(log, key, keys, end), Raise(log, key + 1, keys, end);
      if key in log {
        assert r == [Match(key, log[key], end)] + rest;
        forall m <- rest ensures Before(r[0], m) { }
        forall i, j | 0 <= i < j < |r| ensures Before(r[i], r[j]) {
          assert r[j] in rest;
        }
      } else {
        assert r == rest;
      }
    }
  }

  lemma SortedJoin(a: seq<Match>, b: seq<Match>)
    requires Sorted(a) && Sorted(b) && forall x <- a, y <- b :: Before(x, y)
    ensures Sorted(a + b)
  {
    var c := a + b;
    forall i, j | 0 <= i < j < |c| ensures Before(c[i], c[j]) {
      if i < |a| <= j {
        assert a[i] in a && b[j - |a|] in b;
      }
    }
  }

  /** Raising the log of the next end offset extends the list by that offset. */
  lemma ListsMore(out: seq<Match>, best: Best, keys: nat, last: int, log: Log, end: int)
    requires Lists(out, best, end) && Holds(log, best, end) && InRange(best, keys, last)
    ensures Lists(out + Raise(log, 0, keys, end), best, end + 1)
  {
    var r := Raise(log, 0, keys, end);
    RaiseLists(log, 0, keys, end);
    hide Raise;
    assert forall x <- out, y <- r :: Before(x, y);
    SortedJoin(out, r);
    forall m: Match
      ensures m in out + r <==> (m.key, m.end) in best && m.end < end + 1 && best[(m.key, m.end)] == m.from
    {
      if m.end == end && (m.key, end) in best {
        assert m.key in log;
      }
    }
  }

  lemma ListsFurther(out: seq<Match>, best: Best, keys: nat, last: int, limit: int, further: int)
    requires Lists(out, best, limit) && InRange(best, keys, last) && last < limit <= further
    ensures Lists(out, best, further)
  {
  }

  lemma {:induction false} RaiseNothing(key: nat, keys: nat, end: int)
    requires key <= keys
    ensures Raise(map[], key, keys, end) == []
    decreases keys - key
  {
    if key < keys {
      RaiseNothing(key + 1, keys, end);
    }
  }

  /** With nothing dirty the logs are empty, so flushing would change nothing that matters. */
  lemma CleanIsEmpty(s: Logs, keys: nat, best: Best)
    requires Agrees(s, keys, best) && !s.stale && !s.now
    ensures s.even == map[] && s.odd == map[]
  {
    ParityOf(s.current);
  }

  /** Both logs raised: everything stored so far is listed. */
  lemma ListsAll(s: Logs, keys: nat, best: Best)
    requires Agrees(s, keys, best) && s.current != NONE
    ensures Lists(s.out + Raise(s.At(s.current - 1), 0, keys, s.current - 1) + Raise(s.At(s.current), 0, keys,
            s.current),
                  best, s.current + 1)
  {
    hide Raise, Lists, Holds, InRange;
    var mid := s.out + Raise(s.At(s.current - 1), 0, keys, s.current - 1);
    ListsMore(s.out, best, keys, s.current, s.At(s.current - 1), s.current - 1);
    ListsMore(mid, best, keys, s.current, s.At(s.current), s.current);
  }

  lemma NothingStored(best: Best, keys: nat, last: int, end: int, offset: int)
    requires InRange(best, keys, last) && last < end
    ensures Holds(map[], best, end) && (last <= offset ==> InRange(best, keys, offset))
  {
  }

  lemma FirstMove(s: Logs, keys: nat, best: Best, offset: nat)
    requires Agrees(s, keys, best) && s.current == NONE && offset < NONE - 1
    ensures Agrees(Flush(s, keys, offset).(current := offset), keys, best)
  {
  }

  /** Moving on by one: the older log is raised and becomes the new offset's. */
  lemma NextMove(s: Logs, keys: nat, best: Best)
    requires Agrees(s, keys, best) && s.current < NONE - 2
    ensures Agrees(Flush(s, keys, s.current + 1).(current := s.current + 1), keys, best)
  {
    hide Raise, Lists, Holds, InRange;
    var c: int := s.current;
    ParityOf(s.current);
    ParityOf(s.current + 1);
    NothingStored(best, keys, c, c + 1, c + 1);
    ListsMore(s.out, best, keys, c, s.At(c - 1), c - 1);
    RaiseNothing(0, keys, c - 1);
    if !s.stale && !s.now {
      CleanIsEmpty(s, keys, best);
      assert s.out + [] == s.out;
    }
  }

  /** Moving on by more: both logs are raised. */
  lemma FarMove(s: Logs, keys: nat, best: Best, offset: nat)
    requires Agrees(s, keys, best) && s.current + 1 < offset < NONE - 1
    ensures Agrees(Flush(s, keys, offset).(current := offset), keys, best)
  {
    hide Raise, Lists, Holds, InRange;
    var c: int := s.current;
    ParityOf(s.current);
    ParityOf(offset);
    NothingStored(best, keys, c, offset, offset);
    NothingStored(best, keys, c, offset - 1, offset);
    ListsAll(s, keys, best);
    RaiseNothing(0, keys, c - 1);
    RaiseNothing(0, keys, c);
    if !s.stale && !s.now {
      CleanIsEmpty(s, keys, best);
      assert s.out + [] + [] == s.out;
    }
    ListsFurther(Flush(s, keys, offset).out, best, keys, c, c + 1, offset - 1);
  }

  lemma StoreHolds(log: Log, best: Best, c: Call, end: int)
    requires Holds(log, best, end)
    ensures Holds(if end == c.End() then Stored(log, c.key, c.from) else log, Noted(best, c), end)
  {
  }

  lemma StoreLists(out: seq<Match>, best: Best, keys: nat, c: Call, limit: int)
    requires Lists(out, best, limit) && limit <= c.End()
    ensures Lists(out, Noted(best, c), limit)
  {
  }

  lemma StoreAgrees(s: Logs, keys: nat, best: Best, c: Call)
    requires Agrees(s, keys, best) && c.Valid(keys) && c.offset == s.current
    ensures Agrees(Step(s, keys, c), keys, Noted(best, c))
  {
    hide Lists, Holds, Stored, Noted;
    var at: int := s.current;
    ParityOf(s.current);
    StoreHolds(s.At(at), best, c, at);
    StoreHolds(s.At(at - 1), best, c, at - 1);
    StoreLists(s.out, best, keys, c, at - 1);
    assert InRange(Noted(best, c), keys, at) by { StoreInRange(best, keys, c); }
  }

  lemma StoreInRange(best: Best, keys: nat, c: Call)
    requires InRange(best, keys, c.offset) && c.Valid(keys)
    ensures InRange(Noted(best, c), keys, c.offset)
  {
  }

  lemma StepAgrees(s: Logs, keys: nat, best: Best, c: Call)
    requires Agrees(s, keys, best) && c.Valid(keys) && (s.current == NONE || s.current <= c.offset)
    ensures Agrees(Step(s, keys, c), keys, Noted(best, c)) && Step(s, keys, c).current == c.offset
  {
    hide Agrees, Flush, Noted, Stored;
    if c.offset != s.current {
      if s.current == NONE {
        FirstMove(s, keys, best, c.offset);
      } else if c.offset == s.current + 1 {
        NextMove(s, keys, best);
      } else {
        FarMove(s, keys, best, c.offset);
      }
      StoreAgrees(Flush(s, keys, c.offset).(current := c.offset), keys, best, c);
    } else {
      StoreAgrees(s, keys, best, c);
    }
  }

  predicate Forward(calls: seq<Call>) {
    |calls| < 2 || (calls[0].offset <= calls[1].offset && Forward(calls[1..]))
  }

  predicate AllStorable(calls: seq<Call>, keys: nat) { forall i :: 0 <= i < |calls| ==> calls[i].Valid(keys) }

  lemma {:induction false} ScanAgrees(s: Logs, keys: nat, best: Best, calls: seq<Call>)
    requires Agrees(s, keys, best) && Forward(calls) && AllStorable(calls, keys)
    requires calls != [] ==> s.current == NONE || s.current <= calls[0].offset
    ensures Agrees(Scan(s, keys, calls), keys, AllNoted(best, calls))
    decreases |calls|
  {
    hide Agrees, Step, Noted;
    if calls != [] {
      StepAgrees(s, keys, best, calls[0]);
      ScanAgrees(Step(s, keys, calls[0]), keys, Noted(best, calls[0]), calls[1..]);
    }
  }

  /**
   A scan that starts with whatever the last one left in the logs, and ends with the
   flush at ~0, raises each stored key and end offset once, with the least start
   stored for it, in order of end offset.
   */
  lemma SomMatchesAreExact(even: Log, odd: Log, keys: nat, calls: seq<Call>)
    requires Forward(calls) && AllStorable(calls, keys)
    ensures Lists(Flush(Scan(Logs(NONE, even, odd, true, false, []), keys, calls), keys, NONE).out,
                  AllNoted(map[], calls), NONE)
  {
    hide Raise, Scan, AllNoted, InRange, Holds;
    var s := Scan(Logs(NONE, even, odd, true, false, []), keys, calls);
    var best := AllNoted(map[], calls);
    ScanAgrees(Logs(NONE, even, odd, true, false, []), keys, map[], calls);
    if s.current != NONE {
      var c: int := s.current;
      ListsAll(s, keys, best);
      RaiseNothing(0, keys, c - 1);
      RaiseNothing(0, keys, c);
      if !s.stale && !s.now {
        CleanIsEmpty(s, keys, best);
        assert s.out + [] + [] == s.out;
      }
      ListsFurther(Flush(s, keys, NONE).out, best, keys, c, c + 1, NONE);
    }
  }

  /** The least start, said of the calls themselves. */
  lemma {:induction false} BestIsLeast(best: Best, calls: seq<Call>, i: nat)
    requires i < |calls|
    ensures var b, e := AllNoted(best, calls), (calls[i].key, calls[i].End()); e in b && b[e] <= calls[i].from
    decreases |calls|
  {
    if i > 0 {
      BestIsLeast(Noted(best, calls[0]), calls[1..], i - 1);
    } else {
      BestOnlyFalls(Noted(best, calls[0]), calls[1..], (calls[0].key, calls[0].End()));
    }
  }

  lemma {:induction false} BestOnlyFalls(best: Best, calls: seq<Call>, e: (nat, int))
    requires e in best
    ensures e in AllNoted(best, calls) && AllNoted(best, calls)[e] <= best[e]
    decreases |calls|
  {
    if calls != [] {
      BestOnlyFalls(Noted(best, calls[0]), calls[1..], e);
    }
  }

  lemma {:induction false} BestIsStored(best: Best, calls: seq<Call>, e: (nat, int))
    requires e in AllNoted(best, calls)
    ensures (e in best && AllNoted(best, calls)[e] == best[e]) ||
            exists i :: 0 <= i < |calls| && (calls[i].key, calls[i].End()) == e &&
                AllNoted(best, calls)[e] == calls[i].from
    decreases |calls|
  {
    if calls != [] {
      BestIsStored(Noted(best, calls[0]), calls[1..], e);
      if !(e in Noted(best, calls[0]) && AllNoted(best, calls)[e] == Noted(best, calls[0])[e]) {
        var i :| 0 <= i < |calls| - 1 && (calls[1..][i].key, calls[1..][i].End()) == e &&
                 AllNoted(best, calls)[e] == calls[1..][i].from;
        assert calls[i + 1] == calls[1..][i];
      }
    }
  }
}
