/**
 The match deduper of src/report.h: two logs of keys, one for even and one for
 odd end offsets, cleared as the report offset moves on.
 */
module Dedupe {
  import opened Common

  datatype Answer = Continue | Skip | Halt

  datatype Key = NoKey | Key(k: nat)

  /**
   One call of dedupeCatchup: the report offset, its adjustment (0 or -1), the dedupe
   key, whether the report is external or quashes SOM, whether the caller does SOM, and whether
   flushing stored SOM matches, should this call do so, makes the user halt.
   */
  datatype Call = Call(offset: nat, adjust: int, dkey: Key, external: bool, som: bool, flushHalts: bool) {
    predicate Valid() { offset < NONE && (adjust == 0 || adjust == -1) && 0 <= offset + adjust }

    function End(): int { offset + adjust }

    /** The call asks whether its key has been reported at its end offset. */
    predicate Asks() { dkey.Key? && external }
  }

  /** The deduper's value: the offset of the last report and the two logs. */
  datatype Logs = Logs(current: nat, even: set<nat>, odd: set<nat>) {
    function At(end: int): set<nat> { if end % 2 == 0 then even else odd }

    function With(end: int, log: set<nat>): Logs {
      if end % 2 == 0 then this.(even := log) else this.(odd := log)
    }
  }

  /** The 64-bit increment wraps, so ~0 + 1 is 0. */
  function Increment(offset: nat): nat
    requires offset <= NONE
  {
    if offset == NONE then 0 else offset + 1
  }

  function Cleared(s: Logs, offset: nat): Logs
    requires s.current <= NONE
  {
    if offset == Increment(s.current) then s.With(offset, {}) else s.(even := {}, odd := {})
  }

  function Answered(s: Logs, c: Call): (Logs, Answer) {
    if c.Asks() then
      (s.With(c.End(), s.At(c.End()) + {c.dkey.k}), if c.dkey.k in s.At(c.End()) then Skip else Continue)
    else
      (s, if c.dkey.Key? && c.som then Skip else Continue)
  }

  function Step(s: Logs, c: Call): (Logs, Answer)
    requires s.current <= NONE
  {
    if c.offset == s.current then Answered(s, c)
    else
      var t := Cleared(s, c.offset);
      if c.som && c.flushHalts then (t, Halt) else Answered(t.(current := c.offset), c)
  }

  /** struct match_deduper. */
  class Deduper {
    var current: nat
    var log: array<set<nat>>

    ghost predicate Valid()
      reads this, log
    {
      log.Length == 2 && current <= NONE
    }

    ghost function View(): Logs
      requires Valid()
      reads this, log
    {
      Logs(current, log[0], log[1])
    }

    /** What populateCoreInfo leaves: the logs of the last scan, not cleared. */
    constructor (stale: array<set<nat>>)
      requires stale.Length == 2
      ensures Valid() && log == stale && View() == Logs(NONE, stale[0], stale[1])
    {
      current := NONE;
      log := stale;
    }

    /** dedupeCatchup. */
    method Catchup(c: Call) returns (a: Answer)
      requires Valid() && c.Valid()
      modifies this, log
      ensures Valid() && log == old(log)
      ensures (View(), a) == Step(old(View()), c)
    {
      if c.offset != current {
        if c.offset == Increment(current) {
          log[c.offset % 2] := {};
        } else {
          log[0] := {};
          log[1] := {};
        }
        if c.som && c.flushHalts {
          return Halt;
        }
        current := c.offset;
      }
      if c.dkey.Key? {
        var end := c.offset + c.adjust;
        if c.external {
          var was := c.dkey.k in log[end % 2];
          log[end % 2] := log[end % 2] + {c.dkey.k};
          if was {
            return Skip;
          }
        } else if c.som {
          return Skip;
        }
      }
      return Continue;
    }
  }

  // ----- whole scans

  predicate AllValid(calls: seq<Call>) { forall i :: 0 <= i < |calls| ==> calls[i].Valid() }

  /** The answers of a scan; nothing is asked after a halt. */
  function Answers(s: Logs, calls: seq<Call>): seq<Answer>
    requires s.current <= NONE && AllValid(calls)
    decreases |calls|
  {
    if calls == [] then []
    else
      var (t, a) := Step(s, calls[0]);
      [a] + if a.Halt? then [] else Answers(t, calls[1..])
  }

  /** The report offset never falls during a scan. */
  predicate InOrder(calls: seq<Call>) {
    |calls| < 2 || (calls[0].offset <= calls[1].offset && InOrder(calls[1..]))
  }

  /** The same scan with a set of everything reported so far in place of the two logs. */
  function SetAnswers(moved: bool, last: nat, seen: set<(nat, int)>, calls: seq<Call>): seq<Answer>
    decreases |calls|
  {
    if calls == [] then []
    else
      var c := calls[0];
      if (!moved || c.offset != last) && c.som && c.flushHalts then [Halt]
      else if c.Asks() then
        [if (c.dkey.k, c.End()) in seen then Skip else Continue] +
        SetAnswers(true, c.offset, seen + {(c.dkey.k, c.End())}, calls[1..])
      else
        [if c.dkey.Key? && c.som then Skip else Continue] + SetAnswers(true, c.offset, seen, calls[1..])
  }

  /** The logs agree with the set at the two end offsets that can still be asked about. */
  ghost predicate Agrees(s: Logs, moved: bool, last: nat, seen: set<(nat, int)>) {
    s.current == (if moved then last else NONE) && (moved ==> last < NONE) && (!moved ==> seen == {}) &&
    (forall e <- seen :: 0 <= e.1 <= last) &&
    (moved ==> AgreesAt(s, last, seen) && (last > 0 ==> AgreesAt(s, last - 1, seen)))
  }

  ghost predicate AgreesAt(s: Logs, end: int, seen: set<(nat, int)>) {
    forall k: nat :: k in s.At(end) <==> (k, end) in seen
  }

  lemma ParityFlips(n: int)
    ensures n % 2 != (n - 1) % 2
  {
  }

  /** Moving to a later offset, from stale logs or not, leaves the logs agreeing at the new offset. */
  lemma MoveAgrees(s: Logs, moved: bool, last: nat, seen: set<(nat, int)>, offset: nat)
    requires Agrees(s, moved, last, seen) && offset < NONE && (moved ==> last < offset)
    ensures Agrees(Cleared(s, offset).(current := offset), true, offset, seen)
  {
    ParityFlips(offset);
  }

  lemma AskAgrees(s: Logs, last: nat, seen: set<(nat, int)>, c: Call)
    requires Agrees(s, true, last, seen) && c.Valid() && c.offset == last && c.Asks()
    ensures Agrees(Answered(s, c).0, true, last, seen + {(c.dkey.k, c.End())})
    ensures Answered(s, c).1 == if (c.dkey.k, c.End()) in seen then Skip else Continue
  {
    ParityFlips(last);
    var t, now := Answered(s, c).0, seen + {(c.dkey.k, c.End())};
    forall end | end == last || (last > 0 && end == last - 1) ensures AgreesAt(t, end, now) {
      assert AgreesAt(s, end, seen);
    }
  }

  lemma {:induction false} TwoLogsAreASet(s: Logs, moved: bool, last: nat, seen: set<(nat, int)>, calls: seq<Call>)
    requires Agrees(s, moved, last, seen) && InOrder(calls) && AllValid(calls)
    requires moved && calls != [] ==> last <= calls[0].offset
    ensures Answers(s, calls) == SetAnswers(moved, last, seen, calls)
    decreases |calls|
  {
    if calls != [] {
      hide Agrees, Cleared;
      var c, rest := calls[0], calls[1..];
      var moves := !moved || c.offset != last;
      assert moves <==> c.offset != s.current by { Current(s, moved, last, seen); }
      if moves {
        MoveAgrees(s, moved, last, seen, c.offset);
      }
      var t := if moves then Cleared(s, c.offset).(current := c.offset) else s;
      if !(moves && c.som && c.flushHalts) {
        if c.Asks() {
          AskAgrees(t, c.offset, seen, c);
          TwoLogsAreASet(Answered(t, c).0, true, c.offset, seen + {(c.dkey.k, c.End())}, rest);
        } else {
          TwoLogsAreASet(t, true, c.offset, seen, rest);
        }
      }
    }
  }

  lemma Current(s: Logs, moved: bool, last: nat, seen: set<(nat, int)>)
    requires Agrees(s, moved, last, seen)
    ensures s.current == if moved then last else NONE
  {
  }

  /** A scan that starts with whatever the last one left in the logs answers as if it remembered everything. */
  lemma DedupeIsExact(even: set<nat>, odd: set<nat>, calls: seq<Call>)
    requires InOrder(calls) && AllValid(calls)
    ensures Answers(Logs(NONE, even, odd), calls) == SetAnswers(false, 0, {}, calls)
  {
    TwoLogsAreASet(Logs(NONE, even, odd), false, 0, {}, calls);
  }

  /** In terms of the calls: an asking call is skipped exactly when an earlier one had its key and end offset. */
  ghost predicate AskedBefore(calls: seq<Call>, i: nat)
    requires i < |calls|
  {
    exists j :: 0 <= j < i && SameQuestion(calls[j], calls[i])
  }

  predicate SameQuestion(a: Call, b: Call) { a.Asks() && b.Asks() && a.dkey == b.dkey && a.End() == b.End() }

  lemma {:induction false} SetRemembers(moved: bool, last: nat, seen: set<(nat, int)>, calls: seq<Call>, i: nat)
    requires i < |SetAnswers(moved, last, seen, calls)|
    ensures i < |calls|
    ensures calls[i].Asks() && !SetAnswers(moved, last, seen, calls)[i].Halt? ==>
              (SetAnswers(moved, last, seen, calls)[i].Skip? <==>
               (calls[i].dkey.k, calls[i].End()) in seen || AskedBefore(calls, i))
    decreases |calls|
  {
    if i > 0 {
      var c, rest := calls[0], calls[1..];
      var more := if c.Asks() then seen + {(c.dkey.k, c.End())} else seen;
      SetRemembers(true, c.offset, more, rest, i - 1);
      if calls[i].Asks() {
        if AskedBefore(calls, i) && !SameQuestion(c, calls[i]) {
          var j :| 0 <= j < i && SameQuestion(calls[j], calls[i]);
          assert SameQuestion(rest[j - 1], rest[i - 1]);
        }
        if AskedBefore(rest, i - 1) {
          var j :| 0 <= j < i - 1 && SameQuestion(rest[j], rest[i - 1]);
          assert SameQuestion(calls[j + 1], calls[i]);
        }
      }
    }
  }

  lemma SkippedIffRepeated(even: set<nat>, odd: set<nat>, calls: seq<Call>, i: nat)
    requires InOrder(calls) && AllValid(calls)
    requires i < |Answers(Logs(NONE, even, odd), calls)|
    ensures i < |calls|
    ensures calls[i].Asks() && !Answers(Logs(NONE, even, odd), calls)[i].Halt? ==>
              (Answers(Logs(NONE, even, odd), calls)[i].Skip? <==> AskedBefore(calls, i))
  {
    DedupeIsExact(even, odd, calls);
    SetRemembers(false, 0, {}, calls, i);
  }
}
