/**
 Any sequence of stream calls on streams that share one scratch (src/runtime.c).  A
 broken stream is silent until a call revives it: a reset, a copy of a stream that is
 not broken, or an expansion that gets as far as the status byte of a form that is not
 broken, even when that expansion then fails.  Whether such a call gets anywhere
 depends on what the last scan left in the scratch.
 */
module StreamCalls {
  import opened Common
  import opened StreamRuntime
  import opened StreamExpansion
  import StreamPlan
  import StreamCompress
  import StreamTheorems

  /** A call on stream `id`; an expansion is given a form and the size its caller states. */
  datatype Call =
    | Scan(id: nat, data: Option<Data>, onEvent: bool)
    | Close(id: nat, onEvent: bool)
    | Reset(id: nat, onEvent: bool)
    | CopyOver(id: nat, src: nat, onEvent: bool)
    | ExpandOver(id: nat, form: Form, size: nat, onEvent: bool)

  /** The streams, and the status that the shared scratch was left with. */
  datatype Sys = Sys(streams: seq<Full>, core: Status)

  datatype Answer = Answer(sys: Sys, events: seq<Event>, code: int)

  /** Every stream has the memory that its database asks for. */
  ghost predicate Sound(dbs: seq<Db>, sys: Sys) {
    |dbs| == |sys.streams| && forall i :: 0 <= i < |dbs| ==> dbs[i].Valid() && dbs[i].Holds(sys.streams[i])
  }

  ghost predicate InRange(dbs: seq<Db>, c: Call) {
    c.id < |dbs| && (c.CopyOver? ==> c.src < |dbs|) && (c.ExpandOver? ==> dbs[c.id].Made(c.form))
  }

  /** hs_reset_and_copy_stream refuses a stream of another database, and the stream itself. */
  ghost predicate Refused(dbs: seq<Db>, c: Call)
    requires InRange(dbs, c)
  {
    c.CopyOver? && (c.src == c.id || dbs[c.src] != dbs[c.id])
  }

  /** What the end-of-data part of the call answers. */
  ghost function EodAnswer(dbs: seq<Db>, sys: Sys, c: Call): int
    requires Sound(dbs, sys) && InRange(dbs, c)
  {
    EodCode(dbs[c.id].engine, sys.streams[c.id].Shown(), false, sys.core, c.onEvent)
  }

  /** The call gets past its end-of-data part. */
  ghost predicate Passes(dbs: seq<Db>, sys: Sys, c: Call)
    requires Sound(dbs, sys) && InRange(dbs, c)
  {
    !c.Scan? && !Refused(dbs, c) && EodAnswer(dbs, sys, c) == HS_SUCCESS
  }

  /** What the stream becomes then. */
  ghost function Replacement(dbs: seq<Db>, sys: Sys, c: Call): (f: Full)
    requires Sound(dbs, sys) && InRange(dbs, c) && !c.Scan? && !Refused(dbs, c)
    ensures dbs[c.id].Holds(f)
  {
    var db, f := dbs[c.id], EodFull(dbs[c.id], sys.streams[c.id], false, c.onEvent);
    match c
    case Close(_, _) => f
    case Reset(_, _) => ResetFull(db, f)
    case CopyOver(_, src, _) => sys.streams[src]
    case ExpandOver(_, form, size, _) => ExpandFull(db, f, form, size)
  }

  ghost function Step(dbs: seq<Db>, sys: Sys, c: Call): (a: Answer)
    requires Sound(dbs, sys) && InRange(dbs, c)
    ensures Sound(dbs, a.sys)
  {
    var db, f := dbs[c.id], sys.streams[c.id];
    if c.Scan? then
      var r := ScanStep(db.engine, f.Shown(), c.data, c.onEvent);
      Answer(Sys(sys.streams[c.id := ScanFull(db, f, c.data, c.onEvent)], Left(r.core, sys.core)), r.events, r.code)
    else if Refused(dbs, c) then Answer(sys, [], HS_INVALID)
    else
      var eod := EodAnswer(dbs, sys, c);
      var now := if eod == HS_SUCCESS then Replacement(dbs, sys, c) else EodFull(db, f, false, c.onEvent);
      var code := if eod == HS_SUCCESS && c.ExpandOver? then ExpandCode(db, c.form, c.size) else eod;
      Answer(Sys(sys.streams[c.id := now], EodLeft(db.engine, f.Shown(), false, sys.core, c.onEvent)),
             EodEvents(db.engine, f.Shown(), false, c.onEvent), code)
  }

  ghost predicate AllInRange(dbs: seq<Db>, calls: seq<Call>) {
    forall i :: 0 <= i < |calls| ==> InRange(dbs, calls[i])
  }

  ghost function Run(dbs: seq<Db>, sys: Sys, calls: seq<Call>): (r: Sys)
    requires Sound(dbs, sys) && AllInRange(dbs, calls)
    ensures Sound(dbs, r)
    decreases |calls|
  {
    if calls == [] then sys else Run(dbs, Step(dbs, sys, calls[0]).sys, calls[1..])
  }

  /** The callbacks that the calls on stream `id` make. */
  ghost function Heard(dbs: seq<Db>, sys: Sys, calls: seq<Call>, id: nat): seq<Event>
    requires Sound(dbs, sys) && AllInRange(dbs, calls)
    decreases |calls|
  {
    if calls == [] then []
    else
      var a := Step(dbs, sys, calls[0]);
      (if calls[0].id == id then a.events else []) + Heard(dbs, a.sys, calls[1..], id)
  }

  // ----- one call on a broken stream

  /** On a broken stream the end-of-data part answers with the error that the scratch happens to hold. */
  lemma BrokenEod(e: Engine, v: View, inUse: bool, stale: Status, onEvent: bool)
    requires v.status.Broken()
    ensures EodCode(e, v, inUse, stale, onEvent) == HS_SUCCESS <==> !onEvent || (!inUse && !stale.error)
    ensures EodCode(e, v, inUse, stale, onEvent) == HS_UNKNOWN_ERROR <==> onEvent && !inUse && stale.error
    ensures EodView(e, v, inUse, onEvent) == v && EodEvents(e, v, inUse, onEvent) == []
    ensures EodLeft(e, v, inUse, stale, onEvent) == stale
  {
  }

  ghost predicate Broken(sys: Sys, id: nat)
    requires id < |sys.streams|
  {
    sys.streams[id].status.Broken()
  }

  /** Nobody listens, or the scratch holds no error. */
  predicate Unhindered(sys: Sys, c: Call) { !c.onEvent || !sys.core.error }

  /** A call on a broken stream makes no callback, leaves the scratch alone and passes when it is unhindered. */
  lemma BrokenCall(dbs: seq<Db>, sys: Sys, c: Call)
    requires Sound(dbs, sys) && InRange(dbs, c) && Broken(sys, c.id)
    ensures Passes(dbs, sys, c) <==> !c.Scan? && !Refused(dbs, c) && Unhindered(sys, c)
    ensures var a, f := Step(dbs, sys, c), sys.streams[c.id];
            a.events == [] && a.sys.core == sys.core &&
            EodFull(dbs[c.id], f, false, c.onEvent) == f &&
            a.sys.streams == if Passes(dbs, sys, c) then sys.streams[c.id := Replacement(dbs, sys, c)] else sys.streams
  {
    hide Db.Valid, Db.Holds, Db.Made, ExpandFull;
    BrokenEod(dbs[c.id].engine, sys.streams[c.id].Shown(), false, sys.core, c.onEvent);
    hide EodCode, EodView, EodEvents, EodLeft;
    assert sys.streams[c.id := sys.streams[c.id]] == sys.streams;
  }

  /** The call succeeds in putting something else in the place of stream `id`. */
  ghost predicate Releases(dbs: seq<Db>, sys: Sys, c: Call, id: nat)
    requires Sound(dbs, sys) && InRange(dbs, c)
  {
    c.id == id && (c.Reset? || c.CopyOver? || c.ExpandOver?) && Step(dbs, sys, c).code == HS_SUCCESS
  }

  /** When a broken stream can be replaced: an expansion also needs as much of its form as it demands. */
  lemma ReleasedWhen(dbs: seq<Db>, sys: Sys, c: Call)
    requires Sound(dbs, sys) && InRange(dbs, c) && Broken(sys, c.id)
    ensures Releases(dbs, sys, c, c.id) <==>
            (c.Reset? || c.CopyOver? || c.ExpandOver?) && !Refused(dbs, c) && Unhindered(sys, c) &&
            (c.ExpandOver? ==> dbs[c.id].Demanded(c.form) <= c.size)
  {
    hide Db.Valid, Db.Holds, Db.Made, Db.Demanded, EodAnswer, ExpandFull;
    BrokenCall(dbs, sys, c);
  }

  /** The call writes to the stream: an expansion does once it has read the offset of its form. */
  ghost predicate Touches(dbs: seq<Db>, sys: Sys, c: Call, id: nat)
    requires Sound(dbs, sys) && InRange(dbs, c)
  {
    c.id == id && !c.Close? && Passes(dbs, sys, c) && (c.ExpandOver? ==> StreamCompress.OFFSET_FIELD <= c.size)
  }

  lemma UntouchedStep(dbs: seq<Db>, sys: Sys, c: Call, id: nat)
    requires Sound(dbs, sys) && InRange(dbs, c) && id < |dbs| && Broken(sys, id) && !Touches(dbs, sys, c, id)
    ensures Step(dbs, sys, c).sys.streams[id] == sys.streams[id]
    ensures c.id == id ==> Step(dbs, sys, c).events == [] && Step(dbs, sys, c).sys.core == sys.core
  {
    hide Db.Valid, Db.Holds, Db.Made, ExpandFull, EodFull, EodAnswer;
    if c.id == id {
      BrokenCall(dbs, sys, c);
      hide Step;
      if c.ExpandOver? && Passes(dbs, sys, c) {
        ExpandLeaves(dbs[id], sys.streams[id], c.form, c.size);
      }
    }
  }

  /**
   When a call on a broken stream leaves it not broken.  An expansion does so once the size
   stated reaches past the status byte of a form that is not broken, whatever it answers.
   */
  ghost predicate Revives(dbs: seq<Db>, sys: Sys, c: Call, id: nat)
    requires Sound(dbs, sys) && InRange(dbs, c)
  {
    c.id == id && !Refused(dbs, c) && Unhindered(sys, c) &&
    match c
    case Scan(_, _, _) => false
    case Close(_, _) => false
    case Reset(_, _) => true
    case CopyOver(_, src, _) => !Broken(sys, src)
    case ExpandOver(_, form, size, _) => 9 <= size && !StatusOf(form.src[0]).Broken()
  }

  lemma RevivedWhen(dbs: seq<Db>, sys: Sys, c: Call, id: nat)
    requires Sound(dbs, sys) && InRange(dbs, c) && id < |dbs| && Broken(sys, id)
    ensures Broken(Step(dbs, sys, c).sys, id) <==> !Revives(dbs, sys, c, id)
    ensures c.id == id ==> Step(dbs, sys, c).events == []
  {
    hide Db.Valid, Db.Holds, Db.Made, ExpandFull, EodFull, EodAnswer, StatusOf;
    if c.id == id {
      BrokenCall(dbs, sys, c);
      hide Step;
      if c.ExpandOver? {
        ExpandLeaves(dbs[id], sys.streams[id], c.form, c.size);
      }
    }
  }

  /** A failed expansion over a broken stream leaves it broken exactly when it did not reach a clean status byte. */
  lemma FailedExpansion(dbs: seq<Db>, sys: Sys, c: Call)
    requires Sound(dbs, sys) && InRange(dbs, c) && Broken(sys, c.id)
    requires c.ExpandOver? && Passes(dbs, sys, c) && c.size < dbs[c.id].Demanded(c.form)
    ensures Step(dbs, sys, c).code == HS_INVALID
    ensures Broken(Step(dbs, sys, c).sys, c.id) <==> c.size < 9 || StatusOf(c.form.src[0]).Broken()
    ensures Step(dbs, sys, c).sys.streams[c.id].offset ==
            if c.size < 8 then sys.streams[c.id].offset else c.form.offset
  {
    hide Db.Valid, Db.Holds, Db.Made, Db.Demanded, ExpandFull, EodFull, EodAnswer, StatusOf;
    BrokenCall(dbs, sys, c);
    RevivedWhen(dbs, sys, c, c.id);
    ExpandLeaves(dbs[c.id], sys.streams[c.id], c.form, c.size);
  }

  // ----- whole runs

  ghost predicate NeverTouched(dbs: seq<Db>, sys: Sys, calls: seq<Call>, id: nat)
    requires Sound(dbs, sys) && AllInRange(dbs, calls)
    decreases |calls|
  {
    calls == [] ||
    (!Touches(dbs, sys, calls[0], id) && NeverTouched(dbs, Step(dbs, sys, calls[0]).sys, calls[1..], id))
  }

  /**
   Through any calls, on it and on other streams of the same scratch, a broken stream
   makes no callback and keeps every byte, until a reset or copy over it succeeds or
   an expansion over it gets as far as the offset of its form.
   */
  lemma {:induction false} BrokenStaysBroken(dbs: seq<Db>, sys: Sys, calls: seq<Call>, id: nat)
    requires Sound(dbs, sys) && AllInRange(dbs, calls) && id < |dbs| && Broken(sys, id)
    requires NeverTouched(dbs, sys, calls, id)
    ensures Run(dbs, sys, calls).streams[id] == sys.streams[id] && Heard(dbs, sys, calls, id) == []
    decreases |calls|
  {
    hide Step, Touches, InRange;
    if calls != [] {
      UntouchedStep(dbs, sys, calls[0], id);
      BrokenStaysBroken(dbs, Step(dbs, sys, calls[0]).sys, calls[1..], id);
    }
  }

  /** The stream is broken now and after each of the calls. */
  ghost predicate AlwaysBroken(dbs: seq<Db>, sys: Sys, calls: seq<Call>, id: nat)
    requires Sound(dbs, sys) && AllInRange(dbs, calls) && id < |dbs|
    decreases |calls|
  {
    Broken(sys, id) && (calls == [] || AlwaysBroken(dbs, Step(dbs, sys, calls[0]).sys, calls[1..], id))
  }

  ghost predicate NeverRevived(dbs: seq<Db>, sys: Sys, calls: seq<Call>, id: nat)
    requires Sound(dbs, sys) && AllInRange(dbs, calls)
    decreases |calls|
  {
    calls == [] ||
    (!Revives(dbs, sys, calls[0], id) && NeverRevived(dbs, Step(dbs, sys, calls[0]).sys, calls[1..], id))
  }

  /** A broken stream stays broken exactly through the runs in which no call revives it, and is silent in them. */
  lemma {:induction false} SilentUntilRevived(dbs: seq<Db>, sys: Sys, calls: seq<Call>, id: nat)
    requires Sound(dbs, sys) && AllInRange(dbs, calls) && id < |dbs| && Broken(sys, id)
    ensures AlwaysBroken(dbs, sys, calls, id) <==> NeverRevived(dbs, sys, calls, id)
    ensures NeverRevived(dbs, sys, calls, id) ==> Heard(dbs, sys, calls, id) == []
    decreases |calls|
  {
    hide Step, Revives, InRange;
    if calls != [] {
      var next := Step(dbs, sys, calls[0]).sys;
      RevivedWhen(dbs, sys, calls[0], id);
      if Broken(next, id) {
        SilentUntilRevived(dbs, next, calls[1..], id);
      }
    }
  }

  // ----- a reset that an error of another stream prevents

  /** A database with one byte of groups after the status byte, and no history. */
  function Small(exec: Core -> Outcome): Db {
    Db(Engine(0, [0], None, exec, None, None, None, None, None),
       StreamTheorems.HistoryLayout().(groups := StreamPlan.Region(1, 1), history := 2, historyRequired := 0), 2)
  }

  function Fresh(): Full { Full(0, CLEAN, [0], []) }

  /** Data [1] makes the engine fail, anything else makes the user stop. */
  function Touchy(): Db {
    Small((c: Core) =>
            Outcome([], if c.data == [1] then c.status.(error := true) else c.status.(terminated := true), c.state,
                    false))
  }

  /** Stream 1 is terminated, then stream 0 fails; resetting stream 1 answers with that failure and does nothing. */
  lemma ErrorOfAnotherStream()
    ensures var dbs, sys := [Touchy(), Touchy()], Sys([Fresh(), Fresh()], CLEAN);
            var stop, fail, reset := Scan(1, Some([0]), true), Scan(0, Some([1]), true), Reset(1, true);
            Sound(dbs, sys) && AllInRange(dbs, [stop, fail, reset]) &&
            var a := Step(dbs, sys, stop);
            var b := Step(dbs, a.sys, fail);
            var c := Step(dbs, b.sys, reset);
            a.code == HS_SCAN_TERMINATED && b.code == HS_UNKNOWN_ERROR && c.code == HS_UNKNOWN_ERROR &&
            c.sys.streams[1] == a.sys.streams[1] && c.sys.streams[1].status == CLEAN.(terminated := true)
  {
    var e, v := Touchy().engine, Fresh().Shown();
    assert ScanStep(e, v, Some([0]), true) ==
           Scanned(v.(status := CLEAN.(terminated := true)), [], HS_SCAN_TERMINATED,
                   Some(CLEAN.(terminated := true)));
    assert ScanStep(e, v, Some([1]), true) ==
           Scanned(v.(status := CLEAN.(error := true)), [], HS_UNKNOWN_ERROR, Some(CLEAN.(error := true)));
  }

  // ----- a failed expansion that revives

  /** Every scan reports a match, upon which the user stops. */
  function Alarm(): Db {
    Small((c: Core) => Outcome([Event(7, 0, 1)], c.status.(terminated := true), c.state, false))
  }

  lemma AlarmRings(dbs: seq<Db>, sys: Sys)
    requires dbs == [Alarm()] && Sound(dbs, sys) && !Broken(sys, 0)
    ensures var a := Step(dbs, sys, Ping());
            a.events == [Event(7, 0, 1)] && a.code == HS_SCAN_TERMINATED &&
            Broken(a.sys, 0) && a.sys.core == a.sys.streams[0].status && !a.sys.core.error
  {
    hide Db.Valid, Db.Holds, Last, Small;
    var v := sys.streams[0].Shown();
    var r := ScanStep(Alarm().engine, v, Some([5]), true);
    assert r.events == [Event(7, 0, 1)] && r.code == HS_SCAN_TERMINATED &&
           r.view.status == v.status.(terminated := true) && r.core == Some(r.view.status) by { OneAlarm(v); }
  }

  lemma OneAlarm(v: View)
    requires !v.status.Broken()
    ensures var r := ScanStep(Alarm().engine, v, Some([5]), true);
            r.events == [Event(7, 0, 1)] && r.code == HS_SCAN_TERMINATED &&
            r.view.status == v.status.(terminated := true) && r.core == Some(r.view.status)
  {
  }

  /** The form of a stream just opened takes ten bytes, and all are demanded. */
  lemma {:induction false} TenDemanded(exec: Core -> Outcome)
    ensures var db, form := Small(exec), Form([0, 0], 0);
            db.Made(form) && db.Demanded(form) >= 10
  {
    var l, m := Small(exec).layout, [0, 0];
    var plan := l.Plan(m, 0);
    assert l.AfterFixed(m) == [] && plan == l.Fixed(0);
    forall i | 0 <= i < |plan| ensures StreamPlan.StepFits(m, plan[i]) { }
    var rest := plan[1..];
    assert plan[6] == rest[5] == StreamPlan.Raw(StreamPlan.Region(1, 1));
    CopyDemands(m, rest, 5, 9);
  }

  /** A run of steps demands at least the bytes of each copy in it. */
  lemma {:induction false} CopyDemands(m: Data, steps: seq<StreamPlan.Step>, i: nat, cur: nat)
    requires StreamPlan.Fits(m, steps) && i < |steps| && steps[i].Raw?
    ensures StreamPlan.Need(m, steps, cur) >= cur + steps[i].region.len
  {
    hide StreamPlan.StepFits, StreamPlan.StepBytes, StreamPlan.StepChecked;
    assert StreamPlan.StepFits(m, steps[0]);
    if i > 0 {
      CopyDemands(m, steps[1..], i - 1, cur + |StreamPlan.StepBytes(m, steps[0])|);
    } else {
      CopyIsChecked(m, steps[0]);
    }
  }

  lemma CopyIsChecked(m: Data, s: StreamPlan.Step)
    requires StreamPlan.StepFits(m, s) && s.Raw?
    ensures StreamPlan.StepChecked(m, s) && |StreamPlan.StepBytes(m, s)| == s.region.len
  {
  }

  /**
   The stream reports and is terminated.  An expansion over it is given one byte too
   few of the form of a stream just opened, and fails; the next scan reports again.
   */
  lemma TruncatedFormRevives()
    ensures var dbs, sys, scan, expand := [Alarm()], Sys([Fresh()], CLEAN), Ping(), Truncated();
            Sound(dbs, sys) && InRange(dbs, scan) && InRange(dbs, expand) &&
            var a := Step(dbs, sys, scan);
            var b := Step(dbs, a.sys, expand);
            var c := Step(dbs, b.sys, scan);
            a.code == HS_SCAN_TERMINATED && b.code == HS_INVALID && b.events == [] &&
            c.events == [Event(7, 0, 1)] && c.code == HS_SCAN_TERMINATED
  {
    AlarmFits();
    hide Sound, InRange, Alarm, Step, Fresh, Truncated, Ping, Db.Made, Db.Demanded, StatusOf;
    AlarmAgain([Alarm()], Sys([Fresh()], CLEAN), Truncated());
  }

  function Ping(): Call { Scan(0, Some([5]), true) }

  function Truncated(): Call { ExpandOver(0, Form([0, 0], 0), 9, true) }

  lemma AlarmFits()
    ensures var dbs, sys, c := [Alarm()], Sys([Fresh()], CLEAN), Truncated();
            Sound(dbs, sys) && !Broken(sys, 0) && InRange(dbs, Ping()) && InRange(dbs, c) && c.ExpandOver? &&
            9 <= c.size < dbs[0].Demanded(c.form) && !StatusOf(c.form.src[0]).Broken()
  {
    TenDemanded(Alarm().engine.exec);
    hide Db.Demanded;
  }

  /** The same for any expansion that fails past the status byte of a form that is not broken. */
  lemma AlarmAgain(dbs: seq<Db>, sys: Sys, expand: Call)
    requires dbs == [Alarm()] && Sound(dbs, sys) && !Broken(sys, 0)
    requires expand.ExpandOver? && InRange(dbs, expand) && 9 <= expand.size < dbs[0].Demanded(expand.form)
    requires !StatusOf(expand.form.src[0]).Broken()
    ensures var a := Step(dbs, sys, Ping());
            var b := Step(dbs, a.sys, expand);
            var c := Step(dbs, b.sys, Ping());
            a.code == HS_SCAN_TERMINATED && b.code == HS_INVALID && b.events == [] &&
            c.events == [Event(7, 0, 1)] && c.code == HS_SCAN_TERMINATED
  {
    hide Alarm, Db.Made, Db.Valid, Db.Holds, Db.Demanded, Step, EodAnswer, StatusOf, Replacement, EodFull;
    AlarmRings(dbs, sys);
    var a := Step(dbs, sys, Ping());
    BrokenCall(dbs, a.sys, expand);
    FailedExpansion(dbs, a.sys, expand);
    AlarmRings(dbs, Step(dbs, a.sys, expand).sys);
  }

  // ----- the calls on the objects

  /** Streams in memory of their own, which holds what `sys` says. */
  ghost predicate Shows(streams: seq<Stream>, scratch: Scratch, dbs: seq<Db>, sys: Sys)
    reads streams, scratch, set s | s in streams :: s.history
  {
    |streams| == |dbs| == |sys.streams| && !scratch.inUse && scratch.status == sys.core &&
    (forall i, j :: 0 <= i < |streams| && 0 <= j < |streams| && i != j ==>
      streams[i] != streams[j] && streams[i].history != streams[j].history) &&
    forall i :: 0 <= i < |streams| ==>
      streams[i].Valid() && streams[i].engine == dbs[i].engine && FullOf(streams[i]) == sys.streams[i]
  }

  /**
   Each call on the objects is the step that the theorems above are about.  `same`
   compares the two databases of a copy, `buf` is the buffer of an expansion.
   */
  method Execute(streams: seq<Stream>, scratch: Scratch, c: Call, same: bool, buf: Data, dbs: seq<Db>, ghost sys: Sys)
      returns (code: int, events: seq<Event>)
    requires Sound(dbs, sys) && Shows(streams, scratch, dbs, sys) && InRange(dbs, c)
    requires c.CopyOver? ==> same == (dbs[c.src] == dbs[c.id])
    requires c.ExpandOver? ==> StreamCompress.Holds(buf, 0, dbs[c.id].Image(c.form))
    modifies scratch, streams[c.id], streams[c.id].history
    ensures var a := Step(dbs, sys, c);
            code == a.code && events == a.events && Shows(streams, scratch, dbs, a.sys)
  {
    hide Db.Valid, Db.Holds, Db.Made, Db.Image, StreamCompress.Holds, Last, EodCode, EodView, EodEvents, EodLeft,
         ScanStep, KeepsSize, ExpandFull, ExpandCode;
    code, events := Perform(streams, scratch, c, same, buf, dbs, sys);
    hide Step;
  }

  method Perform(streams: seq<Stream>, scratch: Scratch, c: Call, same: bool, buf: Data, dbs: seq<Db>, ghost sys: Sys)
      returns (code: int, events: seq<Event>)
    requires Sound(dbs, sys) && Shows(streams, scratch, dbs, sys) && InRange(dbs, c)
    requires c.CopyOver? ==> same == (dbs[c.src] == dbs[c.id])
    requires c.ExpandOver? ==> StreamCompress.Holds(buf, 0, dbs[c.id].Image(c.form))
    modifies scratch, streams[c.id], streams[c.id].history
    ensures streams[c.id].Valid() && !scratch.inUse
    ensures var a := Step(dbs, sys, c);
            code == a.code && events == a.events && FullOf(streams[c.id]) == a.sys.streams[c.id] &&
            scratch.status == a.sys.core
  {
    hide ScanStep, EodCode, EodView, EodEvents, EodLeft, Last, ExpandFull, ExpandCode, KeepsSize, Db.Made,
         StreamCompress.Holds, Db.Image;
    var id := streams[c.id];
    assert id.ViewOf() == sys.streams[c.id].Shown();
    match c {
      case Scan(_, data, onEvent) =>
        NoData(dbs[c.id].engine, sys.streams[c.id].Shown(), onEvent, sys.core);
        code, events := HsScanStream(id, data, scratch, onEvent);
      case Close(_, onEvent) =>
        code, events := EndOfData(id, scratch, onEvent);
      case Reset(_, onEvent) =>
        code, events := HsResetStream(id, scratch, onEvent);
      case CopyOver(_, src, onEvent) =>
        if src == c.id || !same {
          return HS_INVALID, [];
        }
        code, events := HsResetAndCopyStream(id, streams[src], scratch, onEvent);
      case ExpandOver(_, form, size, onEvent) =>
        code, events := HsResetAndExpandStream(dbs[c.id], id, buf, size, scratch, onEvent, form);
    }
  }
}
