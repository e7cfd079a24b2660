/**
 The stream lifecycle of src/runtime.c over an abstract matching engine: opening,
 scanning, closing and resetting streams, vectored scans, the status flags that
 break a stream, and the history buffer.
 */
module StreamRuntime {
  import opened Common

  type Data = seq<Byte>

  /** The STATUS_ flags. */
  datatype Status = Status(terminated: bool, exhausted: bool, dirty: bool, error: bool) {
    /** can_stop_matching. */
    predicate Broken() { terminated || exhausted || error }
  }

  const CLEAN := Status(false, false, false, false)

  datatype Event = Event(id: nat, from: nat, end: nat)

  /** What the engine is given: core_info, and the rest of the stream's state as an opaque value. */
  datatype Core = Core(state: Data, history: Data, data: Data, offset: nat, status: Status, onEvent: bool)

  /** What one part of the engine does: callbacks made, and the status and state it leaves. */
  datatype Outcome = Outcome(events: seq<Event>, status: Status, state: Data, halt: bool)

  /** A RoseEngine; programs that may be missing are optional. */
  datatype Engine = Engine(
    historyRequired: nat, initial: Data,
    zero: Option<Core -> Outcome>, exec: Core -> Outcome, flushSom: Option<Core -> Outcome>,
    zeroEod: Option<Core -> Outcome>, boundaryEod: Option<Core -> Outcome>, execEod: Option<Core -> Outcome>,
    flushComb: Option<Core -> Outcome>)

  /** The program for offset 0 halts a scan only when the user has, or when there is nothing left to match. */
  ghost predicate Lawful(e: Engine) {
    e.zero.Some? ==> forall c: Core :: e.zero.value(c).halt ==> e.zero.value(c).status.Broken()
  }

  /** The last `n` items, or all if there are fewer. */
  function Last(s: Data, n: nat): (r: Data)
    ensures |r| == Min(n, |s|)
  {
    if |s| <= n then s else s[|s| - n..]
  }

  // ----- a stream as a value

  /** `history` is what getHistory and getHistoryAmount show of the history buffer. */
  datatype View = View(offset: nat, history: Data, status: Status, state: Data)

  function Opened(e: Engine): View { View(0, [], CLEAN, e.initial) }

  /** A run of engine parts under way. */
  datatype Run = Run(events: seq<Event>, core: Core, halted: bool)

  function Heard(onEvent: bool, events: seq<Event>): seq<Event> { if onEvent then events else [] }

  function After(r: Run, part: Option<Core -> Outcome>): Run {
    if part.None? then r.(halted := false)
    else
      var o := part.value(r.core);
      Run(r.events + Heard(r.core.onEvent, o.events), r.core.(status := o.status, state := o.state), o.halt)
  }

  /** The SOM flush is skipped once the user has stopped matching, and its halt terminates. */
  function Flushed(r: Run, part: Option<Core -> Outcome>): Run {
    if r.core.status.terminated then r
    else
      var f := After(r, part);
      if f.halted then f.(core := f.core.(status := f.core.status.(terminated := true))) else f
  }

  /** Result of an API call: the stream, the callbacks, the code, and the status that the scratch is left with. */
  datatype Scanned = Scanned(view: View, events: seq<Event>, code: int, core: Option<Status>)

  function Start(v: View, data: Data, onEvent: bool): Run {
    Run([], Core(v.state, v.history, data, v.offset, v.status, onEvent), false)
  }

  function BrokenCode(s: Status): int {
    if s.error then HS_UNKNOWN_ERROR else if s.terminated then HS_SCAN_TERMINATED else HS_SUCCESS
  }

  /** hs_scan_stream_internal. */
  function ScanStep(e: Engine, v: View, data: Option<Data>, onEvent: bool): Scanned {
    if data.None? then Scanned(v, [], HS_INVALID, None)
    else if v.status.Broken() then Scanned(v, [], BrokenCode(v.status), None)
    else if data.value == [] then Scanned(v, [], HS_SUCCESS, None)
    else
      var begun := Start(v, data.value, onEvent);
      var z := if v.offset == 0 then After(begun, e.zero) else begun;
      if z.halted then
        Scanned(v.(status := z.core.status, state := z.core.state), z.events,
                if z.core.status.terminated then HS_SCAN_TERMINATED else HS_SUCCESS, Some(z.core.status))
      else
        var r := Flushed(After(z, Some(e.exec)), e.flushSom);
        var s := r.core.status;
        if s.Broken() then Scanned(v.(status := s, state := r.core.state), r.events, BrokenCode(s), Some(s))
        else
          Scanned(View(v.offset + |data.value|, Last(v.history + data.value, e.historyRequired), s, r.core.state),
                  r.events, HS_SUCCESS, Some(s))
  }

  /** report_eod_matches: callbacks, and the status left in the scratch if it was set up at all. */
  function EodStep(e: Engine, v: View): (seq<Event>, Option<Status>, Data) {
    if v.status.Broken() then ([], None, v.state)
    else
      var r := Start(v, [], true);
      var b := After(r, if v.offset == 0 then e.zeroEod else e.boundaryEod);
      if b.halted then (b.events, Some(b.core.status), b.core.state)
      else
        var x := if v.offset == 0 then b else After(b, e.execEod);
        var f := Flushed(Flushed(x, e.flushSom), e.flushComb);
        (f.events, Some(f.core.status), f.core.state)
  }

  // ----- the objects

  class Scratch {
    var inUse: bool
    /** core_info.status, which stays as it was until the next scan sets it up. */
    var status: Status

    constructor ()
      ensures !inUse && status == CLEAN
    {
      inUse, status := false, CLEAN;
    }
  }

  function Left(core: Option<Status>, was: Status): Status { if core.Some? then core.value else was }

  class Stream {
    const engine: Engine
    var offset: nat
    var status: Status
    var state: Data
    const history: array<Byte>

    ghost predicate Valid()
      reads this, history
    {
      history.Length == engine.historyRequired
    }

    ghost function ViewOf(): View
      requires Valid()
      reads this, history
    {
      View(offset, Last(history[..], Min(engine.historyRequired, offset)), status, state)
    }

    /** The whole history buffer after a scan: it takes the data exactly when the stream moves on. */
    ghost predicate Kept(from: nat, was: Data, data: Option<Data>)
      reads this, history
    {
      if offset == from then history[..] == was
      else data.Some? && history[..] == Last(was + data.value, engine.historyRequired)
    }

    /** hs_open_stream, in memory that holds anything. */
    constructor (e: Engine, memory: array<Byte>)
      requires memory.Length == e.historyRequired
      ensures Valid() && engine == e && history == memory && ViewOf() == Opened(e)
    {
      engine := e;
      offset, status, state := 0, CLEAN, e.initial;
      history := memory;
    }

    /** init_stream on a stream that has its history buffer. */
    method Init()
      requires Valid()
      modifies this
      ensures Valid() && ViewOf() == Opened(engine) && history[..] == old(history[..])
    {
      offset, status, state := 0, CLEAN, engine.initial;
    }

    /** maintainHistoryBuffer. */
    method MaintainHistory(buffer: Data)
      requires Valid()
      modifies history
      ensures history[..] == Last(old(history[..]) + buffer, engine.historyRequired)
    {
      var required, length := engine.historyRequired, |buffer|;
      if required == 0 || length == 0 {
        return;
      }
      ghost var was := history[..];
      if length < required {
        var shortfall := required - length;
        forall i | 0 <= i < shortfall {
          history[i] := history[required - shortfall + i];
        }
      }
      var amount := Min(required, length);
      forall i | 0 <= i < amount {
        history[required - amount + i] := buffer[length - amount + i];
      }
      LastOfJoin(was, buffer, required, history[..]);
    }

    /** hs_scan_stream_internal. */
    method ScanInternal(data: Option<Data>, scratch: Scratch, onEvent: bool) returns (code: int, events: seq<Event>)
      requires Valid()
      modifies this, history, scratch`status
      ensures Valid()
      ensures var r := ScanStep(engine, old(ViewOf()), data, onEvent);
              ViewOf() == r.view && events == r.events && code == r.code &&
              scratch.status == Left(r.core, old(scratch.status))
      ensures Kept(old(offset), old(history[..]), data)
    {
      hide After, Flushed;
      events := [];
      if data.None? {
        return HS_INVALID, events;
      }
      if status.Broken() {
        if status.error {
          return HS_UNKNOWN_ERROR, events;
        } else if status.terminated {
          return HS_SCAN_TERMINATED, events;
        } else {
          return HS_SUCCESS, events;
        }
      }
      if |data.value| == 0 {
        return HS_SUCCESS, events;
      }
      ghost var before := ViewOf();
      var shown := Min(engine.historyRequired, offset);
      var visible := history[engine.historyRequired - shown..];
      var run := Run([], Core(state, visible, data.value, offset, status, onEvent), false);
      assert run == Start(before, data.value, onEvent);
      if offset == 0 {
        run := After(run, engine.zero);
        if run.halted {
          status, state, scratch.status, events := run.core.status, run.core.state, run.core.status, run.events;
          return if scratch.status.terminated then HS_SCAN_TERMINATED else HS_SUCCESS, events;
        }
      }
      run := Flushed(After(run, Some(engine.exec)), engine.flushSom);
      status, state, scratch.status, events := run.core.status, run.core.state, run.core.status, run.events;
      if scratch.status.error {
        return HS_UNKNOWN_ERROR, events;
      } else if !scratch.status.Broken() {
        ShownAfter(history[..], data.value, offset, engine.historyRequired);
        MaintainHistory(data.value);
        offset := offset + |data.value|;
      } else if scratch.status.terminated {
        return HS_SCAN_TERMINATED, events;
      }
      return HS_SUCCESS, events;
    }

    /** report_eod_matches. */
    method ReportEod(scratch: Scratch) returns (events: seq<Event>)
      requires Valid()
      modifies this`state, scratch`status
      ensures Valid()
      ensures var (ev, core, st) := EodStep(engine, old(ViewOf()));
              events == ev && scratch.status == Left(core, old(scratch.status)) &&
                  ViewOf() == old(ViewOf()).(state := st)
    {
      hide After, Flushed;
      events := [];
      if status.Broken() {
        return;
      }
      var shown := Min(engine.historyRequired, offset);
      var run := Run([], Core(state, history[engine.historyRequired - shown..], [], offset, status, true), false);
      assert run == Start(ViewOf(), [], true);
      run := After(run, if offset == 0 then engine.zeroEod else engine.boundaryEod);
      if !run.halted {
        if offset != 0 {
          run := After(run, engine.execEod);
        }
        run := Flushed(run, engine.flushSom);
        run := Flushed(run, engine.flushComb);
      }
      state, scratch.status, events := run.core.state, run.core.status, run.events;
    }
  }

  /** The history buffer after a write holds the last of what it held and the data. */
  lemma LastOfJoin(was: Data, buffer: Data, n: nat, now: Data)
    requires |was| == |now| == n && |buffer| > 0
    requires forall i :: 0 <= i < n ==>
             now[i] == if i < n - |buffer| then was[|buffer| + i] else buffer[|buffer| - n + i]
    ensures now == Last(was + buffer, n)
  {
    var r := Last(was + buffer, n);
    forall i | 0 <= i < n ensures now[i] == r[i] {
      assert r[i] == (was + buffer)[|buffer| + i];
    }
  }

  /** What is shown of the buffer after a write is the last of what was shown before it and the data. */
  lemma ShownAfter(buffer: Data, data: Data, offset: nat, n: nat)
    requires |buffer| == n
    ensures Last(Last(buffer + data, n), Min(n, offset + |data|)) == Last(Last(buffer, Min(n, offset)) + data, n)
  {
    var k := Min(n, offset);
    var m := Min(n, offset + |data|);
    var all := buffer + data;
    assert Last(buffer, k) == buffer[n - k..];
    assert Last(buffer, k) + data == all[n - k..];
    assert Last(all, n) == all[|data|..];
    assert Last(Last(all, n), m) == all[|all| - m..];
    assert Last(all[n - k..], n) == all[|all| - m..];
  }

  // ----- the API

  /** hs_scan_stream. */
  method HsScanStream(id: Stream, data: Option<Data>, scratch: Scratch, onEvent: bool)
      returns (code: int, events: seq<Event>)
    requires id.Valid()
    modifies id, id.history, scratch
    ensures id.Valid() && scratch.inUse == old(scratch.inUse)
    ensures data.None? ==> code == HS_INVALID
    ensures data.Some? && scratch.inUse ==> code == HS_SCRATCH_IN_USE
    ensures data.None? || scratch.inUse ==>
              events == [] && id.ViewOf() == old(id.ViewOf()) && scratch.status == old(scratch.status)
    ensures id.Kept(old(id.offset), old(id.history[..]), data)
    ensures data.Some? && !scratch.inUse ==>
              var r := ScanStep(id.engine, old(id.ViewOf()), data, onEvent);
              id.ViewOf() == r.view && events == r.events && code == r.code &&
              scratch.status == Left(r.core, old(scratch.status))
  {
    hide ScanStep;
    if data.None? {
      return HS_INVALID, [];
    }
    if scratch.inUse {
      return HS_SCRATCH_IN_USE, [];
    }
    scratch.inUse := true;
    code, events := id.ScanInternal(data, scratch, onEvent);
    scratch.inUse := false;
  }

  /**
   The part that hs_close_stream, hs_reset_stream, hs_reset_and_copy_stream and
   hs_reset_and_expand_stream share: end-of-data matches, if the caller listens.
   */
  method EndOfData(id: Stream, scratch: Scratch, onEvent: bool) returns (code: int, events: seq<Event>)
    requires id.Valid()
    modifies id`state, scratch
    ensures id.Valid() && scratch.inUse == old(scratch.inUse)
    ensures code == EodCode(id.engine, old(id.ViewOf()), old(scratch.inUse), old(scratch.status), onEvent)
    ensures events == EodEvents(id.engine, old(id.ViewOf()), old(scratch.inUse), onEvent)
    ensures scratch.status == EodLeft(id.engine, old(id.ViewOf()), old(scratch.inUse), old(scratch.status), onEvent)
    ensures id.ViewOf() == EodView(id.engine, old(id.ViewOf()), old(scratch.inUse), onEvent)
    ensures id.history[..] == old(id.history[..])
  {
    hide EodStep;
    if !onEvent {
      return HS_SUCCESS, [];
    }
    if scratch.inUse {
      return HS_SCRATCH_IN_USE, [];
    }
    scratch.inUse := true;
    events := id.ReportEod(scratch);
    scratch.inUse := false;
    code := if scratch.status.error then HS_UNKNOWN_ERROR else HS_SUCCESS;
  }

  /** Callbacks, stream and scratch status after the end-of-data part of a call. */
  function EodEvents(e: Engine, v: View, inUse: bool, onEvent: bool): seq<Event> {
    if onEvent && !inUse then EodStep(e, v).0 else []
  }

  function EodView(e: Engine, v: View, inUse: bool, onEvent: bool): View {
    if onEvent && !inUse then v.(state := EodStep(e, v).2) else v
  }

  function EodLeft(e: Engine, v: View, inUse: bool, stale: Status, onEvent: bool): Status {
    if onEvent && !inUse then Left(EodStep(e, v).1, stale) else stale
  }

  /** On a broken stream nothing sets the scratch up, so the error looked at is the one the last scan left there. */
  function EodCode(e: Engine, v: View, inUse: bool, stale: Status, onEvent: bool): int {
    if !onEvent then HS_SUCCESS
    else if inUse then HS_SCRATCH_IN_USE
    else if Left(EodStep(e, v).1, stale).error then HS_UNKNOWN_ERROR
    else HS_SUCCESS
  }

  /** hs_reset_stream: a stream whose end-of-data step reports an error is not reset. */
  method HsResetStream(id: Stream, scratch: Scratch, onEvent: bool) returns (code: int, events: seq<Event>)
    requires id.Valid()
    modifies id, scratch
    ensures id.Valid() && scratch.inUse == old(scratch.inUse)
    ensures code == EodCode(id.engine, old(id.ViewOf()), old(scratch.inUse), old(scratch.status), onEvent)
    ensures events == EodEvents(id.engine, old(id.ViewOf()), old(scratch.inUse), onEvent)
    ensures scratch.status == EodLeft(id.engine, old(id.ViewOf()), old(scratch.inUse), old(scratch.status), onEvent)
    ensures id.ViewOf() == if code == HS_SUCCESS then Opened(id.engine)
                           else EodView(id.engine, old(id.ViewOf()), old(scratch.inUse), onEvent)
    ensures id.history[..] == old(id.history[..])
  {
    hide EodStep;
    code, events := EndOfData(id, scratch, onEvent);
    if code == HS_SUCCESS {
      id.Init();
    }
  }

  /** hs_reset_and_copy_stream. */
  method HsResetAndCopyStream(dst: Stream, src: Stream, scratch: Scratch, onEvent: bool)
      returns (code: int, events: seq<Event>)
    requires dst.Valid() && src.Valid() && dst != src && dst.history != src.history && dst.engine == src.engine
    modifies dst, dst.history, scratch
    ensures dst.Valid() && src.Valid() && src.ViewOf() == old(src.ViewOf()) && scratch.inUse == old(scratch.inUse)
    ensures code == EodCode(dst.engine, old(dst.ViewOf()), old(scratch.inUse), old(scratch.status), onEvent)
    ensures events == EodEvents(dst.engine, old(dst.ViewOf()), old(scratch.inUse), onEvent)
    ensures scratch.status == EodLeft(dst.engine, old(dst.ViewOf()), old(scratch.inUse), old(scratch.status), onEvent)
    ensures dst.ViewOf() == if code == HS_SUCCESS then src.ViewOf()
                            else EodView(dst.engine, old(dst.ViewOf()), old(scratch.inUse), onEvent)
    ensures dst.history[..] == if code == HS_SUCCESS then src.history[..] else old(dst.history[..])
  {
    hide EodStep;
    code, events := EndOfData(dst, scratch, onEvent);
    if code == HS_SUCCESS {
      dst.offset, dst.status, dst.state := src.offset, src.status, src.state;
      forall i | 0 <= i < dst.history.Length {
        dst.history[i] := src.history[i];
      }
      assert dst.history[..] == src.history[..];
    }
  }

  // ----- whole runs

  /** Scanning the blocks one by one until a scan does not succeed. */
  function ScanRun(e: Engine, v: View, blocks: seq<Option<Data>>, onEvent: bool, core: Status): (r: Scanned)
    ensures r.core.Some?
    decreases |blocks|
  {
    if blocks == [] then Scanned(v, [], HS_SUCCESS, Some(core))
    else
      var r := ScanStep(e, v, blocks[0], onEvent);
      var left := Left(r.core, core);
      if r.code != HS_SUCCESS then r.(core := Some(left))
      else
        var rest := ScanRun(e, r.view, blocks[1..], onEvent, left);
        rest.(events := r.events + rest.events)
  }

  lemma {:induction false} RunUnfolds(e: Engine, v: View, blocks: seq<Option<Data>>, i: nat, onEvent: bool,
                                      core: Status)
    requires i <= |blocks|
    ensures i == |blocks| ==> ScanRun(e, v, blocks[i..], onEvent, core) == Scanned(v, [], HS_SUCCESS, Some(core))
    ensures i < |blocks| ==>
              var r := ScanStep(e, v, blocks[i], onEvent);
              var left := Left(r.core, core);
              var rest := ScanRun(e, r.view, blocks[i + 1..], onEvent, left);
              ScanRun(e, v, blocks[i..], onEvent, core) ==
              if r.code != HS_SUCCESS then Scanned(r.view, r.events, r.code, Some(left))
              else Scanned(rest.view, r.events + rest.events, rest.code, rest.core)
  {
    hide ScanStep, Left;
    if i < |blocks| {
      assert blocks[i..][1..] == blocks[i + 1..];
    }
  }

  /** hs_scan_vector over the stream kept in the scratch, in memory that holds anything. */
  method HsScanVector(e: Engine, memory: array<Byte>, blocks: seq<Option<Data>>, scratch: Scratch, onEvent: bool)
      returns (code: int, events: seq<Event>)
    requires memory.Length == e.historyRequired
    modifies memory, scratch
    ensures scratch.inUse == old(scratch.inUse)
    ensures scratch.inUse ==> code == HS_SCRATCH_IN_USE && events == []
    ensures !scratch.inUse ==>
              events == VectorEvents(e, blocks, onEvent, old(scratch.status)) &&
              code == VectorCode(e, blocks, onEvent, old(scratch.status))
  {
    hide ScanStep, EodStep, ScanRun, Left, Opened, Last;
    if scratch.inUse {
      return HS_SCRATCH_IN_USE, [];
    }
    scratch.inUse := true;
    var id := new Stream(e, memory);
    events := [];
    ghost var all := ScanRun(e, Opened(e), blocks, onEvent, scratch.status);
    assert blocks[0..] == blocks;
    for i := 0 to |blocks|
      invariant id.Valid() && id.engine == e && id.history == memory && scratch.inUse
      invariant var rest := ScanRun(e, id.ViewOf(), blocks[i..], onEvent, scratch.status);
                rest.view == all.view && events + rest.events == all.events && rest.code == all.code &&
                    rest.core == all.core
    {
      RunUnfolds(e, id.ViewOf(), blocks, i, onEvent, scratch.status);
      var ret, seen := id.ScanInternal(blocks[i], scratch, onEvent);
      events := events + seen;
      if ret != HS_SUCCESS {
        scratch.inUse := false;
        return ret, events;
      }
    }
    RunUnfolds(e, id.ViewOf(), blocks, |blocks|, onEvent, scratch.status);
    code := HS_SUCCESS;
    if onEvent {
      var seen := id.ReportEod(scratch);
      events := events + seen;
      code := if scratch.status.error then HS_UNKNOWN_ERROR
              else if scratch.status.terminated then HS_SCAN_TERMINATED else HS_SUCCESS;
    }
    scratch.inUse := false;
  }

  function VectorEvents(e: Engine, blocks: seq<Option<Data>>, onEvent: bool, core: Status): seq<Event> {
    var r := ScanRun(e, Opened(e), blocks, onEvent, core);
    r.events + if onEvent && r.code == HS_SUCCESS then EodStep(e, r.view).0 else []
  }

  function VectorCode(e: Engine, blocks: seq<Option<Data>>, onEvent: bool, core: Status): int {
    var r := ScanRun(e, Opened(e), blocks, onEvent, core);
    if r.code != HS_SUCCESS || !onEvent then r.code
    else
      var s := Left(EodStep(e, r.view).1, r.core.value);
      if s.error then HS_UNKNOWN_ERROR else if s.terminated then HS_SCAN_TERMINATED else HS_SUCCESS
  }

  /** A client's loop: scan block after block until a call does not succeed. */
  method ScanAll(id: Stream, blocks: seq<Option<Data>>, scratch: Scratch, onEvent: bool)
      returns (code: int, events: seq<Event>)
    requires id.Valid() && !scratch.inUse
    modifies id, id.history, scratch
    ensures id.Valid() && !scratch.inUse
    ensures Scanned(id.ViewOf(), events, code, Some(scratch.status)) ==
            ScanRun(id.engine, old(id.ViewOf()), blocks, onEvent, old(scratch.status))
  {
    hide ScanStep, ScanRun, Left, Last;
    code, events := HS_SUCCESS, [];
    ghost var e, all := id.engine, ScanRun(id.engine, id.ViewOf(), blocks, onEvent, scratch.status);
    assert blocks[0..] == blocks;
    for i := 0 to |blocks|
      invariant id.Valid() && !scratch.inUse
      invariant var rest := ScanRun(e, id.ViewOf(), blocks[i..], onEvent, scratch.status);
                all == Scanned(rest.view, events + rest.events, rest.code, rest.core)
    {
      RunUnfolds(e, id.ViewOf(), blocks, i, onEvent, scratch.status);
      NoData(e, id.ViewOf(), onEvent, scratch.status);
      var seen;
      code, seen := HsScanStream(id, blocks[i], scratch, onEvent);
      events := events + seen;
      if code != HS_SUCCESS {
        return;
      }
    }
    RunUnfolds(e, id.ViewOf(), blocks, |blocks|, onEvent, scratch.status);
    code := HS_SUCCESS;
  }

  /** What a client does without vectored mode: open, scan until a call does not succeed, close. */
  method OpenScanClose(e: Engine, memory: array<Byte>, blocks: seq<Option<Data>>, scratch: Scratch, onEvent: bool)
      returns (scanCode: int, closeCode: int, events: seq<Event>)
    requires memory.Length == e.historyRequired && !scratch.inUse
    modifies memory, scratch
    ensures var r := ScanRun(e, Opened(e), blocks, onEvent, old(scratch.status));
            scanCode == r.code && events == r.events + (if onEvent then EodStep(e, r.view).0 else []) &&
            closeCode == EodCode(e, r.view, false, r.core.value, onEvent)
  {
    hide ScanStep, EodStep, ScanRun, Left, Opened, Last;
    var id := new Stream(e, memory);
    scanCode, events := ScanAll(id, blocks, scratch, onEvent);
    var seen;
    closeCode, seen := EndOfData(id, scratch, onEvent);
    events := events + seen;
  }

  lemma NoData(e: Engine, v: View, onEvent: bool, core: Status)
    ensures ScanStep(e, v, None, onEvent) == Scanned(v, [], HS_INVALID, None) && Left(None, core) == core
  {
  }

  // ----- theorems

  /** A scan that fails, other than for want of data, leaves the stream broken. */
  lemma FailureBreaks(e: Engine, v: View, data: Option<Data>, onEvent: bool)
    ensures var r := ScanStep(e, v, data, onEvent);
            (r.code == HS_INVALID <==> data.None?) &&
            (r.code != HS_SUCCESS && r.code != HS_INVALID ==> r.view.status.Broken())
  {
  }

  /** The code of a scan with data tells the status it leaves; only the program for offset 0 may end it otherwise. */
  lemma CodeTellsStatus(e: Engine, v: View, data: Data, onEvent: bool)
    requires v.offset > 0 || e.zero.None? || v.status.Broken()
    ensures var r := ScanStep(e, v, Some(data), onEvent);
            && (r.code == HS_UNKNOWN_ERROR <==> r.view.status.error)
            && (r.code == HS_SCAN_TERMINATED <==> r.view.status.terminated && !r.view.status.error)
            && (r.code == HS_SUCCESS <==> !r.view.status.terminated && !r.view.status.error)
  {
    hide Flushed;
  }

  lemma {:induction false} RunFailureBreaks(e: Engine, v: View, blocks: seq<Option<Data>>, onEvent: bool, core: Status)
    ensures var r := ScanRun(e, v, blocks, onEvent, core);
            (r.code == HS_INVALID ==> exists i :: 0 <= i < |blocks| && blocks[i].None?) &&
            (r.code != HS_SUCCESS && r.code != HS_INVALID ==> r.view.status.Broken())
    decreases |blocks|
  {
    hide ScanStep;
    if blocks != [] {
      FailureBreaks(e, v, blocks[0], onEvent);
      var r := ScanStep(e, v, blocks[0], onEvent);
      if r.code == HS_SUCCESS {
        RunFailureBreaks(e, r.view, blocks[1..], onEvent, Left(r.core, core));
      }
    }
  }

  /** The scans before the first missing block all succeed, so the run meets it. */
  ghost predicate MeetsMissing(e: Engine, v: View, blocks: seq<Option<Data>>, onEvent: bool, core: Status) {
    exists i :: 0 <= i < |blocks| && blocks[i].None? && ScanRun(e, v, blocks[..i], onEvent, core).code == HS_SUCCESS
  }

  lemma {:induction false} MissingIsInvalid(e: Engine, v: View, blocks: seq<Option<Data>>, onEvent: bool, core: Status)
    ensures ScanRun(e, v, blocks, onEvent, core).code == HS_INVALID <==> MeetsMissing(e, v, blocks, onEvent, core)
    decreases |blocks|
  {
    hide ScanStep, Left;
    if blocks != [] {
      FailureBreaks(e, v, blocks[0], onEvent);
      var r := ScanStep(e, v, blocks[0], onEvent);
      var left := Left(r.core, core);
      MissingIsInvalid(e, r.view, blocks[1..], onEvent, left);
      assert blocks[..0] == [];
      forall i | 0 < i < |blocks|
        ensures ScanRun(e, v, blocks[..i], onEvent, core).code ==
                if r.code != HS_SUCCESS then r.code
                else ScanRun(e, r.view, blocks[1..][..i - 1], onEvent, left).code
      {
        assert blocks[..i][1..] == blocks[1..][..i - 1];
      }
      if r.code == HS_SUCCESS && MeetsMissing(e, r.view, blocks[1..], onEvent, left) {
        var i :| 0 <= i < |blocks| - 1 && blocks[1..][i].None? &&
                 ScanRun(e, r.view, blocks[1..][..i], onEvent, left).code == HS_SUCCESS;
        assert blocks[i + 1].None? && ScanRun(e, v, blocks[..i + 1], onEvent, core).code == HS_SUCCESS;
      }
      if MeetsMissing(e, v, blocks, onEvent, core) && r.code == HS_SUCCESS {
        var i :| 0 <= i < |blocks| && blocks[i].None? && ScanRun(e, v, blocks[..i], onEvent, core).code == HS_SUCCESS;
        assert blocks[1..][i - 1].None?;
      }
    }
  }

  /**
   A vectored scan makes the callbacks of open, scan, close, except that after a
   missing block it makes no end-of-data callbacks where the client's close would.
   */
  lemma VectorIsOpenScanClose(e: Engine, blocks: seq<Option<Data>>, onEvent: bool, core: Status)
    ensures var r := ScanRun(e, Opened(e), blocks, onEvent, core);
            VectorEvents(e, blocks, onEvent, core) == r.events + (if onEvent then EodStep(e, r.view).0 else []) <==>
            !(onEvent && MeetsMissing(e, Opened(e), blocks, onEvent, core) && EodStep(e, r.view).0 != [])
  {
    hide ScanStep, ScanRun, MeetsMissing;
    RunFailureBreaks(e, Opened(e), blocks, onEvent, core);
    MissingIsInvalid(e, Opened(e), blocks, onEvent, core);
    var r := ScanRun(e, Opened(e), blocks, onEvent, core);
    if r.events + EodStep(e, r.view).0 == r.events {
      assert |EodStep(e, r.view).0| == 0;
    }
  }

  /** An engine that does nothing but report, at the end of an empty stream. */
  function EmptyMatcher(): Engine {
    Engine(0, [], None, (c: Core) => Outcome([], c.status, c.state, false), None,
           Some((c: Core) => Outcome([Event(7, 0, 0)], c.status, c.state, false)), None, None, None)
  }

  /** One missing block: the vectored scan is silent, the client's own close reports. */
  lemma MissingBlockLosesReport(core: Status)
    ensures var e := EmptyMatcher();
            VectorEvents(e, [None], true, core) == [] &&
            var r := ScanRun(e, Opened(e), [None], true, core);
            r.events + EodStep(e, r.view).0 == [Event(7, 0, 0)]
  {
    var e := EmptyMatcher();
    var r := ScanRun(e, Opened(e), [None], true, core);
    assert r == Scanned(Opened(e), [], HS_INVALID, Some(core));
  }

  // ----- the scratch's earlier contents

  lemma {:induction false} RunIgnoresCore(e: Engine, v: View, blocks: seq<Option<Data>>, onEvent: bool, a: Status,
                                          b: Status)
    requires v.status.Broken() ==> a == b == v.status
    ensures var x, y := ScanRun(e, v, blocks, onEvent, a), ScanRun(e, v, blocks, onEvent, b);
            x.view == y.view && x.events == y.events && x.code == y.code &&
            (x.view.status.Broken() ==> x.core == y.core == Some(x.view.status))
    decreases |blocks|
  {
    if blocks != [] {
      ScanLeaves(e, v, blocks[0], onEvent);
      hide ScanStep;
      var r := ScanStep(e, v, blocks[0], onEvent);
      if r.code == HS_SUCCESS {
        RunIgnoresCore(e, r.view, blocks[1..], onEvent, Left(r.core, a), Left(r.core, b));
      }
    }
  }

  /** A scan that sets the scratch up leaves it with the stream's own status. */
  lemma ScanLeaves(e: Engine, v: View, data: Option<Data>, onEvent: bool)
    ensures var r := ScanStep(e, v, data, onEvent);
            if r.core.Some? then r.core.value == r.view.status else r.view.status == v.status
  {
  }

  /** A vectored scan does not depend on what earlier calls left in the scratch. */
  lemma VectorIgnoresScratch(e: Engine, blocks: seq<Option<Data>>, onEvent: bool, a: Status, b: Status)
    ensures VectorEvents(e, blocks, onEvent, a) == VectorEvents(e, blocks, onEvent, b)
    ensures VectorCode(e, blocks, onEvent, a) == VectorCode(e, blocks, onEvent, b)
  {
    hide ScanRun;
    RunIgnoresCore(e, Opened(e), blocks, onEvent, a, b);
  }

  /** A client that goes on scanning whatever the calls return. */
  function KeepScanning(e: Engine, v: View, blocks: seq<Option<Data>>, onEvent: bool): (View, seq<Event>)
    decreases |blocks|
  {
    if blocks == [] then (v, [])
    else
      var r := ScanStep(e, v, blocks[0], onEvent);
      var (w, events) := KeepScanning(e, r.view, blocks[1..], onEvent);
      (w, r.events + events)
  }

  /** A broken stream stays as it is through any scans and makes no callback, at its end neither. */
  lemma {:induction false} BrokenIsSilent(e: Engine, v: View, blocks: seq<Option<Data>>, onEvent: bool)
    requires v.status.Broken()
    ensures KeepScanning(e, v, blocks, onEvent) == (v, []) && EodStep(e, v) == ([], None, v.state)
    decreases |blocks|
  {
    if blocks != [] {
      var r := ScanStep(e, v, blocks[0], onEvent);
      assert r.view == v && r.events == [];
      BrokenIsSilent(e, v, blocks[1..], onEvent);
      assert r.events + [] == [];
    }
  }

  /** A stream breaks in the very scan that stops it: whatever is scanned after the first stop goes unheard. */
  lemma {:induction false} NothingAfterStop(e: Engine, v: View, blocks: seq<Option<Data>>, more: seq<Option<Data>>,
                                            onEvent: bool)
    requires KeepScanning(e, v, blocks, onEvent).0.status.Broken()
    ensures KeepScanning(e, v, blocks + more, onEvent) == KeepScanning(e, v, blocks, onEvent)
    decreases |blocks|
  {
    hide ScanStep;
    if blocks == [] {
      BrokenIsSilent(e, v, more, onEvent);
      assert blocks + more == more;
    } else {
      assert (blocks + more)[1..] == blocks[1..] + more;
      NothingAfterStop(e, ScanStep(e, v, blocks[0], onEvent).view, blocks[1..], more, onEvent);
    }
  }

  /** The data of the scans of a run that moved the stream on. */
  function Accepted(e: Engine, v: View, blocks: seq<Option<Data>>, onEvent: bool): Data
    decreases |blocks|
  {
    if blocks == [] then []
    else
      var r := ScanStep(e, v, blocks[0], onEvent);
      if r.code != HS_SUCCESS then []
      else
        (if r.view.status.Broken() then [] else blocks[0].value) + Accepted(e, r.view, blocks[1..], onEvent)
  }

  lemma LastOfLast(a: Data, b: Data, n: nat)
    ensures Last(Last(a, n) + b, n) == Last(a + b, n)
  {
    if |a| > n {
      var all := a + b;
      assert Last(a, n) + b == all[|a| - n..];
    }
  }

  /** However the data is cut up, the stream shows the last of what it has accepted. */
  lemma {:induction false} HistoryIsSuffix(e: Engine, v: View, written: Data, blocks: seq<Option<Data>>, onEvent: bool,
                                           core: Status)
    requires Lawful(e) && v.offset == |written| && v.history == Last(written, e.historyRequired)
    ensures var r := ScanRun(e, v, blocks, onEvent, core);
            var now := written + Accepted(e, v, blocks, onEvent);
            r.view.offset == |now| && r.view.history == Last(now, e.historyRequired)
    decreases |blocks|
  {
    hide ScanStep, ScanRun, Accepted, Last, Lawful, Left;
    RunUnfolds(e, v, blocks, 0, onEvent, core);
    assert blocks[0..] == blocks;
    AcceptedUnfolds(e, v, written, blocks, onEvent);
    if blocks != [] {
      var r := ScanStep(e, v, blocks[0], onEvent);
      MovesByData(e, v, written, blocks[0], onEvent);
      if r.code == HS_SUCCESS {
        var more := if r.view.status.Broken() then [] else blocks[0].value;
        HistoryIsSuffix(e, r.view, written + more, blocks[1..], onEvent, Left(r.core, core));
      }
    }
  }

  lemma {:induction false} AcceptedUnfolds(e: Engine, v: View, written: Data, blocks: seq<Option<Data>>, onEvent: bool)
    ensures blocks == [] ==> written + Accepted(e, v, blocks, onEvent) == written
    ensures blocks != [] ==>
              var r := ScanStep(e, v, blocks[0], onEvent);
              if r.code != HS_SUCCESS then
                written + Accepted(e, v, blocks, onEvent) == written && written + [] == written
              else
                blocks[0].Some? &&
                var more := if r.view.status.Broken() then [] else blocks[0].value;
                written + Accepted(e, v, blocks, onEvent) ==
                    (written + more) + Accepted(e, r.view, blocks[1..], onEvent)
  {
    if blocks != [] {
      FailureBreaks(e, v, blocks[0], onEvent);
      hide ScanStep;
      var r := ScanStep(e, v, blocks[0], onEvent);
      if r.code == HS_SUCCESS {
        var more := if r.view.status.Broken() then [] else blocks[0].value;
        Regroup(written, more, Accepted(e, r.view, blocks[1..], onEvent));
      }
    }
  }

  lemma Regroup(a: Data, b: Data, c: Data)
    ensures a + (b + c) == (a + b) + c
  {
  }

  lemma {:induction false} MovesByData(e: Engine, v: View, written: Data, data: Option<Data>, onEvent: bool)
    requires Lawful(e) && v.offset == |written| && v.history == Last(written, e.historyRequired)
    ensures var r := ScanStep(e, v, data, onEvent);
            (r.code == HS_SUCCESS ==> data.Some?) &&
            var now := written + (if r.code != HS_SUCCESS || r.view.status.Broken() then [] else data.value);
            r.view.offset == |now| && r.view.history == Last(now, e.historyRequired)
  {
    hide Last, Flushed;
    assert written + [] == written;
    if data.Some? {
      LastOfLast(written, data.value, e.historyRequired);
    }
  }

  /** So two runs that accepted the same bytes show the same offset and history, whatever the cuts. */
  lemma ChunkingDoesNotMatter(e: Engine, a: seq<Option<Data>>, b: seq<Option<Data>>, onEvent: bool, core: Status)
    requires Lawful(e) && Accepted(e, Opened(e), a, onEvent) == Accepted(e, Opened(e), b, onEvent)
    ensures var x, y := ScanRun(e, Opened(e), a, onEvent, core).view, ScanRun(e, Opened(e), b, onEvent, core).view;
            x.offset == y.offset && x.history == y.history
  {
    HistoryIsSuffix(e, Opened(e), [], a, onEvent, core);
    HistoryIsSuffix(e, Opened(e), [], b, onEvent, core);
  }
}
