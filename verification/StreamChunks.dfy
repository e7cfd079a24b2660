/**
 What the engine behind a stream is given, and what follows from it: the callbacks of a
 stream do not depend on how its data is cut into blocks (src/runtime.c).
 */
module StreamChunks {
  import opened Common
  import opened StreamRuntime

  // ----- what the engine is given

  /** The core shows the last bytes of what was written, their number as its offset, and the block. */
  ghost predicate Shown(c: Core, written: Data, data: Data, required: nat) {
    c.history == Last(written, required) && c.offset == |written| && c.data == data
  }

  ghost predicate SamePart(a: Option<Core -> Outcome>, b: Option<Core -> Outcome>, written: Data, data: Data,
                           required: nat)
  {
    a.Some? == b.Some? && (a.Some? ==> forall c: Core :: Shown(c, written, data, required) ==> a.value(c) == b.value(c))
  }

  /** Two engines that may differ in anything but what they do when a scan shows them this. */
  ghost predicate SameScan(e: Engine, f: Engine, written: Data, data: Data) {
    var n := e.historyRequired;
    && n == f.historyRequired && (written == [] ==> SamePart(e.zero, f.zero, written, data, n))
    && SamePart(Some(e.exec), Some(f.exec), written, data, n) && SamePart(e.flushSom, f.flushSom, written, data, n)
  }

  /** The same for the end of the data; an empty stream has a program of its own. */
  ghost predicate SameEod(e: Engine, f: Engine, written: Data) {
    var n := e.historyRequired;
    && n == f.historyRequired
    && (if written == [] then SamePart(e.zeroEod, f.zeroEod, [], [], n)
        else SamePart(e.boundaryEod, f.boundaryEod, written, [], n) && SamePart(e.execEod, f.execEod, written, [], n))
    && SamePart(e.flushSom, f.flushSom, written, [], n) && SamePart(e.flushComb, f.flushComb, written, [], n)
  }

  lemma PartSees(r: Run, a: Option<Core -> Outcome>, b: Option<Core -> Outcome>, written: Data, data: Data, n: nat)
    requires SamePart(a, b, written, data, n) && Shown(r.core, written, data, n)
    ensures After(r, a) == After(r, b) && Shown(After(r, a).core, written, data, n)
    ensures Flushed(r, a) == Flushed(r, b) && Shown(Flushed(r, a).core, written, data, n)
  {
  }

  /** A scan asks the engine nothing else: the history handed over is the last of what was written before. */
  lemma ScanSees(e: Engine, f: Engine, v: View, written: Data, data: Option<Data>, onEvent: bool)
    requires v.offset == |written| && v.history == Last(written, e.historyRequired)
    requires data.Some? ==> SameScan(e, f, written, data.value)
    ensures ScanStep(e, v, data, onEvent) == ScanStep(f, v, data, onEvent)
  {
    hide After, Flushed, SamePart, Last;
    if data.Some? {
      var n := e.historyRequired;
      var begun := Start(v, data.value, onEvent);
      if v.offset == 0 {
        PartSees(begun, e.zero, f.zero, written, data.value, n);
      }
      var z := if v.offset == 0 then After(begun, e.zero) else begun;
      PartSees(z, Some(e.exec), Some(f.exec), written, data.value, n);
      PartSees(After(z, Some(e.exec)), e.flushSom, f.flushSom, written, data.value, n);
    }
  }

  /** Nor does the end of data. */
  lemma EodSees(e: Engine, f: Engine, v: View, written: Data)
    requires v.offset == |written| && v.history == Last(written, e.historyRequired)
    requires SameEod(e, f, written)
    ensures EodStep(e, v) == EodStep(f, v)
  {
    hide After, Flushed, SamePart, Last;
    var n := e.historyRequired;
    var r := Start(v, [], true);
    var b := After(r, if v.offset == 0 then e.zeroEod else e.boundaryEod);
    if v.offset == 0 {
      PartSees(r, e.zeroEod, f.zeroEod, written, [], n);
    } else {
      PartSees(r, e.boundaryEod, f.boundaryEod, written, [], n);
      PartSees(b, e.execEod, f.execEod, written, [], n);
    }
    var x := if v.offset == 0 then b else After(b, e.execEod);
    PartSees(x, e.flushSom, f.flushSom, written, [], n);
    PartSees(Flushed(x, e.flushSom), e.flushComb, f.flushComb, written, [], n);
  }

  /** The engines do the same on every block of a run, shown what the run has accepted by then. */
  ghost predicate SameAlong(e: Engine, f: Engine, v: View, written: Data, blocks: seq<Option<Data>>, onEvent: bool)
    decreases |blocks|
  {
    if blocks == [] then SameEod(e, f, written)
    else
      var r := ScanStep(e, v, blocks[0], onEvent);
      && (blocks[0].Some? ==> SameScan(e, f, written, blocks[0].value))
      && if r.code != HS_SUCCESS then SameEod(e, f, written)
         else
           blocks[0].Some? &&
           SameAlong(e, f, r.view, if r.view.status.Broken() then written else written + blocks[0].value, blocks[1..],
                     onEvent)
  }

  /** Through any run, and at its end, the engine is shown the last bytes accepted, their number, and the block. */
  lemma {:induction false} RunSees(e: Engine, f: Engine, v: View, written: Data, blocks: seq<Option<Data>>,
                                   onEvent: bool, core: Status)
    requires Lawful(e) && v.offset == |written| && v.history == Last(written, e.historyRequired)
    requires SameAlong(e, f, v, written, blocks, onEvent)
    ensures ScanRun(e, v, blocks, onEvent, core) == ScanRun(f, v, blocks, onEvent, core)
    ensures var w := ScanRun(e, v, blocks, onEvent, core).view; EodStep(e, w) == EodStep(f, w)
    decreases |blocks|
  {
    hide ScanStep, EodStep, SameScan, SameEod, Last, Lawful, Left;
    if blocks == [] {
      EodSees(e, f, v, written);
    } else {
      ScanSees(e, f, v, written, blocks[0], onEvent);
      MovesByData(e, v, written, blocks[0], onEvent);
      var r := ScanStep(e, v, blocks[0], onEvent);
      assert written + [] == written;
      if r.code == HS_SUCCESS {
        var now := if r.view.status.Broken() then written else written + blocks[0].value;
        RunSees(e, f, r.view, now, blocks[1..], onEvent, Left(r.core, core));
      } else {
        EodSees(e, f, r.view, written);
      }
    }
  }

  /** Each part reports its number. */
  function Mark(n: nat): Option<Core -> Outcome> {
    Some((c: Core) => Outcome([Event(n, 0, 0)], c.status, c.state, false))
  }

  function Marks(): Engine {
    Engine(0, [], Mark(1), Mark(2).value, Mark(3), Mark(4), Mark(5), Mark(6), Mark(7))
  }

  /** The parts of a scan and of the end of data come in this order. */
  lemma PartsInOrder(v: View, data: Data)
    requires !v.status.Broken() && data != []
    ensures ScanStep(Marks(), v, Some(data), true).events ==
            (if v.offset == 0 then [Event(1, 0, 0)] else []) + [Event(2, 0, 0), Event(3, 0, 0)]
    ensures EodStep(Marks(), v).0 ==
            (if v.offset == 0 then [Event(4, 0, 0)] else [Event(5, 0, 0), Event(6, 0, 0)]) +
            [Event(3, 0, 0), Event(7, 0, 0)]
  {
  }

  // ----- cutting the data up

  /** One block: the engine proper, then the stored start-of-match reports unless the user has stopped. */
  function Worked(e: Engine, c: Core): Outcome {
    var o := e.exec(c);
    if o.status.terminated || e.flushSom.None? then o.(halt := false)
    else
      var f := e.flushSom.value(c.(status := o.status, state := o.state));
      Outcome(o.events + f.events, if f.halt then f.status.(terminated := true) else f.status, f.state, false)
  }

  /** The core of a stream that a block a has gone through. */
  function Later(e: Engine, c: Core, a: Data, o: Outcome, b: Data): Core {
    Core(o.state, Last(c.history + a, e.historyRequired), b, c.offset + |a|, o.status, c.onEvent)
  }

  /** A block does what its two parts do one after the other, the second being shown the end of the first. */
  ghost predicate Splits(e: Engine, c: Core, a: Data, b: Data) {
    var one := Worked(e, c.(data := a));
    Worked(e, c.(data := a + b)) ==
    if one.status.Broken() then one
    else
      var two := Worked(e, Later(e, c, a, one, b));
      two.(events := one.events + two.events)
  }

  ghost predicate Compositional(e: Engine) {
    forall c: Core, a: Data, b: Data ::
      !c.status.Broken() && |c.history| == Min(e.historyRequired, c.offset) && a != [] && b != [] ==> Splits(e, c, a, b)
  }

  /**
   The program for offset 0 does not look at the data, and halts only for the user or when
   there is nothing left to match.
   */
  ghost predicate ZeroLaw(e: Engine) {
    e.zero.Some? ==>
      forall c: Core ::
        var o := e.zero.value(c);
        o == e.zero.value(c.(data := [])) &&
        (o.halt ==> o.status.terminated || (o.status.exhausted && !o.status.error)) &&
        (!o.halt ==> !o.status.Broken())
  }

  /** The same callbacks, code and scratch; the same stream, but for the offset and history of a broken one. */
  ghost predicate Alike(a: Scanned, b: Scanned) {
    && a.events == b.events && a.code == b.code && a.core == b.core
    && a.view.status == b.view.status && a.view.state == b.view.state
    && (!a.view.status.Broken() ==> a.view == b.view)
  }

  ghost predicate Proper(e: Engine, v: View) { |v.history| == Min(e.historyRequired, v.offset) }

  /** What a scan with data does to a stream that is not broken. */
  function Through(e: Engine, v: View, z: Run, data: Data): Scanned {
    var o := Worked(e, z.core.(data := data));
    var events, s := z.events + Heard(z.core.onEvent, o.events), o.status;
    if s.Broken() then Scanned(v.(status := s, state := o.state), events, BrokenCode(s), Some(s))
    else
      Scanned(View(v.offset + |data|, Last(v.history + data, e.historyRequired), s, o.state), events, HS_SUCCESS,
              Some(s))
  }

  lemma ScanGoesThrough(e: Engine, v: View, data: Data, onEvent: bool)
    requires !v.status.Broken() && data != []
    ensures var begun := Start(v, data, onEvent);
            var z := if v.offset == 0 then After(begun, e.zero) else begun;
            ScanStep(e, v, Some(data), onEvent) ==
            if z.halted then
              Scanned(v.(status := z.core.status, state := z.core.state), z.events,
                      if z.core.status.terminated then HS_SCAN_TERMINATED else HS_SUCCESS, Some(z.core.status))
            else Through(e, v, z, data)
  {
    hide Last, After, Flushed, Worked;
    var begun := Start(v, data, onEvent);
    var z := if v.offset == 0 then After(begun, e.zero) else begun;
    CoreKept(begun, e.zero);
    assert z.core.(data := data) == z.core;
    WorkIs(e, z);
  }

  lemma WorkIs(e: Engine, z: Run)
    ensures var r, o := Flushed(After(z, Some(e.exec)), e.flushSom), Worked(e, z.core);
            r.events == z.events + Heard(z.core.onEvent, o.events) && r.core.status == o.status &&
            r.core.state == o.state
  {
    var r := After(z, Some(e.exec));
    Concat3(z.events, Heard(z.core.onEvent, e.exec(z.core).events),
            if e.flushSom.Some? then Heard(z.core.onEvent, e.flushSom.value(r.core).events) else []);
  }

  lemma CoreKept(r: Run, part: Option<Core -> Outcome>)
    ensures var c := After(r, part).core;
            c.data == r.core.data && c.history == r.core.history && c.offset == r.core.offset &&
            c.onEvent == r.core.onEvent
  {
  }

  lemma Concat3(a: seq<Event>, b: seq<Event>, c: seq<Event>)
    ensures a + b + c == a + (b + c) && a + [] == a
  {
  }

  /** The scan of the second part, on the stream that the first one left, adds up to the scan of both. */
  lemma ThroughTwice(e: Engine, v: View, z: Run, a: Data, b: Data)
    requires Compositional(e) && !z.core.status.Broken() && a != [] && b != [] && Proper(e, v)
    requires z.core.history == v.history && z.core.offset == v.offset
    ensures var one, both := Through(e, v, z, a), Through(e, v, z, a + b);
            if one.view.status.Broken() then both == one
            else
              !one.view.status.Broken() &&
              var two := Through(e, one.view, Start(one.view, b, z.core.onEvent), b);
              Alike(both, two.(events := one.events + two.events))
  {
    hide Worked, Last, Compositional;
    var c := z.core;
    assert Splits(e, c, a, b) by { SplitsHere(e, c, a, b); }
    var one := Through(e, v, z, a);
    if !one.view.status.Broken() {
      var o := Worked(e, c.(data := a));
      assert Later(e, c, a, o, b) == Start(one.view, b, c.onEvent).core.(data := b);
      var o2 := Worked(e, Later(e, c, a, o, b));
      HeardTwice(c.onEvent, z.events, o.events, o2.events);
      AppendLast(v.history, a, b, e.historyRequired);
    }
  }

  lemma SplitsHere(e: Engine, c: Core, a: Data, b: Data)
    requires Compositional(e)
    requires !c.status.Broken() && |c.history| == Min(e.historyRequired, c.offset) && a != [] && b != []
    ensures Splits(e, c, a, b)
  {
  }

  lemma HeardTwice(onEvent: bool, z: seq<Event>, a: seq<Event>, b: seq<Event>)
    ensures z + Heard(onEvent, a + b) == (z + Heard(onEvent, a)) + ([] + Heard(onEvent, b))
  {
  }

  lemma AppendLast(h: Data, a: Data, b: Data, n: nat)
    ensures Last(Last(h + a, n) + b, n) == Last(h + (a + b), n) && |a + b| == |a| + |b|
  {
    hide Last;
    LastOfLast(h + a, b, n);
    assert h + a + b == h + (a + b);
  }

  lemma StaysProper(e: Engine, v: View, data: Option<Data>, onEvent: bool)
    requires Proper(e, v)
    ensures Proper(e, ScanStep(e, v, data, onEvent).view)
  {
    hide After, Flushed;
  }

  lemma TwoScans(e: Engine, v: View, a: Data, b: Data, onEvent: bool)
    requires Compositional(e) && ZeroLaw(e) && Proper(e, v)
    ensures var one := ScanStep(e, v, Some(a), onEvent);
            var both := ScanStep(e, v, Some(a + b), onEvent);
            if one.code != HS_SUCCESS then Alike(both, one)
            else
              var two := ScanStep(e, one.view, Some(b), onEvent);
              var left := if two.core.Some? then two.core else one.core;
              Alike(both, Scanned(two.view, one.events + two.events, two.code, left))
  {
    hide Compositional, Through, Last, After;
    var one := ScanStep(e, v, Some(a), onEvent);
    if v.status.Broken() {
      BrokenScan(e, v, a, onEvent);
      BrokenScan(e, v, b, onEvent);
      BrokenScan(e, v, a + b, onEvent);
    } else if a == [] {
      assert a + b == b && [] + ScanStep(e, v, Some(b), onEvent).events == ScanStep(e, v, Some(b), onEvent).events;
    } else if b == [] {
      assert a + b == a && one.events + [] == one.events;
      NothingScanned(e, one.view, onEvent);
      QuietBreak(e, v, a, onEvent);
    } else {
      TwoBlocks(e, v, a, b, onEvent);
    }
  }

  /** A scan that succeeds and leaves its stream broken leaves it so that later scans succeed. */
  lemma QuietBreak(e: Engine, v: View, data: Data, onEvent: bool)
    requires ZeroLaw(e)
    ensures var r := ScanStep(e, v, Some(data), onEvent);
            r.code == HS_SUCCESS && r.view.status.Broken() ==> BrokenCode(r.view.status) == HS_SUCCESS
  {
    hide Flushed, Last;
  }

  /** The run up to the program for offset 0, which does not see the data. */
  function Begun(e: Engine, v: View, onEvent: bool): Run {
    var begun := Start(v, [], onEvent);
    if v.offset == 0 then After(begun, e.zero) else begun
  }

  lemma SameBeginning(e: Engine, v: View, data: Data, onEvent: bool)
    requires ZeroLaw(e)
    ensures var begun := Start(v, data, onEvent);
            var z := if v.offset == 0 then After(begun, e.zero) else begun;
            z == Begun(e, v, onEvent).(core := Begun(e, v, onEvent).core.(data := data))
    ensures var c := Begun(e, v, onEvent).core;
            c.history == v.history && c.offset == v.offset && c.onEvent == onEvent
    ensures !v.status.Broken() && !Begun(e, v, onEvent).halted ==> !Begun(e, v, onEvent).core.status.Broken()
    ensures Begun(e, v, onEvent).halted ==>
              var s := Begun(e, v, onEvent).core.status;
              s.terminated || (s.exhausted && !s.error)
  {
    var begun := Start(v, data, onEvent);
    assert begun.core.(data := []) == Start(v, [], onEvent).core;
  }

  lemma ScanBegins(e: Engine, v: View, data: Data, onEvent: bool)
    requires ZeroLaw(e) && !v.status.Broken() && data != []
    ensures var z := Begun(e, v, onEvent);
            ScanStep(e, v, Some(data), onEvent) ==
            if z.halted then
              Scanned(v.(status := z.core.status, state := z.core.state), z.events,
                      if z.core.status.terminated then HS_SCAN_TERMINATED else HS_SUCCESS, Some(z.core.status))
            else Through(e, v, z, data)
  {
    hide Last, ScanStep, Worked, After, Begun, ZeroLaw;
    ScanGoesThrough(e, v, data, onEvent);
    SameBeginning(e, v, data, onEvent);
    var z := Begun(e, v, onEvent);
    assert z.core.(data := data).(data := data) == z.core.(data := data);
  }

  lemma TwoBlocks(e: Engine, v: View, a: Data, b: Data, onEvent: bool)
    requires Compositional(e) && ZeroLaw(e) && Proper(e, v) && !v.status.Broken() && a != [] && b != []
    ensures var one := ScanStep(e, v, Some(a), onEvent);
            var both := ScanStep(e, v, Some(a + b), onEvent);
            if one.code != HS_SUCCESS then Alike(both, one)
            else
              var two := ScanStep(e, one.view, Some(b), onEvent);
              var left := if two.core.Some? then two.core else one.core;
              Alike(both, Scanned(two.view, one.events + two.events, two.code, left))
  {
    hide ScanStep, Compositional, ZeroLaw, Last, Begun, Through;
    var z := Begun(e, v, onEvent);
    ScanBegins(e, v, a, onEvent);
    ScanBegins(e, v, a + b, onEvent);
    SameBeginning(e, v, a, onEvent);
    var one := ScanStep(e, v, Some(a), onEvent);
    assert one.events + [] == one.events;
    if z.halted {
      if one.code == HS_SUCCESS {
        BrokenScan(e, one.view, b, onEvent);
      }
    } else {
      ThroughTwice(e, v, z, a, b);
      ThroughCode(e, v, z, a);
      if one.view.status.Broken() {
        BrokenScan(e, one.view, b, onEvent);
      } else {
        ScanBegins(e, one.view, b, onEvent);
        NoBeginning(e, one.view, b, onEvent);
        ThroughCode(e, one.view, Start(one.view, b, onEvent), b);
      }
    }
  }

  lemma NoBeginning(e: Engine, v: View, b: Data, onEvent: bool)
    requires v.offset > 0
    ensures Begun(e, v, onEvent) == Start(v, [], onEvent)
    ensures Through(e, v, Start(v, [], onEvent), b) == Through(e, v, Start(v, b, onEvent), b)
  {
    assert Start(v, [], onEvent).core.(data := b) == Start(v, b, onEvent).core.(data := b);
  }

  lemma ThroughCode(e: Engine, v: View, z: Run, data: Data)
    ensures var r := Through(e, v, z, data);
            r.core == Some(r.view.status) &&
            (if r.view.status.Broken() then r.code == BrokenCode(r.view.status)
             else r.code == HS_SUCCESS && r.view.offset == v.offset + |data|)
  {
    hide Worked, Last;
  }

  lemma BrokenScan(e: Engine, v: View, data: Data, onEvent: bool)
    requires v.status.Broken()
    ensures ScanStep(e, v, Some(data), onEvent) == Scanned(v, [], BrokenCode(v.status), None)
  {
  }

  lemma NothingScanned(e: Engine, v: View, onEvent: bool)
    ensures ScanStep(e, v, Some([]), onEvent) ==
            Scanned(v, [], if v.status.Broken() then BrokenCode(v.status) else HS_SUCCESS, None)
  {
  }

  // ----- whole runs

  ghost predicate AllThere(blocks: seq<Option<Data>>) { forall i :: 0 <= i < |blocks| ==> blocks[i].Some? }

  ghost function Joined(blocks: seq<Option<Data>>): Data
    requires AllThere(blocks)
  {
    if blocks == [] then [] else blocks[0].value + Joined(blocks[1..])
  }

  ghost predicate Chunkable(e: Engine) { Compositional(e) && ZeroLaw(e) }

  /** Scanning block by block is scanning all of it at once. */
  lemma {:induction false} RunIsOneScan(e: Engine, v: View, blocks: seq<Option<Data>>, onEvent: bool, core: Status)
    requires Chunkable(e) && AllThere(blocks) && Proper(e, v)
    requires v.status.Broken() ==> BrokenCode(v.status) == HS_SUCCESS
    ensures var r := ScanStep(e, v, Some(Joined(blocks)), onEvent);
            Alike(r.(core := Some(Left(r.core, core))), ScanRun(e, v, blocks, onEvent, core))
    decreases |blocks|
  {
    hide ScanStep, Compositional, ZeroLaw, Last;
    if blocks == [] {
      NothingScanned(e, v, onEvent);
    } else {
      var a, rest := blocks[0].value, blocks[1..];
      var one := ScanStep(e, v, Some(a), onEvent);
      TwoScans(e, v, a, Joined(rest), onEvent);
      if one.code == HS_SUCCESS {
        StaysProper(e, v, Some(a), onEvent);
        QuietBreak(e, v, a, onEvent);
        RunIsOneScan(e, one.view, rest, onEvent, Left(one.core, core));
      }
    }
  }

  lemma EodAlike(e: Engine, a: Scanned, b: Scanned)
    requires Alike(a, b)
    ensures EodStep(e, a.view).0 == EodStep(e, b.view).0 && EodStep(e, a.view).1 == EodStep(e, b.view).1
  {
    if a.view.status.Broken() {
      BrokenIsSilent(e, a.view, [], true);
      BrokenIsSilent(e, b.view, [], true);
    } else {
      hide EodStep;
    }
  }

  /**
   However the same data is cut into blocks, the client hears the same callbacks, while
   scanning and at the end of the data, and gets the same codes.
   */
  lemma ChunkingKeepsCallbacks(e: Engine, a: seq<Option<Data>>, b: seq<Option<Data>>, onEvent: bool, core: Status)
    requires Chunkable(e) && AllThere(a) && AllThere(b) && Joined(a) == Joined(b)
    ensures var x, y := ScanRun(e, Opened(e), a, onEvent, core), ScanRun(e, Opened(e), b, onEvent, core);
            && x.events == y.events && x.code == y.code
            && EodStep(e, x.view).0 == EodStep(e, y.view).0
            && EodCode(e, x.view, false, x.core.value, onEvent) == EodCode(e, y.view, false, y.core.value, onEvent)
  {
    hide ScanStep, ScanRun, EodStep, Chunkable;
    RunIsOneScan(e, Opened(e), a, onEvent, core);
    RunIsOneScan(e, Opened(e), b, onEvent, core);
    var x, y := ScanRun(e, Opened(e), a, onEvent, core), ScanRun(e, Opened(e), b, onEvent, core);
    EodAlike(e, x, y);
  }

  // ----- an engine that reports by what it can see

  /** The ends in the data at which the last `window` bytes seen are of interest. */
  function Ends(window: nat, hit: Data -> bool, history: Data, data: Data, offset: nat): seq<Event>
    decreases |data|
  {
    if data == [] then []
    else
      var seen := history + [data[0]];
      (if hit(Last(seen, window)) then [Event(0, 0, offset + 1)] else []) +
      Ends(window, hit, seen, data[1..], offset + 1)
  }

  /** Bytes of history before the last `window - 1` do not matter. */
  lemma {:induction false} EndsSees(window: nat, hit: Data -> bool, h: Data, k: Data, data: Data, offset: nat)
    requires window > 0 && Last(h, window - 1) == Last(k, window - 1)
    ensures Ends(window, hit, h, data, offset) == Ends(window, hit, k, data, offset)
    decreases |data|
  {
    if data != [] {
      OneMore(h, data[0], window);
      OneMore(k, data[0], window);
      EndsSees(window, hit, h + [data[0]], k + [data[0]], data[1..], offset + 1);
    }
  }

  lemma OneMore(h: Data, x: Byte, window: nat)
    requires window > 0
    ensures Last(h + [x], window) == Last(h, window - 1) + [x]
    ensures Last(h + [x], window - 1) == Last(Last(h, window - 1) + [x], window - 1)
  {
    LastOfLast(h, [x], window - 1);
    if |h| > window - 1 {
      assert (h + [x])[|h| + 1 - window..] == h[|h| + 1 - window..] + [x];
    }
  }

  lemma {:induction false} EndsOfTwo(window: nat, hit: Data -> bool, h: Data, a: Data, b: Data, offset: nat)
    ensures Ends(window, hit, h, a + b, offset) ==
            Ends(window, hit, h, a, offset) + Ends(window, hit, h + a, b, offset + |a|)
    decreases |a|
  {
    hide Last;
    if a == [] {
      assert a + b == b && h + a == h;
    } else {
      var seen := h + [a[0]];
      assert (a + b)[0] == a[0] && (a + b)[1..] == a[1..] + b;
      assert seen + a[1..] == h + a;
      EndsOfTwo(window, hit, seen, a[1..], b, offset + 1);
      Concat3(if hit(Last(seen, window)) then [Event(0, 0, offset + 1)] else [],
              Ends(window, hit, seen, a[1..], offset + 1), Ends(window, hit, h + a, b, offset + |a|));
    }
  }

  /** With n bytes of history an engine can look back over n + 1. */
  function Watch(n: nat, hit: Data -> bool): Engine {
    Engine(n, [], None, (c: Core) => Outcome(Ends(n + 1, hit, c.history, c.data, c.offset), c.status, c.state, false),
           None, None, None, None, None)
  }

  lemma WatchIsChunkable(n: nat, hit: Data -> bool)
    ensures Chunkable(Watch(n, hit))
  {
    var e := Watch(n, hit);
    forall c: Core, a: Data, b: Data | !c.status.Broken() && |c.history| == Min(n, c.offset) && a != [] && b != []
      ensures Splits(e, c, a, b)
    {
      WatchSplits(n, hit, c, a, b);
    }
  }

  lemma WatchSplits(n: nat, hit: Data -> bool, c: Core, a: Data, b: Data)
    requires !c.status.Broken()
    ensures Splits(Watch(n, hit), c, a, b)
  {
    hide Ends, Last;
    EndsOfTwo(n + 1, hit, c.history, a, b, c.offset);
    var h := Last(c.history + a, n);
    LastOfLast(c.history + a, [], n);
    assert h + [] == h && c.history + a + [] == c.history + a;
    EndsSees(n + 1, hit, c.history + a, h, b, c.offset + |a|);
  }

  /** In blocks of any size it hears of exactly the ends that it would find in the whole text. */
  lemma WatchHears(n: nat, hit: Data -> bool, blocks: seq<Option<Data>>, core: Status)
    requires AllThere(blocks)
    ensures ScanRun(Watch(n, hit), Opened(Watch(n, hit)), blocks, true, core).events ==
            Ends(n + 1, hit, [], Joined(blocks), 0)
  {
    hide Chunkable, ScanRun;
    var e := Watch(n, hit);
    WatchIsChunkable(n, hit);
    RunIsOneScan(e, Opened(e), blocks, true, core);
    WholeText(n, hit, Joined(blocks));
  }

  /** These are the offsets j with something of interest in the last n + 1 of the first j bytes. */
  lemma {:induction false} EndsAre(window: nat, hit: Data -> bool, h: Data, data: Data, offset: nat, j: nat)
    ensures Event(0, 0, offset + j) in Ends(window, hit, h, data, offset) <==>
            0 < j <= |data| && hit(Last(h + data[..j], window))
    decreases |data|
  {
    if data != [] {
      var seen := h + [data[0]];
      assert h + data[..1] == seen;
      EndsPast(window, hit, seen, data[1..], offset + 1);
      if j > 0 {
        EndsAre(window, hit, seen, data[1..], offset + 1, j - 1);
        assert j <= |data| ==> seen + data[1..][..j - 1] == h + data[..j];
      }
    }
  }

  lemma {:induction false} EndsPast(window: nat, hit: Data -> bool, h: Data, data: Data, offset: nat)
    ensures forall e <- Ends(window, hit, h, data, offset) :: e.end > offset
    decreases |data|
  {
    if data != [] {
      EndsPast(window, hit, h + [data[0]], data[1..], offset + 1);
    }
  }

  lemma WholeText(n: nat, hit: Data -> bool, text: Data)
    ensures var e := Watch(n, hit);
            ScanStep(e, Opened(e), Some(text), true).events == Ends(n + 1, hit, [], text, 0)
  {
  }
}
