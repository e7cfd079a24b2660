/**
 Expanding a compressed stream over one that is there already: hs_reset_and_expand_stream
 (src/runtime.c).  The expansion works on the stream's memory, so here a stream is a
 value with all of its bytes, and an expansion that fails keeps those it has written.
 */
module StreamExpansion {
  import opened Common
  import opened StreamRuntime
  import MultibitCodec
  import StreamPlan
  import StreamCompress
  import StreamTheorems

  /** A stream with its whole history buffer. */
  datatype Full = Full(offset: nat, status: Status, state: Data, buffer: Data) {
    function Shown(): View { View(offset, Last(buffer, Min(|buffer|, offset)), status, state) }
  }

  /** The content of a compressed form: the memory and the offset of the stream it was made from. */
  datatype Form = Form(src: Data, offset: nat)

  /** A database: what the engine does, where it keeps its state, and how many bytes follow struct hs_stream. */
  datatype Db = Db(engine: Engine, layout: StreamPlan.Layout, size: nat) {
    /** Status byte first, history somewhere after it, and parts of the engine that stay inside the memory. */
    ghost predicate Valid() {
      layout.historyRequired == engine.historyRequired &&
      1 <= layout.history && layout.history + engine.historyRequired <= size &&
      1 + |engine.initial| + engine.historyRequired == size && KeepsSize(engine)
    }

    ghost predicate Holds(f: Full) {
      |f.buffer| == engine.historyRequired && 1 + |f.state| + |f.buffer| == size
    }

    /** The form of a stream of this database. */
    ghost predicate Made(form: Form) {
      |form.src| == size && form.offset < TWO64 &&
      StreamPlan.Fits(form.src, layout.Plan(form.src, form.offset))
    }

    ghost function Demanded(form: Form): nat
      requires Made(form)
    {
      StreamCompress.Demanded(layout, form.src, form.offset)
    }

    ghost function Image(form: Form): Data
      requires Made(form)
    {
      StreamCompress.StreamImage(layout, form.src, form.offset)
    }

    ghost function Overwritten(form: Form, end: nat): set<nat>
      requires Made(form)
    {
      StreamCompress.ExpandWritten(layout, form.src, form.offset, end)
    }

    /** The memory of a stream. */
    function Pack(status: Status, state: Data, buffer: Data): (m: Data)
      requires 1 <= layout.history <= 1 + |state|
      ensures |m| == 1 + |state| + |buffer|
    {
      [StatusByte(status)] + state[..layout.history - 1] + buffer + state[layout.history - 1..]
    }

    function StateIn(m: Data): (s: Data)
      requires 1 <= layout.history && layout.history + engine.historyRequired <= |m|
      ensures 1 + |s| + engine.historyRequired == |m|
    {
      m[1..layout.history] + m[layout.history + engine.historyRequired..]
    }

    /** The stream that such memory holds. */
    function Unpack(offset: nat, m: Data): (f: Full)
      requires 1 <= layout.history && layout.history + engine.historyRequired <= |m|
      ensures |f.buffer| == engine.historyRequired && 1 + |f.state| + |f.buffer| == |m|
    {
      Full(offset, StatusOf(m[0]), StateIn(m), m[layout.history..layout.history + engine.historyRequired])
    }
  }

  // ----- the status byte

  /** The STATUS_ flags are bits 0 to 3. */
  function StatusByte(s: Status): Byte {
    (if s.terminated then 1 else 0) + (if s.exhausted then 2 else 0) + (if s.dirty then 4 else 0) +
    (if s.error then 8 else 0)
  }

  function StatusOf(b: Byte): Status {
    Status(b % 2 == 1, b / 2 % 2 == 1, b / 4 % 2 == 1, b / 8 % 2 == 1)
  }

  lemma StatusRoundTrip(s: Status)
    ensures StatusOf(StatusByte(s)) == s
  {
  }

  /** Taking memory apart undoes putting it together. */
  lemma UnpackPack(db: Db, f: Full)
    requires db.Valid() && db.Holds(f)
    ensures var m := db.Pack(f.status, f.state, f.buffer); |m| == db.size && db.Unpack(f.offset, m) == f
  {
    hide KeepsSize, StatusByte, StatusOf;
    StatusRoundTrip(f.status);
    var h := db.layout.history;
    var m := db.Pack(f.status, f.state, f.buffer);
    assert m[1..h] == f.state[..h - 1];
    assert m[h..h + |f.buffer|] == f.buffer;
    assert m[h + |f.buffer|..] == f.state[h - 1..];
    assert f.state[..h - 1] + f.state[h - 1..] == f.state;
  }

  // ----- engines that stay inside the stream's memory

  ghost predicate PartKeepsSize(part: Option<Core -> Outcome>) {
    part.Some? ==> forall c: Core :: |part.value(c).state| == |c.state|
  }

  ghost predicate KeepsSize(e: Engine) {
    PartKeepsSize(e.zero) && PartKeepsSize(Some(e.exec)) && PartKeepsSize(e.flushSom) && PartKeepsSize(e.zeroEod) &&
    PartKeepsSize(e.boundaryEod) && PartKeepsSize(e.execEod) && PartKeepsSize(e.flushComb)
  }

  lemma PartSize(r: Run, part: Option<Core -> Outcome>)
    requires PartKeepsSize(part)
    ensures |After(r, part).core.state| == |Flushed(r, part).core.state| == |r.core.state|
  {
  }

  lemma ScanSize(e: Engine, v: View, data: Option<Data>, onEvent: bool)
    requires KeepsSize(e)
    ensures |ScanStep(e, v, data, onEvent).view.state| == |v.state|
  {
    hide After, Flushed, PartKeepsSize;
    if data.Some? {
      var begun := Start(v, data.value, onEvent);
      PartSize(begun, e.zero);
      var z := if v.offset == 0 then After(begun, e.zero) else begun;
      PartSize(z, Some(e.exec));
      PartSize(After(z, Some(e.exec)), e.flushSom);
    }
  }

  lemma EodSize(e: Engine, v: View)
    requires KeepsSize(e)
    ensures |EodStep(e, v).2| == |v.state|
  {
    hide After, Flushed, PartKeepsSize;
    var r := Start(v, [], true);
    var b := After(r, if v.offset == 0 then e.zeroEod else e.boundaryEod);
    PartSize(r, if v.offset == 0 then e.zeroEod else e.boundaryEod);
    PartSize(b, e.execEod);
    var x := if v.offset == 0 then b else After(b, e.execEod);
    PartSize(x, e.flushSom);
    PartSize(Flushed(x, e.flushSom), e.flushComb);
  }

  // ----- what the calls make of a stream

  /** After a scan. */
  ghost function ScanFull(db: Db, f: Full, data: Option<Data>, onEvent: bool): (r: Full)
    requires db.Valid() && db.Holds(f)
    ensures db.Holds(r) && r.Shown() == ScanStep(db.engine, f.Shown(), data, onEvent).view
  {
    var v := ScanStep(db.engine, f.Shown(), data, onEvent).view;
    ScanSize(db.engine, f.Shown(), data, onEvent);
    ScanShows(db.engine, f, data, onEvent);
    Full(v.offset, v.status, v.state,
         if v.offset == f.offset then f.buffer else Last(f.buffer + data.value, db.engine.historyRequired))
  }

  lemma ScanShows(e: Engine, f: Full, data: Option<Data>, onEvent: bool)
    requires |f.buffer| == e.historyRequired
    ensures var v := ScanStep(e, f.Shown(), data, onEvent).view;
            if v.offset == f.offset then v.history == f.Shown().history
            else
              data.Some? &&
              v.history == Last(Last(f.buffer + data.value, |f.buffer|), Min(|f.buffer|, v.offset))
  {
    hide After, Flushed, Last;
    if data.Some? {
      ShownAfter(f.buffer, data.value, f.offset, |f.buffer|);
    }
  }

  /** After the end-of-data part of a call. */
  ghost function EodFull(db: Db, f: Full, inUse: bool, onEvent: bool): (r: Full)
    requires db.Valid() && db.Holds(f)
    ensures db.Holds(r) && r.Shown() == EodView(db.engine, f.Shown(), inUse, onEvent)
  {
    EodSize(db.engine, f.Shown());
    f.(state := EodView(db.engine, f.Shown(), inUse, onEvent).state)
  }

  /** After init_stream on a stream that has its history buffer. */
  ghost function ResetFull(db: Db, f: Full): (r: Full)
    requires db.Valid() && db.Holds(f)
    ensures db.Holds(r) && r.Shown() == Opened(db.engine)
  {
    Full(0, CLEAN, db.engine.initial, f.buffer)
  }

  /** `t` with the addresses in `area` taken from `src`. */
  ghost function Overlay(t: Data, src: Data, area: set<nat>): (r: Data)
    requires |t| == |src|
    ensures MultibitCodec.Restored(t, r, src, area)
  {
    seq(|t|, i requires 0 <= i < |t| => if i in area then src[i] else t[i])
  }

  lemma OverlayIs(t: Data, now: Data, src: Data, area: set<nat>)
    requires MultibitCodec.Restored(t, now, src, area)
    ensures now == Overlay(t, src, area)
  {
  }

  /** After expand_stream, whether it succeeds or not. */
  ghost function ExpandFull(db: Db, f: Full, form: Form, end: nat): (r: Full)
    requires db.Valid() && db.Holds(f) && db.Made(form)
    ensures db.Holds(r)
  {
    db.Unpack(if end < StreamCompress.OFFSET_FIELD then f.offset else form.offset,
              Overlay(db.Pack(f.status, f.state, f.buffer), form.src, db.Overwritten(form, end)))
  }

  ghost function ExpandCode(db: Db, form: Form, end: nat): int
    requires db.Made(form)
  {
    if end < db.Demanded(form) then HS_INVALID else HS_SUCCESS
  }

  /**
   What an expansion leaves, by the size its caller states: below 8 the stream as it
   was, at 8 the stream at the offset of the form, from 9 on also the form's status.
   */
  lemma ExpandLeaves(db: Db, f: Full, form: Form, end: nat)
    requires db.Valid() && db.Holds(f) && db.Made(form)
    ensures var r := ExpandFull(db, f, form, end);
            (end < 8 ==> r == f) &&
            (end == 8 ==> r == f.(offset := form.offset)) &&
            (end >= 9 ==> r.offset == form.offset && r.status == StatusOf(form.src[0]))
  {
    hide KeepsSize, StatusOf, StatusByte, StreamPlan.Fits, StreamCompress.ExpandWritten;
    StreamTheorems.StatusWritten(db.layout, form.src, form.offset, end);
    UnpackPack(db, f);
    var m := db.Pack(f.status, f.state, f.buffer);
    if end < 9 {
      OverlayIs(m, m, form.src, {});
      UnpackPack(db, f.(offset := form.offset));
    }
  }

  lemma PackUnpack(db: Db, offset: nat, m: Data)
    requires db.Valid() && |m| == db.size && m[0] < 16
    ensures var f := db.Unpack(offset, m); db.Holds(f) && db.Pack(f.status, f.state, f.buffer) == m
  {
    hide KeepsSize;
    var f := db.Unpack(offset, m);
    var h := db.layout.history;
    assert f.state[..h - 1] == m[1..h] && f.state[h - 1..] == m[h + |f.buffer|..];
    assert StatusByte(f.status) == m[0];
    assert [m[0]] + m[1..h] + m[h..h + |f.buffer|] + m[h + |f.buffer|..] == m;
  }

  /** A stream that an expansion succeeds over, whatever it was, compresses to the form expanded. */
  lemma ExpandedCompressesToForm(db: Db, f: Full, form: Form, end: nat)
    requires db.Valid() && db.Holds(f) && db.Made(form) && form.src[0] < 16 && db.Demanded(form) <= end
    ensures var r := ExpandFull(db, f, form, end);
            r.offset == form.offset &&
            var again := Form(db.Pack(r.status, r.state, r.buffer), r.offset);
            db.Made(again) && db.Image(again) == db.Image(form)
  {
    hide KeepsSize, StatusOf, StatusByte, StreamPlan.Fits, StreamPlan.Written, StreamPlan.Need, StreamPlan.AllLive,
         MultibitCodec.Restored, StreamPlan.Layout.Plan, StreamCompress.StreamImage;
    var m := db.Pack(f.status, f.state, f.buffer);
    var area := db.Overwritten(form, end);
    var t := Overlay(m, form.src, area);
    StreamPlan.WrittenAll(form.src, db.layout.Plan(form.src, form.offset), StreamCompress.OFFSET_FIELD, end);
    assert area == StreamPlan.AllLive(form.src, db.layout.Plan(form.src, form.offset));
    StreamTheorems.RecompressIsIdentical(db.layout, m, t, form.src, form.offset);
    assert |t| == |m| && t[0] < 16 by { LowStatus(m, t, form.src, area, f.status); }
    PackUnpack(db, form.offset, t);
  }

  lemma LowStatus(m: Data, t: Data, src: Data, area: set<nat>, status: Status)
    requires MultibitCodec.Restored(m, t, src, area) && |m| > 0 && m[0] == StatusByte(status) && src[0] < 16
    ensures |t| == |m| && t[0] < 16
  {
  }

  // ----- on the objects

  ghost function FullOf(id: Stream): Full
    reads id, id.history
  {
    Full(id.offset, id.status, id.state, id.history[..])
  }

  /** hs_reset_and_expand_stream, given a form and then anything; `end` is the size its caller states. */
  method HsResetAndExpandStream(db: Db, id: Stream, buf: Data, end: nat, scratch: Scratch, onEvent: bool,
                                ghost form: Form)
      returns (code: int, events: seq<Event>)
    requires db.Valid() && id.Valid() && id.engine == db.engine && db.Holds(FullOf(id))
    requires db.Made(form) && StreamCompress.Holds(buf, 0, db.Image(form))
    modifies id, id.history, scratch
    ensures id.Valid() && scratch.inUse == old(scratch.inUse)
    ensures var e, v, inUse, stale := db.engine, old(id.ViewOf()), old(scratch.inUse), old(scratch.status);
            var eod := EodCode(e, v, inUse, stale, onEvent);
            var left := EodFull(db, old(FullOf(id)), inUse, onEvent);
            events == EodEvents(e, v, inUse, onEvent) && scratch.status == EodLeft(e, v, inUse, stale, onEvent) &&
            code == (if eod == HS_SUCCESS then ExpandCode(db, form, end) else eod) &&
            FullOf(id) == if eod == HS_SUCCESS then ExpandFull(db, left, form, end) else left
  {
    hide EodCode, EodView, EodEvents, EodLeft, KeepsSize, Last, ExpandFull, ExpandCode, StreamCompress.Holds;
    ghost var v := FullOf(id).Shown();
    assert v == id.ViewOf();
    ghost var left := EodFull(db, FullOf(id), scratch.inUse, onEvent);
    code, events := EndOfData(id, scratch, onEvent);
    assert FullOf(id) == left;
    if code == HS_SUCCESS {
      code := ExpandStream(db, id, buf, end, form);
    }
  }

  /** expand_stream over the memory of a stream, gathered from the parts that it is kept in here. */
  method ExpandStream(db: Db, id: Stream, buf: Data, end: nat, ghost form: Form) returns (code: int)
    requires db.Valid() && id.Valid() && id.engine == db.engine && db.Holds(FullOf(id))
    requires db.Made(form) && StreamCompress.Holds(buf, 0, db.Image(form))
    modifies id, id.history
    ensures id.Valid()
    ensures code == ExpandCode(db, form, end) && FullOf(id) == ExpandFull(db, old(FullOf(id)), form, end)
  {
    hide KeepsSize, StatusByte, StatusOf, Db.Made, StreamCompress.Holds, Db.Image, ExpandCode, Db.Overwritten, Overlay;
    var offset, m;
    code, offset, m := ExpandMemory(db, id.offset, db.Pack(id.status, id.state, id.history[..]), buf, end, form);
    var now := db.Unpack(offset, m);
    id.offset, id.status, id.state := now.offset, now.status, now.state;
    MultibitCodec.Store(id.history, 0, now.buffer);
    assert id.history[..] == now.buffer;
  }

  method ExpandMemory(db: Db, offset: nat, m: Data, buf: Data, end: nat, ghost form: Form)
      returns (code: int, newOffset: nat, now: Data)
    requires db.Made(form) && StreamCompress.Holds(buf, 0, db.Image(form)) && |m| == db.size
    ensures code == ExpandCode(db, form, end)
    ensures newOffset == if end < StreamCompress.OFFSET_FIELD then offset else form.offset
    ensures now == Overlay(m, form.src, db.Overwritten(form, end))
  {
    hide StreamPlan.Fits, StreamCompress.Holds, StreamCompress.StreamImage, StreamCompress.Demanded,
         StreamCompress.ExpandWritten, MultibitCodec.Restored, StreamPlan.AllLive, StreamPlan.Layout.Plan;
    var s := new StreamCompress.Stream(db.size);
    s.offset := offset;
    MultibitCodec.Store(s.body, 0, m);
    assert s.body[..] == m;
    var c := StreamCompress.Expand(db.layout, s, buf, end, form.src, form.offset);
    OverlayIs(m, s.body[..], form.src, db.Overwritten(form, end));
    ImageNotEmpty(db, form);
    return if c > 0 then HS_SUCCESS else HS_INVALID, s.offset, s.body[..];
  }

  lemma ImageNotEmpty(db: Db, form: Form)
    requires db.Made(form)
    ensures |db.Image(form)| > 0
  {
    hide StreamPlan.Fits, StreamPlan.Image;
  }
}
