/**
 What src/stream_compress_impl.h copies, and in which order.  One template is
 compiled three times there; here one plan, computed from the engine's layout
 and the stream, is what the size, compress and expand forms all follow.
 */
module StreamPlan {
  import opened Common
  import opened MultibitCodec

  /** `len` bytes at `at` in the stream body. */
  datatype Region = Region(at: nat, len: nat)

  /** COPY of a region or COPY_MULTIBIT. */
  datatype Step = Raw(region: Region) | Bits(mb: Multibit)

  /** The three tables of which only the entries of set keys are copied. */
  datatype Table = Leaf | Left | Som

  /** The parts of a RoseEngine that the template looks at. */
  datatype Layout = Layout(
    roles: Multibit, activeLeaf: Multibit, activeLeft: Multibit,
    longLit: Region, anchor: Region, anchoredDistance: nat, groups: Region,
    history: nat, historyRequired: nat,
    exhausted: Multibit, logical: Multibit, comb: Multibit,
    queueState: nat -> Region, leftfixBeginQueue: nat,
    hasLeft: bool, nonTransient: set<nat>, lagTable: nat, lagIndex: nat -> nat,
    hasSom: bool, somWritable: Multibit, somValid: Multibit, somLocation: nat, somWidth: nat)
  {
    /** History bytes copied; the offset is cut to 32 bits first. */
    function HistoryCopied(offset: nat): nat {
      Min(offset % TWO32, historyRequired)
    }

    /** The steps that depend on nothing but the offset. */
    function Fixed(offset: nat): seq<Step> {
      var h := HistoryCopied(offset);
      [Raw(Region(0, 1)), Bits(roles), Bits(activeLeaf), Bits(activeLeft), Raw(longLit)] +
      (if offset <= anchoredDistance then [Raw(anchor)] else []) +
      [Raw(groups), Raw(Region(history + historyRequired - h, h)), Bits(exhausted), Bits(logical), Bits(comb)]
    }

    function Mask(t: Table): Multibit {
      match t case Leaf => activeLeaf case Left => activeLeft case Som => somValid
    }

    /** The leftfix loop runs over a sparse iterator that holds the non-transient ones. */
    predicate Kept(t: Table, k: nat) { t.Left? ==> k in nonTransient }

    function Entry(t: Table, k: nat): seq<Step> {
      match t
      case Leaf => [Raw(queueState(k))]
      case Left => [Raw(queueState(k + leftfixBeginQueue)), Raw(Region(lagTable + lagIndex(k), 1))]
      case Som => [Raw(Region(somLocation + k * somWidth, somWidth))]
    }

    /** The entries of the set keys of a table, from key `k` on. */
    function Entries(m: Memory, t: Table, k: nat): seq<Step>
      decreases Mask(t).total - k
    {
      var n := Next(m, Mask(t), k);
      if n >= Mask(t).total || k >= Mask(t).total then []
      else (if Kept(t, n) then Entry(t, n) else []) + Entries(m, t, n + 1)
    }

    function LeftSteps(m: Memory): seq<Step> { if hasLeft then Entries(m, Left, 0) else [] }

    function SomMasks(): seq<Step> { if hasSom then [Bits(somWritable), Bits(somValid)] else [] }

    function SomSteps(m: Memory): seq<Step> { if hasSom then Entries(m, Som, 0) else [] }

    function AfterLeft(m: Memory): seq<Step> { SomMasks() + SomSteps(m) }

    function AfterLeaf(m: Memory): seq<Step> { LeftSteps(m) + AfterLeft(m) }

    function AfterFixed(m: Memory): seq<Step> { Entries(m, Leaf, 0) + AfterLeaf(m) }

    function Plan(m: Memory, offset: nat): seq<Step> { Fixed(offset) + AfterFixed(m) }
  }

  // ----- one step

  predicate StepFits(m: Memory, s: Step) {
    match s
    case Raw(r) => r.at + r.len <= |m|
    case Bits(mb) => WellFormed(m, mb)
  }

  function StepBytes(m: Memory, s: Step): Memory
    requires StepFits(m, s)
  {
    match s
    case Raw(r) => m[r.at..r.at + r.len]
    case Bits(mb) => Encoded(m, mb)
  }

  ghost function StepLive(m: Memory, s: Step): set<nat> {
    match s
    case Raw(r) => Span(r.at, r.len)
    case Bits(mb) => Live(m, mb)
  }

  /** Whether expanding the step compares anything with the end of the buffer. */
  predicate StepChecked(m: Memory, s: Step) { s.Raw? || Checked(m, s.mb) }

  // ----- runs of steps

  predicate Fits(m: Memory, steps: seq<Step>) {
    forall i :: 0 <= i < |steps| ==> StepFits(m, steps[i])
  }

  function Image(m: Memory, steps: seq<Step>): Memory
    requires Fits(m, steps)
  {
    if steps == [] then [] else StepBytes(m, steps[0]) + Image(m, steps[1..])
  }

  ghost function AllLive(m: Memory, steps: seq<Step>): set<nat> {
    if steps == [] then {} else StepLive(m, steps[0]) + AllLive(m, steps[1..])
  }

  /** The furthest position that expanding the steps, from `cur` on, compares with the end of the buffer. */
  function Need(m: Memory, steps: seq<Step>, cur: nat): nat
    requires Fits(m, steps)
  {
    if steps == [] then 0
    else
      var c := cur + |StepBytes(m, steps[0])|;
      Max(if StepChecked(m, steps[0]) then c else 0, Need(m, steps[1..], c))
  }

  /** What expanding one step at `cur` overwrites when the caller states `end` bytes. */
  ghost function StepWritten(m: Memory, s: Step, cur: nat, end: nat): set<nat>
    requires StepFits(m, s)
  {
    match s
    case Raw(r) => if end < cur + r.len then {} else Span(r.at, r.len)
    case Bits(mb) => Overwritten(m, mb, cur, end)
  }

  /** The step compares its end with that of the buffer and finds itself past it. */
  predicate StepFails(m: Memory, s: Step, cur: nat, end: nat)
    requires StepFits(m, s)
  {
    StepChecked(m, s) && end < cur + |StepBytes(m, s)|
  }

  /** What expanding the steps overwrites, up to and including the step that fails. */
  ghost function Written(m: Memory, steps: seq<Step>, cur: nat, end: nat): set<nat>
    requires Fits(m, steps)
  {
    if steps == [] then {}
    else
      StepWritten(m, steps[0], cur, end) +
      if StepFails(m, steps[0], cur, end) then {}
      else Written(m, steps[1..], cur + |StepBytes(m, steps[0])|, end)
  }

  lemma StepWrittenAll(m: Memory, s: Step, cur: nat, end: nat)
    requires StepFits(m, s) && !StepFails(m, s, cur, end)
    ensures StepWritten(m, s, cur, end) == StepLive(m, s)
  {
    hide WellFormed, Encoded, Live, Checked;
  }

  /** A run that succeeds overwrites every live byte. */
  lemma {:induction false} WrittenAll(m: Memory, steps: seq<Step>, cur: nat, end: nat)
    requires Fits(m, steps) && Need(m, steps, cur) <= end
    ensures Written(m, steps, cur, end) == AllLive(m, steps)
  {
    hide StepBytes, StepFits, StepLive, StepWritten, StepChecked;
    if steps != [] {
      StepWrittenAll(m, steps[0], cur, end);
      WrittenAll(m, steps[1..], cur + |StepBytes(m, steps[0])|, end);
    }
  }

  /** Nothing but live bytes is ever overwritten. */
  lemma {:induction false} WrittenIsLive(m: Memory, steps: seq<Step>, cur: nat, end: nat)
    requires Fits(m, steps)
    ensures Written(m, steps, cur, end) <= AllLive(m, steps)
  {
    hide StepBytes, StepFits, StepLive, StepWritten, StepChecked;
    if steps != [] {
      StepWrittenIsLive(m, steps[0], cur, end);
      WrittenIsLive(m, steps[1..], cur + |StepBytes(m, steps[0])|, end);
    }
  }

  lemma StepWrittenIsLive(m: Memory, s: Step, cur: nat, end: nat)
    requires StepFits(m, s)
    ensures StepWritten(m, s, cur, end) <= StepLive(m, s)
  {
    hide WellFormed, Encoded, Blocks, Spans;
    if s.Bits? && Checked(m, s.mb) && end < cur + |Encoded(m, s.mb)| {
      var all, n := Blocks(m, s.mb), BlocksRead(cur, end);
      assert |Encoded(m, s.mb)| == BLOCK * |all| by { EncodedLength(m, s.mb); }
      BlocksReadFit(cur, end, |all|);
      assert all == all[..n] + all[n..];
      SpansOfTwo(all[..n], all[n..]);
    }
  }

  lemma EncodedLength(m: Memory, mb: Multibit)
    requires WellFormed(m, mb) && !mb.Flat()
    ensures |Encoded(m, mb)| == BLOCK * |Blocks(m, mb)|
  {
  }

  lemma {:induction false} SpansOfTwo(a: seq<nat>, b: seq<nat>)
    ensures Spans(a + b) == Spans(a) + Spans(b)
  {
    if a == [] {
      assert a + b == b;
    } else {
      assert (a + b)[1..] == a[1..] + b;
      SpansOfTwo(a[1..], b);
    }
  }

  lemma {:induction false} WrittenOfTwo(m: Memory, a: seq<Step>, b: seq<Step>, cur: nat, end: nat)
    requires Fits(m, a) && Fits(m, b)
    ensures Fits(m, a + b)
    ensures Written(m, a + b, cur, end) ==
            Written(m, a, cur, end) +
            (if Need(m, a, cur) <= end then Written(m, b, cur + |Image(m, a)|, end) else {})
  {
    hide StepBytes, StepFits, StepWritten, StepChecked;
    FitsParts(m, a, b);
    if a == [] {
      assert a + b == b;
    } else {
      assert (a + b)[1..] == a[1..] + b;
      WrittenOfTwo(m, a[1..], b, cur + |StepBytes(m, a[0])|, end);
    }
  }

  lemma FitsParts(m: Memory, a: seq<Step>, b: seq<Step>)
    ensures Fits(m, a + b) <==> Fits(m, a) && Fits(m, b)
  {
    if Fits(m, a + b) {
      forall i | 0 <= i < |a| ensures StepFits(m, a[i]) { assert (a + b)[i] == a[i]; }
      forall i | 0 <= i < |b| ensures StepFits(m, b[i]) { assert (a + b)[|a| + i] == b[i]; }
    }
  }

  lemma {:induction false} ImageOfTwo(m: Memory, a: seq<Step>, b: seq<Step>)
    requires Fits(m, a) && Fits(m, b)
    ensures Fits(m, a + b) && Image(m, a + b) == Image(m, a) + Image(m, b)
    ensures AllLive(m, a + b) == AllLive(m, a) + AllLive(m, b)
  {
    hide StepBytes, StepFits, StepLive;
    FitsParts(m, a, b);
    if a == [] {
      assert a + b == b;
    } else {
      assert (a + b)[1..] == a[1..] + b;
      ImageOfTwo(m, a[1..], b);
    }
  }

  lemma {:induction false} NeedOfTwo(m: Memory, a: seq<Step>, b: seq<Step>, cur: nat)
    requires Fits(m, a) && Fits(m, b)
    ensures Fits(m, a + b)
    ensures Need(m, a + b, cur) == Max(Need(m, a, cur), Need(m, b, cur + |Image(m, a)|))
  {
    hide StepBytes, StepFits, StepChecked;
    FitsParts(m, a, b);
    if a == [] {
      assert a + b == b;
    } else {
      assert (a + b)[1..] == a[1..] + b;
      NeedOfTwo(m, a[1..], b, cur + |StepBytes(m, a[0])|);
    }
  }

  lemma {:induction false} NeedAtMostEnd(m: Memory, steps: seq<Step>, cur: nat)
    requires Fits(m, steps)
    ensures Need(m, steps, cur) <= cur + |Image(m, steps)|
  {
    hide StepBytes, StepChecked;
    if steps != [] {
      NeedAtMostEnd(m, steps[1..], cur + |StepBytes(m, steps[0])|);
    }
  }

  // ----- the plan only depends on what it restores

  lemma {:induction false} SameEntries(l: Layout, t0: Memory, t: Memory, src: Memory, live: set<nat>, tab: Table,
                                       k: nat)
    requires WellFormed(src, l.Mask(tab)) && Live(src, l.Mask(tab)) <= live && Restored(t0, t, src, live)
    ensures l.Entries(t, tab, k) == l.Entries(src, tab, k)
    decreases l.Mask(tab).total - k
  {
    hide Next, WellFormed, Live, Restored, Layout.Kept, Layout.Entry, Layout.Mask;
    SameNext(t0, t, src, live, l.Mask(tab), k);
    if k < l.Mask(tab).total && Next(src, l.Mask(tab), k) < l.Mask(tab).total {
      SameEntries(l, t0, t, src, live, tab, Next(src, l.Mask(tab), k) + 1);
    }
  }

  lemma SameStep(t0: Memory, t: Memory, src: Memory, live: set<nat>, s: Step)
    requires StepFits(src, s) && StepLive(src, s) <= live && Restored(t0, t, src, live)
    ensures StepFits(t, s) && StepBytes(t, s) == StepBytes(src, s)
  {
    hide Restored, WellFormed, Live, Encoded, Checked;
    SameLength(t0, t, src, live);
    match s {
      case Raw(r) => RestoredSlice(t0, t, src, live, r.at, r.len);
      case Bits(mb) => SameEncoded(t0, t, src, live, mb);
    }
  }

  lemma {:induction false} SameImage(t0: Memory, t: Memory, src: Memory, live: set<nat>, steps: seq<Step>)
    requires Fits(src, steps) && AllLive(src, steps) <= live && Restored(t0, t, src, live)
    ensures Fits(t, steps) && Image(t, steps) == Image(src, steps)
  {
    hide Restored, StepFits, StepBytes, StepLive;
    if steps != [] {
      SameStep(t0, t, src, live, steps[0]);
      SameImage(t0, t, src, live, steps[1..]);
    }
  }

  /** Every step of a run is live in full. */
  lemma {:induction false} StepIsLive(m: Memory, steps: seq<Step>, s: Step)
    requires s in steps
    ensures StepLive(m, s) <= AllLive(m, steps)
  {
    if s != steps[0] {
      StepIsLive(m, steps[1..], s);
    }
  }

  /** The entry of every set key of a table is copied. */
  lemma {:induction false} KeyIsCopied(l: Layout, m: Memory, tab: Table, from: nat, k: nat)
    requires from <= k && IsSet(m, l.Mask(tab), k) && l.Kept(tab, k)
    ensures forall s <- l.Entry(tab, k) :: s in l.Entries(m, tab, from)
    decreases l.Mask(tab).total - from
  {
    hide IsSet, Layout.Kept, Layout.Entry, Layout.Mask;
    var n := Next(m, l.Mask(tab), from);
    assert k < l.Mask(tab).total by { KeyInRange(m, l.Mask(tab), k); }
    NextIsLeast(m, l.Mask(tab), from);
    assert n <= k;
    if n < k {
      KeyIsCopied(l, m, tab, n + 1, k);
    }
  }

  lemma KeyInRange(m: Memory, mb: Multibit, k: nat)
    requires IsSet(m, mb, k)
    ensures k < mb.total
  {
  }
}
