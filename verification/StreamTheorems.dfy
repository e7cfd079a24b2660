/**
 What compressing and expanding stream state promises, for every layout and
 every stream whose plan fits its memory.
 */
module StreamTheorems {
  import opened Common
  import opened MultibitCodec
  import opened StreamPlan
  import opened StreamFields
  import opened StreamCompress

  // ----- what an expanded stream holds

  predicate Used(l: Layout, t: Table) { (t.Left? ==> l.hasLeft) && (t.Som? ==> l.hasSom) }

  lemma {:induction false} MaskIsLive(l: Layout, m: Memory, offset: nat, t: Table)
    requires Fits(m, l.Plan(m, offset)) && Used(l, t)
    ensures WellFormed(m, l.Mask(t)) && Live(m, l.Mask(t)) <= AllLive(m, l.Plan(m, offset))
    ensures AllLive(m, l.Entries(m, t, 0)) <= AllLive(m, l.Plan(m, offset)) && Fits(m, l.Entries(m, t, 0))
  {
    hide Fits, AllLive, WellFormed, Live, Layout.Fixed, Layout.Entries, Layout.SomMasks, Layout.Plan;
    PlanHas(l, m, offset);
    FixedMasks(l, m, offset, 0, 0);
    if l.hasSom {
      ValidMask(l, m, 0, 0);
    }
  }

  /**
   The expander's decisions are the compressor's: an expanded stream has the
   same keys in every steering multibit and follows the same plan.
   */
  lemma {:induction false} SamePlan(l: Layout, t0: Memory, t: Memory, src: Memory, offset: nat)
    requires Fits(src, l.Plan(src, offset)) && Restored(t0, t, src, AllLive(src, l.Plan(src, offset)))
    ensures l.Plan(t, offset) == l.Plan(src, offset)
  {
    hide Fits, AllLive, WellFormed, Live, Restored, Layout.Fixed, Layout.Entries, Layout.Mask;
    var live := AllLive(src, l.Plan(src, offset));
    forall tab | Used(l, tab) ensures l.Entries(t, tab, 0) == l.Entries(src, tab, 0) {
      MaskIsLive(l, src, offset, tab);
      SameEntries(l, t0, t, src, live, tab, 0);
    }
    assert Used(l, Leaf);
    assert l.hasLeft ==> Used(l, Left);
    assert l.hasSom ==> Used(l, Som);
  }

  /** Compressing an expanded stream gives back the bytes it was expanded from. */
  lemma RecompressIsIdentical(l: Layout, t0: Memory, t: Memory, src: Memory, offset: nat)
    requires Fits(src, l.Plan(src, offset)) && Restored(t0, t, src, AllLive(src, l.Plan(src, offset)))
    ensures Fits(t, l.Plan(t, offset)) && StreamImage(l, t, offset) == StreamImage(l, src, offset)
  {
    hide Fits, AllLive, Restored, Layout.Plan, Image;
    SamePlan(l, t0, t, src, offset);
    SameImage(t0, t, src, AllLive(src, l.Plan(src, offset)), l.Plan(src, offset));
  }

  /** Every entry of every set key (queue states, leftfix lags, SOM slots) is restored, and no key is gained or lost. */
  lemma {:induction false} EntriesRestored(l: Layout, t0: Memory, t: Memory, src: Memory, offset: nat, tab: Table,
                                           k: nat)
    requires Fits(src, l.Plan(src, offset)) && Restored(t0, t, src, AllLive(src, l.Plan(src, offset))) && Used(l, tab)
    ensures IsSet(t, l.Mask(tab), k) <==> IsSet(src, l.Mask(tab), k)
    ensures IsSet(src, l.Mask(tab), k) && l.Kept(tab, k) ==>
              |t| == |src| &&
              forall s <- l.Entry(tab, k) :: s.Raw? && s.region.at + s.region.len <= |src| &&
                t[s.region.at..s.region.at + s.region.len] == src[s.region.at..s.region.at + s.region.len]
  {
    hide AllLive, WellFormed, Live, Restored, Layout.Entries, Layout.Mask, Layout.Plan, IsSet;
    var live := AllLive(src, l.Plan(src, offset));
    SameLength(t0, t, src, live);
    MaskIsLive(l, src, offset, tab);
    SameKeys(t0, t, src, live, l.Mask(tab), k);
    if IsSet(src, l.Mask(tab), k) && l.Kept(tab, k) {
      KeyIsCopied(l, src, tab, 0, k);
      forall s <- l.Entry(tab, k)
        ensures s.Raw? && s.region.at + s.region.len <= |src| &&
                t[s.region.at..s.region.at + s.region.len] == src[s.region.at..s.region.at + s.region.len]
      {
        var steps := l.Entries(src, tab, 0);
        var i :| 0 <= i < |steps| && steps[i] == s;
        assert StepFits(src, steps[i]);
        StepIsLive(src, steps, s);
        RestoredSlice(t0, t, src, live, s.region.at, s.region.len);
      }
    }
  }

  // ----- the order of the form

  /** One more step in front. */
  lemma ImageCons(m: Memory, s: Step, rest: seq<Step>)
    requires Fits(m, [s] + rest)
    ensures StepFits(m, s) && Fits(m, rest) && Image(m, [s] + rest) == StepBytes(m, s) + Image(m, rest)
  {
    hide StepFits, StepBytes;
    FitsParts(m, [s], rest);
    assert StepFits(m, [s][0]);
    assert ([s] + rest)[1..] == rest;
  }

  /** The bytes of a region, as far as there is memory. */
  ghost function BytesAt(m: Memory, r: Region): Memory { if r.at + r.len <= |m| then m[r.at..r.at + r.len] else [] }

  ghost function BitsOf(m: Memory, mb: Multibit): Memory { if WellFormed(m, mb) then Encoded(m, mb) else [] }

  lemma RawCons(m: Memory, r: Region, rest: seq<Step>)
    requires Fits(m, [Raw(r)] + rest)
    ensures Fits(m, rest) && Image(m, [Raw(r)] + rest) == BytesAt(m, r) + Image(m, rest)
  {
    hide Image, Fits;
    ImageCons(m, Raw(r), rest);
  }

  lemma BitsCons(m: Memory, mb: Multibit, rest: seq<Step>)
    requires Fits(m, [Bits(mb)] + rest)
    ensures Fits(m, rest) && Image(m, [Bits(mb)] + rest) == BitsOf(m, mb) + Image(m, rest)
  {
    hide Image, Fits, WellFormed, Encoded;
    ImageCons(m, Bits(mb), rest);
  }

  /** From the groups on. */
  lemma LaterForm(l: Layout, m: Memory, history: Region)
    requires Fits(m, [Raw(l.groups), Raw(history), Bits(l.exhausted), Bits(l.logical), Bits(l.comb)])
    ensures Image(m, [Raw(l.groups), Raw(history), Bits(l.exhausted), Bits(l.logical), Bits(l.comb)]) ==
            BytesAt(m, l.groups) + (BytesAt(m, history) +
            (BitsOf(m, l.exhausted) + (BitsOf(m, l.logical) + BitsOf(m, l.comb))))
  {
    hide Fits, Image, BytesAt, BitsOf;
    var r10 := [Bits(l.comb)] + [];
    var r9 := [Bits(l.logical)] + r10;
    var r8 := [Bits(l.exhausted)] + r9;
    var r7 := [Raw(history)] + r8;
    assert [Raw(l.groups)] + r7 == [Raw(l.groups), Raw(history), Bits(l.exhausted), Bits(l.logical), Bits(l.comb)];
    RawCons(m, l.groups, r7);
    RawCons(m, history, r8);
    BitsCons(m, l.exhausted, r9);
    BitsCons(m, l.logical, r10);
    BitsCons(m, l.comb, []);
    NoImage(m);
    assert BitsOf(m, l.comb) + [] == BitsOf(m, l.comb);
  }

  /** The part of the form that every stream has: status, activity, literals, anchors, groups, history, vectors. */
  lemma FixedForm(l: Layout, m: Memory, offset: nat)
    requires Fits(m, l.Fixed(offset))
    ensures var h := Min(offset % TWO32, l.historyRequired);
            Image(m, l.Fixed(offset)) ==
            BytesAt(m, Region(0, 1)) + (BitsOf(m, l.roles) + (BitsOf(m, l.activeLeaf) + (BitsOf(m, l.activeLeft) +
            (BytesAt(m, l.longLit) + ((if offset <= l.anchoredDistance then BytesAt(m, l.anchor) else []) +
            (BytesAt(m, l.groups) + (BytesAt(m, Region(l.history + l.historyRequired - h, h)) +
            (BitsOf(m, l.exhausted) + (BitsOf(m, l.logical) + BitsOf(m, l.comb))))))))))
  {
    hide Fits, Image, BytesAt, BitsOf;
    var h := Min(offset % TWO32, l.historyRequired);
    var history := Region(l.history + l.historyRequired - h, h);
    var r6 := [Raw(l.groups), Raw(history), Bits(l.exhausted), Bits(l.logical), Bits(l.comb)];
    var r5 := if offset <= l.anchoredDistance then [Raw(l.anchor)] + r6 else r6;
    var r4 := [Raw(l.longLit)] + r5;
    var r3 := [Bits(l.activeLeft)] + r4;
    var r2 := [Bits(l.activeLeaf)] + r3;
    var r1 := [Bits(l.roles)] + r2;
    assert l.Fixed(offset) == [Raw(Region(0, 1))] + r1;
    RawCons(m, Region(0, 1), r1);
    BitsCons(m, l.roles, r2);
    BitsCons(m, l.activeLeaf, r3);
    BitsCons(m, l.activeLeft, r4);
    RawCons(m, l.longLit, r5);
    if offset <= l.anchoredDistance {
      RawCons(m, l.anchor, r6);
    } else {
      assert [] + Image(m, r6) == Image(m, r6);
    }
    LaterForm(l, m, history);
  }

  // ----- what a failed expansion leaves

  /** The status byte is overwritten exactly when the stated size reaches past it; below that the body is untouched. */
  lemma {:induction false} StatusWritten(l: Layout, m: Memory, offset: nat, end: nat)
    requires Fits(m, l.Plan(m, offset))
    ensures 0 in ExpandWritten(l, m, offset, end) <==> end >= OFFSET_FIELD + 1
    ensures end < OFFSET_FIELD + 1 ==> ExpandWritten(l, m, offset, end) == {}
  {
    var plan := l.Plan(m, offset);
    assert plan[0] == Raw(Region(0, 1));
    assert StepFits(m, plan[0]);
  }

  // ----- history

  /** The bytes that getHistory and getHistoryAmount name: the last of the history buffer. */
  function HistoryLength(l: Layout, offset: nat): nat { Min(offset, l.historyRequired) }

  /** The copied and the live amount agree exactly when cutting the offset to 32 bits does no harm. */
  lemma CopiedHistoryIsLive(l: Layout, offset: nat)
    ensures l.HistoryCopied(offset) <= HistoryLength(l, offset)
    ensures l.HistoryCopied(offset) == HistoryLength(l, offset) <==>
            offset < TWO32 || offset % TWO32 >= l.historyRequired
  {
    CutOffset(offset);
  }

  lemma CutOffset(offset: nat)
    ensures offset % TWO32 <= offset
    ensures offset % TWO32 == offset <==> offset < TWO32
  {
  }

  lemma {:induction false} HistoryKept(l: Layout, t0: Memory, t: Memory, src: Memory, offset: nat)
    requires Fits(src, l.Plan(src, offset)) && Restored(t0, t, src, AllLive(src, l.Plan(src, offset)))
    requires offset < TWO32 || offset % TWO32 >= l.historyRequired
    ensures var end, n := l.history + l.historyRequired, HistoryLength(l, offset);
            end <= |src| == |t| && t[end - n..end] == src[end - n..end]
  {
    hide AllLive, Restored, StepBytes;
    SameLength(t0, t, src, AllLive(src, l.Plan(src, offset)));
    var end, n := l.history + l.historyRequired, HistoryLength(l, offset);
    CopiedHistoryIsLive(l, offset);
    var f := l.Fixed(offset);
    PlanHas(l, src, offset);
    var i := if offset <= l.anchoredDistance then 7 else 6;
    assert f[i] == Raw(Region(end - n, n));
    StepIsLive(src, f, f[i]);
    assert StepFits(src, f[i]);
    RestoredSlice(t0, t, src, AllLive(src, l.Plan(src, offset)), end - n, n);
  }

  /** No step but the history step touches the history buffer. */
  ghost predicate HistoryApart(l: Layout, m: Memory, offset: nat) {
    var end, h := l.history + l.historyRequired, l.HistoryCopied(offset);
    forall i: nat :: l.history <= i < end - h ==> i !in AllLive(m, l.Plan(m, offset))
  }

  /** Otherwise live history is lost: the oldest live byte is whatever the target memory held before. */
  lemma HistoryLost(l: Layout, t0: Memory, t: Memory, src: Memory, offset: nat)
    requires Fits(src, l.Plan(src, offset)) && Restored(t0, t, src, AllLive(src, l.Plan(src, offset)))
    requires HistoryApart(l, src, offset) && l.history + l.historyRequired <= |src|
    requires TWO32 <= offset && offset % TWO32 < l.historyRequired
    ensures var oldest := l.history + l.historyRequired - HistoryLength(l, offset);
            oldest < |t| && t[oldest] == t0[oldest]
  {
    hide AllLive, Fits, Layout.Plan;
    CopiedHistoryIsLive(l, offset);
  }

  /** An engine that keeps one byte of history, after the status byte, and no other state. */
  function HistoryLayout(): Layout {
    SmallLayout().(history := 1, historyRequired := 1, comb := Multibit(0, 0))
  }

  lemma {:induction false} LiveWithin(m: Memory, steps: seq<Step>, area: set<nat>)
    requires forall i :: 0 <= i < |steps| ==> StepLive(m, steps[i]) <= area
    ensures AllLive(m, steps) <= area
  {
    if steps != [] {
      LiveWithin(m, steps[1..], area);
    }
  }

  /** At offset 2^32 its history byte 5 is live and not copied: a target that held 9 there shows 9. */
  lemma HistoryLostAtInput(t: Memory)
    requires var l, src: Memory := HistoryLayout(), [0, 5];
             Restored([0, 9], t, src, AllLive(src, l.Plan(src, TWO32)))
    ensures var l, src: Memory := HistoryLayout(), [0, 5];
            Fits(src, l.Plan(src, TWO32)) && HistoryApart(l, src, TWO32) &&
            HistoryLength(l, TWO32) == 1 && |t| == 2 && t[1] == 9
  {
    var l, src: Memory, offset := HistoryLayout(), [0, 5], TWO32;
    var plan := l.Plan(src, offset);
    assert l.AfterFixed(src) == [] && plan == l.Fixed(offset);
    forall i | 0 <= i < |plan| ensures StepFits(src, plan[i]) && StepLive(src, plan[i]) <= {0} { }
    LiveWithin(src, plan, {0});
  }

  // ----- prefixes

  /** Whether Expand succeeds when its caller states `n` bytes. */
  predicate Accepts(l: Layout, m: Memory, offset: nat, n: nat)
    requires Fits(m, l.Plan(m, offset))
  {
    Demanded(l, m, offset) <= n
  }

  /** The last step that writes anything is one whose expansion looks at the end of the buffer. */
  predicate EndsChecked(m: Memory, steps: seq<Step>)
    requires Fits(m, steps)
  {
    steps == [] ||
    var last := steps[|steps| - 1];
    StepChecked(m, last) || (StepBytes(m, last) == [] && EndsChecked(m, steps[..|steps| - 1]))
  }

  lemma {:induction false} EndsSnoc(m: Memory, front: seq<Step>, last: Step)
    requires Fits(m, front) && StepFits(m, last)
    ensures Fits(m, front + [last])
    ensures EndsChecked(m, front + [last]) <==>
            StepChecked(m, last) || (StepBytes(m, last) == [] && EndsChecked(m, front))
  {
    hide StepBytes, StepChecked, StepFits;
    var all := front + [last];
    assert all[..|all| - 1] == front && all[|all| - 1] == last;
  }

  /** What is demanded of a run is at most its end, and is its end exactly when the run ends checked. */
  ghost predicate DemandIsRight(m: Memory, steps: seq<Step>, cur: nat)
    requires Fits(m, steps)
  {
    var need, end := Max(cur, Need(m, steps, cur)), cur + |Image(m, steps)|;
    need <= end && (need == end <==> EndsChecked(m, steps))
  }

  lemma {:induction false} DemandSnoc(m: Memory, front: seq<Step>, last: Step, cur: nat)
    requires Fits(m, front) && StepFits(m, last) && DemandIsRight(m, front, cur)
    ensures Fits(m, front + [last]) && DemandIsRight(m, front + [last], cur)
  {
    hide StepBytes, StepChecked, StepFits, Fits, Need, Image, EndsChecked;
    EndsSnoc(m, front, last);
    var end, size := cur + |Image(m, front)|, |StepBytes(m, last)|;
    OneStep(m, last, end);
    assert |Image(m, front + [last])| == |Image(m, front)| + size by { ImageOfTwo(m, front, [last]); }
    assert Need(m, front + [last], cur) == Max(Need(m, front, cur), Need(m, [last], end)) by {
      NeedOfTwo(m, front, [last], cur);
    }
    FurthestCheck(cur, Need(m, front, cur), end, size, StepChecked(m, last), EndsChecked(m, front));
  }

  lemma FurthestCheck(cur: nat, need: nat, end: nat, size: nat, checked: bool, ends: bool)
    requires Max(cur, need) <= end && (Max(cur, need) == end <==> ends)
    ensures var all := Max(cur, Max(need, if checked then end + size else 0));
            all <= end + size && (all == end + size <==> checked || (size == 0 && ends))
  {
  }

  lemma {:induction false} NeedIsEnd(m: Memory, steps: seq<Step>, cur: nat)
    requires Fits(m, steps)
    ensures DemandIsRight(m, steps, cur)
    decreases |steps|
  {
    if steps != [] {
      hide DemandIsRight;
      var n := |steps| - 1;
      assert steps == steps[..n] + [steps[n]] && StepFits(m, steps[n]);
      NeedIsEnd(m, steps[..n], cur);
      DemandSnoc(m, steps[..n], steps[n], cur);
    }
  }

  lemma OneStep(m: Memory, s: Step, cur: nat)
    requires StepFits(m, s)
    ensures Fits(m, [s]) && Image(m, [s]) == StepBytes(m, s)
    ensures Need(m, [s], cur) == if StepChecked(m, s) then cur + |StepBytes(m, s)| else 0
  {
    hide StepBytes, StepChecked, StepFits;
    assert Image(m, [s]) == StepBytes(m, s) + Image(m, [][..]);
  }

  /**
   Expanding a prefix that is too short fails for every strict prefix exactly
   when the last step that writes anything is checked; a trailing flat
   multibit, or a pyramid of which only the root is in use, is read unchecked.
   */
  lemma StrictPrefixes(l: Layout, m: Memory, offset: nat)
    requires Fits(m, l.Plan(m, offset))
    ensures Demanded(l, m, offset) <= |StreamImage(l, m, offset)|
    ensures (forall n: nat :: n < |StreamImage(l, m, offset)| ==> !Accepts(l, m, offset, n)) <==>
            EndsChecked(m, l.Plan(m, offset))
  {
    hide Fits, Need, Image, EndsChecked, Layout.Plan, StoreLE;
    NeedIsEnd(m, l.Plan(m, offset), OFFSET_FIELD);
    var d := Demanded(l, m, offset);
    assert Accepts(l, m, offset, d);
  }

  /** With no entry to copy after it, a non-empty flat combination vector is such an unchecked end. */
  lemma {:induction false} UncheckedTail(l: Layout, m: Memory, offset: nat)
    requires Fits(m, l.Plan(m, offset)) && l.AfterFixed(m) == []
    requires l.comb.Flat() && l.comb.total > 0
    ensures Demanded(l, m, offset) < |StreamImage(l, m, offset)|
  {
    var plan := l.Plan(m, offset);
    assert plan == l.Fixed(offset);
    assert plan[|plan| - 1] == Bits(l.comb);
    assert StepFits(m, Bits(l.comb));
    assert |StepBytes(m, Bits(l.comb))| > 0;
    NeedIsEnd(m, plan, OFFSET_FIELD);
  }

  /** An engine with one byte of combination flags and no other state. */
  function SmallLayout(): Layout {
    var none, nothing := Multibit(0, 0), Region(0, 0);
    Layout(none, none, none, nothing, nothing, 0, nothing, 0, 0, none, none, Multibit(1, 8), _ => nothing, 0,
           false, {}, 0, _ => 0, false, none, none, 0, 0)
  }

  /** Its streams compress to a form of which a strict prefix expands. */
  lemma ShortPrefixAccepted()
    ensures var l, m: Memory := SmallLayout(), [0, 0];
            Fits(m, l.Plan(m, 0)) && exists n: nat :: n < |StreamImage(l, m, 0)| && Accepts(l, m, 0, n)
  {
    hide Need, Image, Encoded;
    var l, m: Memory := SmallLayout(), [0, 0];
    assert l.AfterFixed(m) == [];
    assert l.Plan(m, 0) == l.Fixed(0);
    forall i | 0 <= i < |l.Fixed(0)| ensures StepFits(m, l.Fixed(0)[i]) { }
    UncheckedTail(l, m, 0);
    assert Accepts(l, m, 0, Demanded(l, m, 0));
  }
}
