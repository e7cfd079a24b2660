/**
 What an expanded stream has in common with the one it was compressed from, field by
 field of the engine's layout, whatever the plan of the copies is.
 */
module StreamFields {
  import opened Common
  import opened MultibitCodec
  import opened StreamPlan

  ghost predicate SameBytes(t: Memory, src: Memory, at: nat, len: nat) {
    at + len <= |src| == |t| && t[at..at + len] == src[at..at + len]
  }

  ghost predicate SameBits(t: Memory, src: Memory, mb: Multibit) {
    forall k: nat :: IsSet(t, mb, k) <==> IsSet(src, mb, k)
  }

  /** Everything that every stream has: status, role and activity bits, literal and group state, history, vectors. */
  ghost predicate SameFixed(l: Layout, t: Memory, src: Memory, offset: nat) {
    var h := Min(offset % TWO32, l.historyRequired);
    && SameBytes(t, src, 0, 1) && SameBits(t, src, l.roles)
    && SameBits(t, src, l.activeLeaf) && SameBits(t, src, l.activeLeft)
    && SameBytes(t, src, l.longLit.at, l.longLit.len)
    && (offset <= l.anchoredDistance ==> SameBytes(t, src, l.anchor.at, l.anchor.len))
    && SameBytes(t, src, l.groups.at, l.groups.len)
    && SameBytes(t, src, l.history + l.historyRequired - h, h)
    && SameBits(t, src, l.exhausted) && SameBits(t, src, l.logical) && SameBits(t, src, l.comb)
  }

  /** The state of every active queue. */
  ghost predicate SameLeaves(l: Layout, t: Memory, src: Memory) {
    forall k: nat :: IsSet(src, l.activeLeaf, k) ==>
      SameBytes(t, src, l.queueState(k).at, l.queueState(k).len)
  }

  /** State and lag byte of every active leftfix that is not transient. */
  ghost predicate SameLeftfixes(l: Layout, t: Memory, src: Memory) {
    l.hasLeft ==>
      forall k: nat :: IsSet(src, l.activeLeft, k) && k in l.nonTransient ==>
        && SameBytes(t, src, l.queueState(k + l.leftfixBeginQueue).at, l.queueState(k + l.leftfixBeginQueue).len)
        && SameBytes(t, src, l.lagTable + l.lagIndex(k), 1)
  }

  function SlotAt(l: Layout, k: nat): nat { l.somLocation + k * l.somWidth }

  /** Which SOM slots are writable and valid, and the contents of the valid ones. */
  ghost predicate SameSoms(l: Layout, t: Memory, src: Memory) {
    l.hasSom ==>
      && SameBits(t, src, l.somWritable) && SameBits(t, src, l.somValid)
      && forall k: nat :: IsSet(src, l.somValid, k) ==>
           SameBytes(t, src, SlotAt(l, k), l.somWidth)
  }

  ghost predicate SameStream(l: Layout, t: Memory, src: Memory, offset: nat) {
    SameFixed(l, t, src, offset) && SameLeaves(l, t, src) && SameLeftfixes(l, t, src) && SameSoms(l, t, src)
  }

  // ----- steps of a run that is restored

  lemma RestoredBytes(t0: Memory, t: Memory, src: Memory, live: set<nat>, steps: seq<Step>, s: Step)
    requires Fits(src, steps) && AllLive(src, steps) <= live && Restored(t0, t, src, live) && s in steps
    ensures s.Raw? ==> SameBytes(t, src, s.region.at, s.region.len)
    ensures s.Bits? ==> WellFormed(src, s.mb) && Live(src, s.mb) <= live && SameBits(t, src, s.mb)
  {
    hide Restored, WellFormed, Live, IsSet, AllLive;
    SameLength(t0, t, src, live);
    var i :| 0 <= i < |steps| && steps[i] == s;
    assert StepFits(src, steps[i]);
    StepIsLive(src, steps, s);
    match s {
      case Raw(r) => RestoredSlice(t0, t, src, live, r.at, r.len);
      case Bits(mb) =>
        forall k: nat ensures IsSet(t, mb, k) <==> IsSet(src, mb, k) {
          SameKeys(t0, t, src, live, mb, k);
        }
    }
  }

  lemma FixedRestored(l: Layout, t0: Memory, t: Memory, src: Memory, live: set<nat>, offset: nat)
    requires Fits(src, l.Fixed(offset)) && AllLive(src, l.Fixed(offset)) <= live && Restored(t0, t, src, live)
    ensures SameFixed(l, t, src, offset)
  {
    hide Restored, AllLive, SameBytes, SameBits, Fits, Live, WellFormed;
    var f := l.Fixed(offset);
    forall s | s in f
      ensures (s.Raw? ==> SameBytes(t, src, s.region.at, s.region.len)) && (s.Bits? ==> SameBits(t, src, s.mb))
    {
      RestoredBytes(t0, t, src, live, f, s);
    }
    var h := Min(offset % TWO32, l.historyRequired);
    var i := if offset <= l.anchoredDistance then 6 else 5;
    assert f[0] == Raw(Region(0, 1)) && f[1] == Bits(l.roles) && f[2] == Bits(l.activeLeaf) &&
           f[3] == Bits(l.activeLeft) && f[4] == Raw(l.longLit);
    assert offset <= l.anchoredDistance ==> f[5] == Raw(l.anchor);
    assert f[i] == Raw(l.groups) && f[i + 1] == Raw(Region(l.history + l.historyRequired - h, h)) &&
           f[i + 2] == Bits(l.exhausted) && f[i + 3] == Bits(l.logical) && f[i + 4] == Bits(l.comb);
  }

  /** The entry of a set key of a table that is copied. */
  lemma EntryRestored(l: Layout, t0: Memory, t: Memory, src: Memory, live: set<nat>, tab: Table, k: nat)
    requires var steps := l.Entries(src, tab, 0); Fits(src, steps) && AllLive(src, steps) <= live
    requires Restored(t0, t, src, live) && IsSet(src, l.Mask(tab), k) && l.Kept(tab, k)
    ensures forall s <- l.Entry(tab, k) :: s.Raw? && SameBytes(t, src, s.region.at, s.region.len)
  {
    hide Restored, AllLive, SameBytes, Fits, IsSet, Layout.Mask;
    KeyIsCopied(l, src, tab, 0, k);
    forall s <- l.Entry(tab, k) ensures s.Raw? && SameBytes(t, src, s.region.at, s.region.len) {
      RestoredBytes(t0, t, src, live, l.Entries(src, tab, 0), s);
    }
  }

  /** The fixed steps, the masks and each table are parts of the plan. */
  lemma {:induction false} PlanHas(l: Layout, m: Memory, offset: nat)
    requires Fits(m, l.Plan(m, offset))
    ensures Fits(m, l.Fixed(offset)) && AllLive(m, l.Fixed(offset)) <= AllLive(m, l.Plan(m, offset))
    ensures AllLive(m, l.Entries(m, Leaf, 0)) <= AllLive(m, l.Plan(m, offset))
    ensures AllLive(m, l.LeftSteps(m)) <= AllLive(m, l.Plan(m, offset))
    ensures Fits(m, l.SomMasks()) && AllLive(m, l.SomMasks()) <= AllLive(m, l.Plan(m, offset))
    ensures AllLive(m, l.SomSteps(m)) <= AllLive(m, l.Plan(m, offset))
    ensures Fits(m, l.Entries(m, Leaf, 0)) && Fits(m, l.LeftSteps(m)) && Fits(m, l.SomSteps(m))
  {
    hide Fits, AllLive, Layout.Fixed, Layout.Entries, Layout.LeftSteps, Layout.SomMasks, Layout.SomSteps;
    FitsParts(m, l.Fixed(offset), l.AfterFixed(m));
    FitsParts(m, l.Entries(m, Leaf, 0), l.AfterLeaf(m));
    FitsParts(m, l.LeftSteps(m), l.AfterLeft(m));
    FitsParts(m, l.SomMasks(), l.SomSteps(m));
    ImageOfTwo(m, l.Fixed(offset), l.AfterFixed(m));
    ImageOfTwo(m, l.Entries(m, Leaf, 0), l.AfterLeaf(m));
    ImageOfTwo(m, l.LeftSteps(m), l.AfterLeft(m));
    ImageOfTwo(m, l.SomMasks(), l.SomSteps(m));
  }

  lemma LeavesRestored(l: Layout, t0: Memory, t: Memory, src: Memory, offset: nat)
    requires Fits(src, l.Plan(src, offset)) && Restored(t0, t, src, AllLive(src, l.Plan(src, offset)))
    ensures SameLeaves(l, t, src)
  {
    hide Restored, AllLive, SameBytes, Fits, IsSet, Layout.Plan, Layout.Entries, Layout.Fixed;
    PlanHas(l, src, offset);
    forall k: nat | IsSet(src, l.activeLeaf, k) ensures SameBytes(t, src, l.queueState(k).at, l.queueState(k).len) {
      EntryRestored(l, t0, t, src, AllLive(src, l.Plan(src, offset)), Leaf, k);
      assert Raw(l.queueState(k)) in l.Entry(Leaf, k);
    }
  }

  lemma LeftfixesRestored(l: Layout, t0: Memory, t: Memory, src: Memory, offset: nat)
    requires Fits(src, l.Plan(src, offset)) && Restored(t0, t, src, AllLive(src, l.Plan(src, offset)))
    ensures SameLeftfixes(l, t, src)
  {
    hide Restored, AllLive, SameBytes, Fits, IsSet, Layout.Plan, Layout.Entries, Layout.Fixed;
    PlanHas(l, src, offset);
    if l.hasLeft {
      forall k: nat | IsSet(src, l.activeLeft, k) && k in l.nonTransient
        ensures SameBytes(t, src, l.queueState(k + l.leftfixBeginQueue).at, l.queueState(k + l.leftfixBeginQueue).len)
        ensures SameBytes(t, src, l.lagTable + l.lagIndex(k), 1)
      {
        EntryRestored(l, t0, t, src, AllLive(src, l.Plan(src, offset)), Left, k);
        var e := l.Entry(Left, k);
        assert e[0] == Raw(l.queueState(k + l.leftfixBeginQueue)) && e[1] == Raw(Region(l.lagTable + l.lagIndex(k), 1));
      }
    }
  }

  lemma SlotRestored(l: Layout, t0: Memory, t: Memory, src: Memory, offset: nat, k: nat)
    requires Fits(src, l.Plan(src, offset)) && Restored(t0, t, src, AllLive(src, l.Plan(src, offset)))
    requires l.hasSom && IsSet(src, l.somValid, k)
    ensures SameBytes(t, src, SlotAt(l, k), l.somWidth)
  {
    hide Restored, AllLive, SameBytes, Fits, IsSet, Layout.Plan, Layout.Entries, Layout.Fixed;
    PlanHas(l, src, offset);
    EntryRestored(l, t0, t, src, AllLive(src, l.Plan(src, offset)), Som, k);
    var e := l.Entry(Som, k);
    assert e[0] == Raw(Region(SlotAt(l, k), l.somWidth));
  }

  lemma SomsRestored(l: Layout, t0: Memory, t: Memory, src: Memory, offset: nat)
    requires Fits(src, l.Plan(src, offset)) && Restored(t0, t, src, AllLive(src, l.Plan(src, offset)))
    ensures SameSoms(l, t, src)
  {
    hide Restored, AllLive, SameBytes, SameBits, Fits, IsSet, Layout.Plan, Layout.Entries, Layout.Fixed;
    PlanHas(l, src, offset);
    if l.hasSom {
      var live, masks := AllLive(src, l.Plan(src, offset)), l.SomMasks();
      assert masks[0] == Bits(l.somWritable) && masks[1] == Bits(l.somValid);
      RestoredBytes(t0, t, src, live, masks, masks[0]);
      RestoredBytes(t0, t, src, live, masks, masks[1]);
      forall k: nat | IsSet(src, l.somValid, k)
        ensures SameBytes(t, src, SlotAt(l, k), l.somWidth)
      {
        SlotRestored(l, t0, t, src, offset, k);
      }
    }
  }

  /** Restoring what the plan copies restores every field. */
  lemma FieldsRestored(l: Layout, t0: Memory, t: Memory, src: Memory, offset: nat)
    requires Fits(src, l.Plan(src, offset)) && Restored(t0, t, src, AllLive(src, l.Plan(src, offset)))
    ensures SameStream(l, t, src, offset)
  {
    hide Restored, AllLive, Fits, Layout.Plan, Layout.Fixed, SameFixed, SameLeaves, SameLeftfixes, SameSoms;
    PlanHas(l, src, offset);
    FixedRestored(l, t0, t, src, AllLive(src, l.Plan(src, offset)), offset);
    LeavesRestored(l, t0, t, src, offset);
    LeftfixesRestored(l, t0, t, src, offset);
    SomsRestored(l, t0, t, src, offset);
  }

  // ----- and nothing else is touched

  predicate Within(at: nat, len: nat, i: nat) { at <= i < at + len }

  predicate InBits(mb: Multibit, i: nat) { Within(mb.base, Size(mb), i) }

  /** Address i belongs to something that every stream has. */
  predicate InFixed(l: Layout, offset: nat, i: nat) {
    var h := Min(offset % TWO32, l.historyRequired);
    || i == 0 || InBits(l.roles, i) || InBits(l.activeLeaf, i) || InBits(l.activeLeft, i)
    || Within(l.longLit.at, l.longLit.len, i)
    || (offset <= l.anchoredDistance && Within(l.anchor.at, l.anchor.len, i))
    || Within(l.groups.at, l.groups.len, i) || Within(l.history + l.historyRequired - h, h, i)
    || InBits(l.exhausted, i) || InBits(l.logical, i) || InBits(l.comb, i)
  }

  ghost predicate InLeaves(l: Layout, src: Memory, i: nat) {
    exists k: nat :: IsSet(src, l.activeLeaf, k) && Within(l.queueState(k).at, l.queueState(k).len, i)
  }

  ghost predicate InLeftfixes(l: Layout, src: Memory, i: nat) {
    l.hasLeft &&
    exists k: nat :: IsSet(src, l.activeLeft, k) && k in l.nonTransient &&
      (Within(l.queueState(k + l.leftfixBeginQueue).at, l.queueState(k + l.leftfixBeginQueue).len, i) ||
       i == l.lagTable + l.lagIndex(k))
  }

  ghost predicate InSoms(l: Layout, src: Memory, i: nat) {
    l.hasSom &&
    (InBits(l.somWritable, i) || InBits(l.somValid, i) ||
     exists k: nat :: IsSet(src, l.somValid, k) && Within(SlotAt(l, k), l.somWidth, i))
  }

  ghost predicate InField(l: Layout, src: Memory, offset: nat, i: nat) {
    InFixed(l, offset, i) || InLeaves(l, src, i) || InLeftfixes(l, src, i) || InSoms(l, src, i)
  }

  lemma {:induction false} SpansInside(addrs: seq<nat>, lo: nat, hi: nat, i: nat)
    requires Inside(addrs, lo, hi) && i in Spans(addrs)
    ensures lo <= i < hi
  {
    if i !in Span(addrs[0], BLOCK) {
      SpansInside(addrs[1..], lo, hi, i);
    }
  }

  lemma LiveInside(m: Memory, mb: Multibit, i: nat)
    requires WellFormed(m, mb) && i in Live(m, mb)
    ensures InBits(mb, i)
  {
    hide Size, Blocks;
    if !mb.Flat() {
      SpansInside(Blocks(m, mb), mb.base, mb.base + Size(mb), i);
    }
  }

  /** A live byte is of some step: in its region, or in its multibit. */
  lemma {:induction false} LiveStep(m: Memory, steps: seq<Step>, i: nat) returns (s: Step)
    requires Fits(m, steps) && i in AllLive(m, steps)
    ensures s in steps && if s.Raw? then Within(s.region.at, s.region.len, i) else InBits(s.mb, i)
  {
    hide StepFits, Live, WellFormed;
    if i in StepLive(m, steps[0]) {
      s := steps[0];
      if s.Bits? {
        assert WellFormed(m, s.mb) by { FittingBits(m, s); }
        LiveInside(m, s.mb, i);
      }
    } else {
      s := LiveStep(m, steps[1..], i);
    }
  }

  lemma FittingBits(m: Memory, s: Step)
    requires StepFits(m, s) && s.Bits?
    ensures WellFormed(m, s.mb)
  {
  }

  /** A step of a table is part of the entry of a set key. */
  lemma {:induction false} StepHasKey(l: Layout, m: Memory, tab: Table, from: nat, s: Step) returns (k: nat)
    requires s in l.Entries(m, tab, from)
    ensures IsSet(m, l.Mask(tab), k) && l.Kept(tab, k) && s in l.Entry(tab, k)
    decreases l.Mask(tab).total - from
  {
    hide IsSet, Layout.Entry, Layout.Kept, Layout.Mask;
    var n := Next(m, l.Mask(tab), from);
    NextIsLeast(m, l.Mask(tab), from);
    if l.Kept(tab, n) && s in l.Entry(tab, n) {
      k := n;
    } else {
      k := StepHasKey(l, m, tab, n + 1, s);
    }
  }

  lemma FixedInField(l: Layout, offset: nat, s: Step, i: nat)
    requires s in l.Fixed(offset) && if s.Raw? then Within(s.region.at, s.region.len, i) else InBits(s.mb, i)
    ensures InFixed(l, offset, i)
  {
    hide Size;
  }

  lemma TableInField(l: Layout, src: Memory, offset: nat, tab: Table, i: nat)
    requires var steps := l.Entries(src, tab, 0); Fits(src, steps) && i in AllLive(src, steps)
    requires (tab.Left? ==> l.hasLeft) && (tab.Som? ==> l.hasSom)
    ensures InField(l, src, offset, i)
  {
    hide IsSet, Fits, AllLive, Layout.Entries, InFixed, Size;
    var s := LiveStep(src, l.Entries(src, tab, 0), i);
    var k := StepHasKey(l, src, tab, 0, s);
    match tab {
      case Leaf => assert InLeaves(l, src, i);
      case Left => assert InLeftfixes(l, src, i);
      case Som => assert InSoms(l, src, i);
    }
  }

  /** Every byte that the plan copies belongs to a field. */
  lemma PlanInFields(l: Layout, src: Memory, offset: nat, i: nat)
    requires Fits(src, l.Plan(src, offset)) && i in AllLive(src, l.Plan(src, offset))
    ensures InField(l, src, offset, i)
  {
    hide IsSet, Fits, AllLive, Layout.Entries, Layout.Fixed, InFixed, InLeaves, InLeftfixes, Size;
    PlanHas(l, src, offset);
    var left, masks, soms := l.LeftSteps(src), l.SomMasks(), l.SomSteps(src);
    FitsParts(src, masks, soms);
    FitsParts(src, left, masks + soms);
    FitsParts(src, l.Entries(src, Leaf, 0), left + (masks + soms));
    ImageOfTwo(src, masks, soms);
    ImageOfTwo(src, left, masks + soms);
    ImageOfTwo(src, l.Entries(src, Leaf, 0), left + (masks + soms));
    ImageOfTwo(src, l.Fixed(offset), l.AfterFixed(src));
    NothingLive(src);
    if i in AllLive(src, l.Fixed(offset)) {
      var s := LiveStep(src, l.Fixed(offset), i);
      FixedInField(l, offset, s, i);
    } else if i in AllLive(src, l.Entries(src, Leaf, 0)) {
      TableInField(l, src, offset, Leaf, i);
    } else if i in AllLive(src, left) {
      TableInField(l, src, offset, Left, i);
    } else if i in AllLive(src, masks) {
      var s := LiveStep(src, masks, i);
      assert InSoms(l, src, i);
    } else {
      TableInField(l, src, offset, Som, i);
    }
  }

  lemma NothingLive(m: Memory)
    ensures AllLive(m, []) == {}
  {
  }

  /** So bytes outside the fields are as they were. */
  lemma ElsewhereKept(l: Layout, t0: Memory, t: Memory, src: Memory, offset: nat, area: set<nat>)
    requires Fits(src, l.Plan(src, offset)) && Restored(t0, t, src, area) && area <= AllLive(src, l.Plan(src, offset))
    ensures forall i: nat :: i < |t| && !InField(l, src, offset, i) ==> t[i] == t0[i]
  {
    hide InField, Fits, AllLive, Layout.Plan;
    forall i: nat | i < |t| && !InField(l, src, offset, i) ensures t[i] == t0[i] {
      if i in area {
        PlanInFields(l, src, offset, i);
      }
    }
  }
}
