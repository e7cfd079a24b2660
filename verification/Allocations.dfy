/**
 The three hand-packed allocations: the Hyperscan scratch (src/scratch.c), the
 Chimera scratch (chimera/ch_scratch.c) and the Chimera database
 (chimera/ch_compile.cpp); and the growth of one scratch over many databases.
 */
module Allocations {
  import opened Arena
  import MultibitCodec
  import MultibitSet

  // ----- fatbits

  const FATBIT := 32

  /** mmbit_size and fatbit_size. */
  function MmbitSize(bits: nat): nat { MultibitCodec.Size(MultibitCodec.Multibit(0, bits)) }

  function FatbitSize(bits: nat): nat { if MmbitSize(bits) < FATBIT then FATBIT else MmbitSize(bits) }

  lemma {:induction false} LevelsGrow(a: nat, b: nat)
    requires a <= b
    ensures MultibitCodec.MaxLevel(a) <= MultibitCodec.MaxLevel(b)
    decreases b
  {
    if a > 64 {
      LevelsGrow((a + 63) / 64, (b + 63) / 64);
    }
  }

  /** More keys never take less room, across the change from flat to pyramid and from level to level. */
  lemma MmbitSizeGrows(a: nat, b: nat)
    requires a <= b
    ensures MmbitSize(a) <= MmbitSize(b)
  {
    hide MultibitCodec.RootOffset, MultibitCodec.MaxLevel;
    LevelsGrow(a, b);
    MultibitSet.RootsGrow(MultibitCodec.MaxLevel(a), MultibitCodec.MaxLevel(b));
    if a <= 256 < b {
      assert (b + 63) / 64 >= 5;
    }
  }

  lemma FatbitIsEights(bits: nat)
    ensures FatbitSize(bits) % 8 == 0 && FatbitSize(bits) >= FATBIT
  {
    if bits > 256 {
      var n := MultibitCodec.RootOffset(MultibitCodec.MaxLevel(bits)) + (bits + 63) / 64;
      assert MmbitSize(bits) == 8 * n;
    }
  }

  // ----- the Hyperscan scratch

  const DELAY_SLOT_COUNT := 32
  const PTR_SIZE := 8

  /** sizeof struct mq, struct queue_match and struct hs_scratch; the last is cacheline aligned. */
  datatype Platform = Platform(mq: nat, queueMatch: nat, header: nat) {
    predicate Valid() { mq % 8 == 0 && queueMatch % 8 == 0 && header % 64 == 0 }
  }

  /** The sizing fields of a scratch. */
  datatype Sizes = Sizes(
    queueCount: nat, aqa: nat, dkeys: nat, dedupeLog: nat, bState: nat, tState: nat, fullState: nat,
    anchoredLen: nat, anchoredFatbit: nat, delayFatbit: nat, handled: nat, somCount: nat, somFatbit: nat)
  {
    /** Fatbit sizes are multiples of eight. */
    predicate Valid() {
      aqa % 8 == 0 && dedupeLog % 8 == 0 && anchoredFatbit % 8 == 0 && delayFatbit % 8 == 0 && handled % 8 == 0 &&
      somFatbit % 8 == 0
    }
  }

  /** fatbit_array_size. */
  function FatbitArraySize(n: nat, fatbit: nat): nat {
    RoundUp(RoundUp(PTR_SIZE * n, 8) + fatbit * n, 8)
  }

  lemma FatbitArrayHolds(n: nat, fatbit: nat)
    ensures PTR_SIZE * n + n * fatbit <= FatbitArraySize(n, fatbit) <= PTR_SIZE * n + n * fatbit + 14
  {
    hide RoundUp;
  }

  /** alloc_size. */
  function ScratchSize(pl: Platform, p: Sizes): nat {
    pl.header +
    (p.queueCount * pl.mq + 63 + p.bState + p.tState + p.fullState + 63 + p.handled + p.aqa +
     2 * p.dedupeLog + 2 * p.dedupeLog + 2 * 8 * p.dkeys + FatbitArraySize(p.anchoredLen, p.anchoredFatbit) +
     p.queueCount * pl.queueMatch + FatbitArraySize(DELAY_SLOT_COUNT, p.delayFatbit) +
     p.somCount * 8 + p.somFatbit + p.somFatbit + p.somCount * 8 + 15) + 256
  }

  // The steps of alloc_scratch, in groups.

  function Queues(pl: Platform, p: Sizes): seq<Step> {
    [Align(8), Take(p.queueCount * pl.mq, 8), Take(p.somCount * 8, 8), Take(p.somCount * 8, 8)]
  }

  function FatbitArray(n: nat, fatbit: nat): seq<Step> {
    [Align(8), Take(PTR_SIZE * n, 8), Align(8)] + Repeat(n, Take(fatbit, 8))
  }

  function CatchUp(pl: Platform, p: Sizes): seq<Step> { [Align(8), Take(p.queueCount * pl.queueMatch, 8)] }

  function States(p: Sizes): seq<Step> { [Take(p.bState, 8), Take(p.tState, 1), Align(64)] }

  function Logs(p: Sizes): seq<Step> {
    [Take(8 * p.dkeys, 8), Take(8 * p.dkeys, 8), Take(p.aqa, 8), Take(p.handled, 8)] +
    ([Take(p.dedupeLog, 8), Take(p.dedupeLog, 8), Take(p.dedupeLog, 8), Take(p.dedupeLog, 8)] +
     [Take(p.somFatbit, 8), Take(p.somFatbit, 8)])
  }

  function FullState(p: Sizes): seq<Step> { [Align(64), Take(p.fullState, 64)] }

  function BeforeStates(pl: Platform, p: Sizes): seq<Step> {
    Queues(pl, p) + (FatbitArray(DELAY_SLOT_COUNT, p.delayFatbit) +
                     (FatbitArray(p.anchoredLen, p.anchoredFatbit) + CatchUp(pl, p)))
  }

  function FromStates(p: Sizes): seq<Step> { States(p) + (Logs(p) + FullState(p)) }

  function ScratchSteps(pl: Platform, p: Sizes): seq<Step> { BeforeStates(pl, p) + FromStates(p) }

  lemma FatbitArrayBytes(n: nat, fatbit: nat)
    ensures Sane(FatbitArray(n, fatbit))
    ensures Bytes(FatbitArray(n, fatbit)) == PTR_SIZE * n + n * fatbit && Slack(FatbitArray(n, fatbit)) == 14
  {
    hide Bytes, Slack, Repeat;
    Single(PTR_SIZE * n, 8, 8);
    Short(Align(8), Take(PTR_SIZE * n, 8), Align(8), Align(8));
    RepeatBytes(n, fatbit, 8);
    Joined([Align(8), Take(PTR_SIZE * n, 8), Align(8)], Repeat(n, Take(fatbit, 8)));
  }

  lemma BeforeStatesBytes(pl: Platform, p: Sizes)
    ensures Sane(BeforeStates(pl, p)) && Slack(BeforeStates(pl, p)) == 42
    ensures Bytes(BeforeStates(pl, p)) ==
            p.queueCount * pl.mq + p.somCount * 8 + p.somCount * 8 + p.queueCount * pl.queueMatch +
            (PTR_SIZE * DELAY_SLOT_COUNT + DELAY_SLOT_COUNT * p.delayFatbit) +
            (PTR_SIZE * p.anchoredLen + p.anchoredLen * p.anchoredFatbit)
  {
    hide Bytes, Slack, FatbitArray, Sane;
    var q, s, m := p.queueCount * pl.mq, p.somCount * 8, p.queueCount * pl.queueMatch;
    Single(q, 8, 8);
    Single(s, 8, 8);
    Single(m, 8, 8);
    Short(Align(8), Take(q, 8), Take(s, 8), Take(s, 8));
    Short(Align(8), Take(m, 8), Align(8), Align(8));
    FatbitArrayBytes(DELAY_SLOT_COUNT, p.delayFatbit);
    FatbitArrayBytes(p.anchoredLen, p.anchoredFatbit);
    var d, a := FatbitArray(DELAY_SLOT_COUNT, p.delayFatbit), FatbitArray(p.anchoredLen, p.anchoredFatbit);
    Joined(a, CatchUp(pl, p));
    Joined(d, a + CatchUp(pl, p));
    Joined(Queues(pl, p), d + (a + CatchUp(pl, p)));
  }

  lemma LogsBytes(p: Sizes)
    ensures Sane(Logs(p)) && Slack(Logs(p)) == 0
    ensures Bytes(Logs(p)) == 8 * p.dkeys + 8 * p.dkeys + p.aqa + p.handled + 4 * p.dedupeLog + 2 * p.somFatbit
  {
    hide Bytes, Slack, Sane;
    var d, l, f := Take(8 * p.dkeys, 8), Take(p.dedupeLog, 8), Take(p.somFatbit, 8);
    Single(8 * p.dkeys, 8, 8);
    Single(p.aqa, 8, 8);
    Single(p.handled, 8, 8);
    Single(p.dedupeLog, 8, 8);
    Single(p.somFatbit, 8, 8);
    Short(d, d, Take(p.aqa, 8), Take(p.handled, 8));
    Short(l, l, l, l);
    Short(f, f, f, f);
    Joined([l, l, l, l], [f, f]);
    Joined([d, d, Take(p.aqa, 8), Take(p.handled, 8)], [l, l, l, l] + [f, f]);
  }

  lemma FromStatesBytes(p: Sizes)
    ensures Sane(FromStates(p)) && Slack(FromStates(p)) == 126
    ensures Bytes(FromStates(p)) == p.bState + p.tState + Bytes(Logs(p)) + p.fullState
  {
    hide Bytes, Slack, Logs, Sane;
    LogsBytes(p);
    Single(p.bState, 8, 64);
    Single(p.tState, 1, 64);
    Single(p.fullState, 64, 64);
    Short(Take(p.bState, 8), Take(p.tState, 1), Align(64), Align(64));
    Short(Align(64), Take(p.fullState, 64), Align(64), Align(64));
    Joined(Logs(p), FullState(p));
    Joined(States(p), Logs(p) + FullState(p));
  }

  /** The four logs and the two SOM fatbits after them. */
  lemma LogTail(cur: nat, log: nat, som: nat)
    ensures var l, f := Take(log, 8), Take(som, 8);
            Sane([l, l, l, l, f, f]) &&
            var rs := Regions(cur, [l, l, l, l, f, f]);
            |rs| == 6 && rs[0] == Region(cur, log, 8) && rs[1] == Region(cur + log, log, 8) &&
            rs[2] == Region(cur + log + log, log, 8) && rs[3] == Region(cur + log + log + log, log, 8) &&
            rs[4] == Region(cur + log + log + log + log, som, 8)
  {
    hide Regions;
    var l, f := Take(log, 8), Take(som, 8);
    Pair(cur + log + log + log + log, f, f, []);
    Pair(cur + log + log, l, l, [f, f]);
    Pair(cur, l, l, [l, l, f, f]);
    assert [f, f] + [] == [f, f] && [l, l] + [f, f] == [l, l, f, f] && [l, l] + [l, l, f, f] == [l, l, l, l, f, f];
    NoRegions(cur + log + log + log + log + som + som);
  }

  lemma NoRegions(cur: nat)
    ensures Regions(cur, []) == []
  {
  }

  /** Where the logs are: the fifth to eighth of the regions that Logs carves, before the two SOM fatbits. */
  lemma LogRegions(p: Sizes, cur: nat)
    ensures Sane(Logs(p))
    ensures var rs, l := Regions(cur, Logs(p)), p.dedupeLog;
            |rs| == 10 &&
            var at := cur + 8 * p.dkeys + 8 * p.dkeys + p.aqa + p.handled;
            rs[4] == Region(at, l, 8) && rs[5] == Region(at + l, l, 8) && rs[6] == Region(at + l + l, l, 8) &&
            rs[7] == Region(at + l + l + l, l, 8) && rs[8] == Region(at + l + l + l + l, p.somFatbit, 8)
  {
    LogsBytes(p);
    var d, a, h := Take(8 * p.dkeys, 8), Take(p.aqa, 8), Take(p.handled, 8);
    var l, f := Take(p.dedupeLog, 8), Take(p.somFatbit, 8);
    var tail := [l, l, l, l, f, f];
    assert [l, l, l, l] + [f, f] == tail;
    assert Logs(p) == [d, d] + ([a, h] + tail);
    hide Regions, Logs, Sane;
    LogTail(cur + 8 * p.dkeys + 8 * p.dkeys + p.aqa + p.handled, p.dedupeLog, p.somFatbit);
    Pair(cur + 8 * p.dkeys + 8 * p.dkeys, a, h, tail);
    Pair(cur, d, d, [a, h] + tail);
  }

  /** Two steps over bytes, and then more. */
  lemma Pair(cur: nat, a: Step, b: Step, more: seq<Step>)
    requires a.Take? && b.Take? && a.align > 0 && b.align > 0 && Sane(more)
    ensures Sane([a, b] + more)
    ensures Regions(cur, [a, b] + more) ==
            [Region(cur, a.size, a.align), Region(cur + a.size, b.size, b.align)] + Regions(cur + a.size + b.size, more)
  {
    var all := [a, b] + more;
    assert all[1..][1..] == more && all[1..][0] == b;
    assert Regions(cur + a.size, all[1..]) ==
           [Region(cur + a.size, b.size, b.align)] + Regions(cur + a.size + b.size, more);
  }

  /** What is carved out, rounding included, is no more than was asked for, with room to move the start. */
  lemma ScratchFits(pl: Platform, p: Sizes)
    ensures Sane(ScratchSteps(pl, p))
    ensures 63 + pl.header + Bytes(ScratchSteps(pl, p)) + Slack(ScratchSteps(pl, p)) <= ScratchSize(pl, p)
    ensures ScratchSize(pl, p) <= pl.header + Bytes(ScratchSteps(pl, p)) + 425
  {
    hide Bytes, Slack, BeforeStates, FromStates, FatbitArraySize, Sane, Logs;
    BeforeStatesBytes(pl, p);
    LogsBytes(p);
    FromStatesBytes(p);
    Joined(BeforeStates(pl, p), FromStates(p));
    FatbitArrayHolds(DELAY_SLOT_COUNT, p.delayFatbit);
    FatbitArrayHolds(p.anchoredLen, p.anchoredFatbit);
  }

  lemma TimesEight(n: nat, m: nat)
    requires m % 8 == 0
    ensures (n * m) % 8 == 0
  {
    var k := m / 8;
    assert n * m == 8 * (n * k) by { Arena.Rearrange(n, k, 8); }
  }

  lemma FatbitArrayEights(n: nat, fatbit: nat)
    requires fatbit % 8 == 0
    ensures Eights(FatbitArray(n, fatbit))
  {
  }

  lemma JoinEights(a: seq<Step>, b: seq<Step>)
    requires Eights(a) && Eights(b)
    ensures Eights(a + b)
  {
  }

  lemma ScratchChecks(pl: Platform, p: Sizes)
    requires pl.Valid() && p.Valid()
    ensures Sane(ScratchSteps(pl, p)) && ChecksFromEight(ScratchSteps(pl, p))
  {
    hide FatbitArray, ChecksFromEight;
    assert Eights(Logs(p));
    assert ChecksFromEight(FullState(p)) by { FullStateChecks(p); }
    EightsCheck(Logs(p), FullState(p));
    StatesCheck(p, Logs(p) + FullState(p));
    TimesEight(p.queueCount, pl.mq);
    TimesEight(p.queueCount, pl.queueMatch);
    FatbitArrayEights(DELAY_SLOT_COUNT, p.delayFatbit);
    FatbitArrayEights(p.anchoredLen, p.anchoredFatbit);
    var d, a := FatbitArray(DELAY_SLOT_COUNT, p.delayFatbit), FatbitArray(p.anchoredLen, p.anchoredFatbit);
    JoinEights(a, CatchUp(pl, p));
    JoinEights(d, a + CatchUp(pl, p));
    JoinEights(Queues(pl, p), d + (a + CatchUp(pl, p)));
    EightsCheck(BeforeStates(pl, p), FromStates(p));
  }

  lemma FullStateChecks(p: Sizes)
    ensures Sane(FullState(p)) && ChecksFromEight(FullState(p))
  {
    assert FullState(p)[1..] == [Take(p.fullState, 64)];
    assert Checks(64, [Take(p.fullState, 64)]);
  }

  lemma StatesCheck(p: Sizes, more: seq<Step>)
    requires Sane(more) && ChecksFromEight(more)
    ensures Sane(States(p) + more) && ChecksFromEight(States(p) + more)
  {
    var all := States(p) + more;
    assert all[1..][1..][1..] == more;
    assert Checks(64, more);
    assert all[1..][1..][0] == Align(64) && all[1..][0] == Take(p.tState, 1);
    forall a: nat | a > 0 && a % 8 == 0 ensures Checks(a, all) {
      var b := Kept(a, p.bState);
      assert Checks(Kept(b, p.tState), all[1..][1..]);
      assert b % 1 == 0;
      assert Checks(b, all[1..]);
    }
  }

  /** What is carved for each field, in order, as size and alignment. */
  ghost predicate HasFields(pl: Platform, p: Sizes, regions: seq<Region>) {
    Shapes(regions) ==
      [(p.queueCount * pl.mq, 8), (p.somCount * 8, 8), (p.somCount * 8, 8)] +  // queues, som stores
      ([(DELAY_SLOT_COUNT * PTR_SIZE, 8)] + seq(DELAY_SLOT_COUNT, _ => (p.delayFatbit, 8))) +  // delay_slots
      ([(p.anchoredLen * PTR_SIZE, 8)] + seq(p.anchoredLen, _ => (p.anchoredFatbit, 8))) +  // al_log
      [(p.queueCount * pl.queueMatch, 8), (p.bState, 8), (p.tState, 1)] +  // catchup_pq, bstate, tstate
      [(8 * p.dkeys, 8), (8 * p.dkeys, 8), (p.aqa, 8), (p.handled, 8)] +  // som_start_log, aqa, handled_roles
      [(p.dedupeLog, 8), (p.dedupeLog, 8), (p.dedupeLog, 8), (p.dedupeLog, 8)] +  // log, som_log
      [(p.somFatbit, 8), (p.somFatbit, 8), (p.fullState, 64)]  // som_set_now, som_attempted_set, fullState
  }

  lemma FatbitArrayWanted(n: nat, fatbit: nat)
    ensures Wanted(FatbitArray(n, fatbit)) == [(n * PTR_SIZE, 8)] + seq(n, _ => (fatbit, 8))
  {
    hide Wanted, Repeat;
    WantedShort(Align(8), Take(PTR_SIZE * n, 8), Align(8), Align(8));
    WantedRepeat(n, fatbit, 8);
    WantedOfTwo([Align(8), Take(PTR_SIZE * n, 8), Align(8)], Repeat(n, Take(fatbit, 8)));
  }

  lemma BeforeStatesWanted(pl: Platform, p: Sizes)
    ensures Wanted(BeforeStates(pl, p)) ==
            [(p.queueCount * pl.mq, 8), (p.somCount * 8, 8), (p.somCount * 8, 8)] +
            ([(DELAY_SLOT_COUNT * PTR_SIZE, 8)] + seq(DELAY_SLOT_COUNT, _ => (p.delayFatbit, 8))) +
            ([(p.anchoredLen * PTR_SIZE, 8)] + seq(p.anchoredLen, _ => (p.anchoredFatbit, 8))) +
            [(p.queueCount * pl.queueMatch, 8)]
  {
    hide Wanted, FatbitArray;
    var q, s, m := p.queueCount * pl.mq, p.somCount * 8, p.queueCount * pl.queueMatch;
    WantedShort(Align(8), Take(q, 8), Take(s, 8), Take(s, 8));
    WantedShort(Align(8), Take(m, 8), Align(8), Align(8));
    FatbitArrayWanted(DELAY_SLOT_COUNT, p.delayFatbit);
    FatbitArrayWanted(p.anchoredLen, p.anchoredFatbit);
    var d, a := FatbitArray(DELAY_SLOT_COUNT, p.delayFatbit), FatbitArray(p.anchoredLen, p.anchoredFatbit);
    WantedOfTwo(a, CatchUp(pl, p));
    WantedOfTwo(d, a + CatchUp(pl, p));
    WantedOfTwo(Queues(pl, p), d + (a + CatchUp(pl, p)));
  }

  lemma FromStatesWanted(p: Sizes)
    ensures Wanted(FromStates(p)) ==
            [(p.bState, 8), (p.tState, 1)] +
            [(8 * p.dkeys, 8), (8 * p.dkeys, 8), (p.aqa, 8), (p.handled, 8)] +
            [(p.dedupeLog, 8), (p.dedupeLog, 8), (p.dedupeLog, 8), (p.dedupeLog, 8)] +
            [(p.somFatbit, 8), (p.somFatbit, 8), (p.fullState, 64)]
  {
    hide Wanted;
    var d, l, f := Take(8 * p.dkeys, 8), Take(p.dedupeLog, 8), Take(p.somFatbit, 8);
    WantedShort(d, d, Take(p.aqa, 8), Take(p.handled, 8));
    WantedShort(l, l, l, l);
    WantedShort(f, f, f, f);
    WantedOfTwo([l, l, l, l], [f, f]);
    WantedOfTwo([d, d, Take(p.aqa, 8), Take(p.handled, 8)], [l, l, l, l] + [f, f]);
    WantedShort(Take(p.bState, 8), Take(p.tState, 1), Align(64), Align(64));
    WantedShort(Align(64), Take(p.fullState, 64), Align(64), Align(64));
    WantedOfTwo(Logs(p), FullState(p));
    WantedOfTwo(States(p), Logs(p) + FullState(p));
  }

  lemma ScratchHasFields(pl: Platform, p: Sizes, cur: nat)
    requires Sane(ScratchSteps(pl, p))
    ensures HasFields(pl, p, Regions(cur, ScratchSteps(pl, p)))
  {
    hide Wanted, Regions, BeforeStates, FromStates;
    CarvedAsWanted(cur, ScratchSteps(pl, p));
    BeforeStatesWanted(pl, p);
    FromStatesWanted(p);
    WantedOfTwo(BeforeStates(pl, p), FromStates(p));
  }

  /** alloc_scratch: every pointer of a scratch allocated at `base`. */
  method AllocScratch(pl: Platform, p: Sizes, base: nat) returns (s: nat, regions: seq<Region>)
    requires pl.Valid() && p.Valid()
    ensures s % 64 == 0 && base <= s
    ensures regions == Regions(s + pl.header, ScratchSteps(pl, p))
    ensures AllAligned(regions) && InOrder(regions, s + pl.header, base + ScratchSize(pl, p))
    ensures HasFields(pl, p, regions)
  {
    hide Regions, EndOf, Slack, Bytes, ScratchSteps, ScratchSize, Checks, RoundUp, AllAligned, InOrder, HasFields;
    ScratchFits(pl, p);
    ScratchChecks(pl, p);
    s := RoundUp(base, 64);
    var current;
    regions, current := Carve(s + pl.header, ScratchSteps(pl, p));
    CarvedInOrder(s + pl.header, ScratchSteps(pl, p));
    RaiseEnd(regions, s + pl.header, current, base + ScratchSize(pl, p));
    SumMultiple(s, pl.header, 64);
    CheckedIsAligned(s + pl.header, 64, ScratchSteps(pl, p));
    ScratchHasFields(pl, p, s + pl.header);
  }

  lemma {:induction false} RaiseEnd(rs: seq<Region>, lo: nat, hi: nat, higher: nat)
    requires InOrder(rs, lo, hi) && hi <= higher
    ensures InOrder(rs, lo, higher)
    decreases |rs|
  {
    if rs != [] {
      RaiseEnd(rs[1..], rs[0].End(), hi, higher);
    }
  }

  // ----- the Chimera scratch

  const CAPTURE := 24
  const PATTERN_DATA := 16
  const QUEUE_ITEM := 12
  const CH_PADDING := 4 + 8 + 8 + 4

  /** The sizing fields; `header` is sizeof struct ch_scratch. */
  datatype ChSizes = ChSizes(header: nat, patterns: nat, groups: nat, active: nat) {
    /** getPatternDataSize: the pattern data, padding, and one slice of captures for each pattern. */
    function PatternData(): nat { PATTERN_DATA * patterns + 8 + CAPTURE * (patterns * (groups + 1)) }

    function AllocSize(): nat {
      header + (groups + 1) * 4 * 3 + CAPTURE * (groups + 1) + PatternData() + active + patterns * QUEUE_ITEM +
      CH_PADDING + 256
    }

    function Steps(): seq<Step> {
      [Align(4), Take((groups + 1) * 4 * 3, 4)] + ([Align(8), Take(CAPTURE * (groups + 1), 8)] +
      ([Align(8), Take(PatternData(), 8)] + [Align(4), Take(patterns * QUEUE_ITEM, 4), Take(active, 1)]))
    }

    /** initPatternData: the array of pattern data, then the slices. */
    function Inner(): seq<Step> {
      [Take(PATTERN_DATA * patterns, 8), Align(8)] + Repeat(patterns, Take(CAPTURE * (groups + 1), 8))
    }
  }

  lemma ChFits(p: ChSizes)
    ensures Sane(p.Steps()) && 63 + p.header + Bytes(p.Steps()) + Slack(p.Steps()) <= p.AllocSize()
    ensures p.AllocSize() == p.header + Bytes(p.Steps()) + 280
  {
    hide Bytes, Slack, Sane, ChSizes.PatternData;
    var o, c, d, q := (p.groups + 1) * 4 * 3, CAPTURE * (p.groups + 1), p.PatternData(), p.patterns * QUEUE_ITEM;
    Single(o, 4, 4);
    Single(c, 8, 8);
    Single(d, 8, 8);
    Single(q, 4, 4);
    Single(p.active, 1, 4);
    Short(Align(4), Take(o, 4), Align(4), Align(4));
    Short(Align(8), Take(c, 8), Align(8), Align(8));
    Short(Align(8), Take(d, 8), Align(8), Align(8));
    Short(Align(4), Take(q, 4), Take(p.active, 1), Align(4));
    var last := [Align(4), Take(q, 4), Take(p.active, 1)];
    Joined([Align(8), Take(d, 8)], last);
    Joined([Align(8), Take(c, 8)], [Align(8), Take(d, 8)] + last);
    Joined([Align(4), Take(o, 4)], [Align(8), Take(c, 8)] + ([Align(8), Take(d, 8)] + last));
  }

  /** A step that aligns the pointer makes up for what is known before it. */
  lemma AlignThenTake(a: nat, n: nat, size: nat, more: seq<Step>)
    requires n > 0 && Sane(more) && Checks(Kept(n, size), more)
    ensures Sane([Align(n), Take(size, n)] + more) && Checks(a, [Align(n), Take(size, n)] + more)
  {
    hide Kept;
    var all := [Align(n), Take(size, n)] + more;
    assert all[1..][1..] == more && all[1..][0] == Take(size, n);
    SameRemainder(n, n, 1, 0);
    assert Checks(n, all[1..]);
  }

  lemma ChChecks(p: ChSizes, a: nat)
    ensures Sane(p.Steps()) && Checks(a, p.Steps())
  {
    hide Kept, ChSizes.PatternData;
    var o, c, d, q := (p.groups + 1) * 4 * 3, CAPTURE * (p.groups + 1), p.PatternData(), p.patterns * QUEUE_ITEM;
    var last := [Take(p.active, 1)];
    assert Checks(Kept(4, q), last);
    AlignThenTake(Kept(8, d), 4, q, last);
    assert [Align(4), Take(q, 4)] + last == [Align(4), Take(q, 4), Take(p.active, 1)];
    var queue := [Align(4), Take(q, 4), Take(p.active, 1)];
    AlignThenTake(Kept(8, c), 8, d, queue);
    AlignThenTake(Kept(4, o), 8, c, [Align(8), Take(d, 8)] + queue);
    AlignThenTake(a, 4, o, [Align(8), Take(c, 8)] + ([Align(8), Take(d, 8)] + queue));
  }

  lemma InnerChecks(p: ChSizes)
    ensures Sane(p.Inner()) && ChecksFromEight(p.Inner())
  {
    hide Checks, Eights, Repeat, ChecksFromEight, Sane;
    var d, c := PATTERN_DATA * p.patterns, CAPTURE * (p.groups + 1);
    EvenSizes(p.patterns, p.groups);
    RepeatEights(p.patterns, c);
    PairEights(d);
    JoinEights([Take(d, 8), Align(8)], Repeat(p.patterns, Take(c, 8)));
    NoChecks();
    EightsCheck(p.Inner(), []);
    assert p.Inner() + [] == p.Inner();
  }

  lemma RepeatEights(n: nat, size: nat)
    requires size % 8 == 0
    ensures Eights(Repeat(n, Take(size, 8)))
  {
  }

  lemma PairEights(size: nat)
    requires size % 8 == 0
    ensures Eights([Take(size, 8), Align(8)])
  {
  }

  lemma EvenSizes(patterns: nat, groups: nat)
    ensures (PATTERN_DATA * patterns) % 8 == 0 && (CAPTURE * (groups + 1)) % 8 == 0
  {
  }

  lemma NoChecks()
    ensures Sane([]) && ChecksFromEight([])
  {
  }

  lemma InnerBytes(p: ChSizes)
    ensures Sane(p.Inner()) && Bytes(p.Inner()) + Slack(p.Inner()) <= p.PatternData()
  {
    hide Bytes, Slack, Sane, Repeat;
    var d, slices := PATTERN_DATA * p.patterns, Repeat(p.patterns, Take(CAPTURE * (p.groups + 1), 8));
    Single(d, 8, 8);
    Short(Take(d, 8), Align(8), Align(8), Align(8));
    RepeatBytes(p.patterns, CAPTURE * (p.groups + 1), 8);
    Joined([Take(d, 8), Align(8)], slices);
    SliceBytes(p.patterns, p.groups);
  }

  lemma InnerFits(p: ChSizes, at: nat)
    requires at % 8 == 0
    ensures Sane(p.Inner()) && EndOf(at, p.Inner()) <= at + p.PatternData()
    ensures AllAligned(Regions(at, p.Inner())) && InOrder(Regions(at, p.Inner()), at, at + p.PatternData())
  {
    hide Bytes, Slack, Sane, Regions, EndOf, InOrder, AllAligned, Checks, ChSizes.Inner, ChSizes.PatternData;
    InnerChecks(p);
    InnerBytes(p);
    CarvedInOrder(at, p.Inner());
    RaiseEnd(Regions(at, p.Inner()), at, EndOf(at, p.Inner()), at + p.PatternData());
    CheckedIsAligned(at, 8, p.Inner());
  }

  lemma SliceBytes(patterns: nat, groups: nat)
    ensures patterns * (CAPTURE * (groups + 1)) == CAPTURE * (patterns * (groups + 1))
  {
  }

  /** alloc_scratch of chimera/ch_scratch.c: the regions, and the slices that initPatternData cuts. */
  method ChAllocScratch(p: ChSizes, base: nat) returns (s: nat, regions: seq<Region>, slices: seq<Region>)
    ensures s % 64 == 0 && base <= s
    ensures Sane(p.Steps()) && regions == Regions(s + p.header, p.Steps())
    ensures AllAligned(regions) && InOrder(regions, s + p.header, base + p.AllocSize())
    // ovector, captured, patternData, the queue and the active multibit
    ensures Shapes(regions) ==
            [(12 * (p.groups + 1), 4), (CAPTURE * (p.groups + 1), 8), (p.PatternData(), 8),
             (QUEUE_ITEM * p.patterns, 4), (p.active, 1)]
    ensures |regions| == 5 && AllAligned(slices) && InOrder(slices, regions[2].at, regions[2].End())
    // the array of pattern data, and a slice of captures for each pattern
    ensures Shapes(slices) == [(PATTERN_DATA * p.patterns, 8)] + seq(p.patterns, _ => (CAPTURE * (p.groups + 1), 8))
  {
    hide EndOf, Slack, Bytes, ChSizes.AllocSize, ChSizes.Inner, ChSizes.PatternData, Checks, RoundUp, InOrder,
         ChSizes.Steps, Regions, Wanted;
    ChFits(p);
    s := RoundUp(base, 64);
    var current;
    regions, current := Carve(s + p.header, p.Steps());
    CarvedInOrder(s + p.header, p.Steps());
    RaiseEnd(regions, s + p.header, current, base + p.AllocSize());
    ChChecks(p, 1);
    CheckedIsAligned(s + p.header, 1, p.Steps());
    CarvedAsWanted(s + p.header, p.Steps());
    ChWanted(p);
    ghost var third := Shapes(regions)[2];
    assert third == (regions[2].size, regions[2].align);
    InnerFits(p, regions[2].at);
    CarvedAsWanted(regions[2].at, p.Inner());
    InnerWanted(p);
    slices, current := Carve(regions[2].at, p.Inner());
  }

  lemma ChWanted(p: ChSizes)
    ensures Wanted(p.Steps()) ==
            [(12 * (p.groups + 1), 4), (CAPTURE * (p.groups + 1), 8), (p.PatternData(), 8),
             (QUEUE_ITEM * p.patterns, 4), (p.active, 1)]
  {
    hide Wanted, ChSizes.PatternData;
    var o, c, d, q := (p.groups + 1) * 4 * 3, CAPTURE * (p.groups + 1), p.PatternData(), p.patterns * QUEUE_ITEM;
    WantedShort(Align(4), Take(o, 4), Align(4), Align(4));
    WantedShort(Align(8), Take(c, 8), Align(8), Align(8));
    WantedShort(Align(8), Take(d, 8), Align(8), Align(8));
    WantedShort(Align(4), Take(q, 4), Take(p.active, 1), Align(4));
    var last := [Align(4), Take(q, 4), Take(p.active, 1)];
    WantedOfTwo([Align(8), Take(d, 8)], last);
    WantedOfTwo([Align(8), Take(c, 8)], [Align(8), Take(d, 8)] + last);
    WantedOfTwo([Align(4), Take(o, 4)], [Align(8), Take(c, 8)] + ([Align(8), Take(d, 8)] + last));
  }

  lemma InnerWanted(p: ChSizes)
    ensures Wanted(p.Inner()) == [(PATTERN_DATA * p.patterns, 8)] + seq(p.patterns, _ => (CAPTURE * (p.groups + 1), 8))
  {
    hide Wanted, Repeat;
    var d, slices := PATTERN_DATA * p.patterns, Repeat(p.patterns, Take(CAPTURE * (p.groups + 1), 8));
    WantedShort(Take(d, 8), Align(8), Align(8), Align(8));
    WantedRepeat(p.patterns, CAPTURE * (p.groups + 1), 8);
    WantedOfTwo([Take(d, 8), Align(8)], slices);
  }

  // ----- the Chimera database

  /** What ch_compile_multi_int packs; `header` is sizeof struct ch_bytecode, `patterns` the pattern sizes. */
  datatype Bytecode = Bytecode(header: nat, multi: nat, unguarded: nat, patterns: seq<nat>) {
    function PatternBytes(n: nat): nat
      requires n <= |patterns|
    {
      if n == 0 then 0 else PatternBytes(n - 1) + RoundUp(patterns[n - 1], 64)
    }

    /** The parts without any padding, and what is asked for. */
    function Needed(): nat {
      header + multi + 4 * unguarded + 4 * |patterns| + PatternBytes(|patterns|)
    }

    function Length(): nat { header + multi + 4 + 4 * unguarded + 4 * |patterns| + PatternBytes(|patterns|) + 128 }

    function PatternSteps(n: nat): seq<Step>
      requires n <= |patterns|
    {
      if n == 0 then [] else PatternSteps(n - 1) + [Take(RoundUp(patterns[n - 1], 64), 64)]
    }

    function Steps(): seq<Step> {
      [Align(64), Take(multi, 64)] +
      ([Align(4), Take(4 * unguarded, 4), Take(4 * |patterns|, 4), Align(64)] + PatternSteps(|patterns|))
    }
  }

  lemma {:induction false} PatternStepsBytes(b: Bytecode, n: nat)
    requires n <= |b.patterns|
    ensures Sane(b.PatternSteps(n)) && Bytes(b.PatternSteps(n)) == b.PatternBytes(n) && Slack(b.PatternSteps(n)) == 0
  {
    hide RoundUp;
    if n > 0 {
      PatternStepsBytes(b, n - 1);
      Single(RoundUp(b.patterns[n - 1], 64), 64, 64);
      Joined(b.PatternSteps(n - 1), [Take(RoundUp(b.patterns[n - 1], 64), 64)]);
    }
  }

  lemma {:induction false} PatternStepsCheck(b: Bytecode, n: nat, more: seq<Step>)
    requires n <= |b.patterns| && Sane(more) && Checks(64, more)
    ensures Sane(b.PatternSteps(n) + more) && Checks(64, b.PatternSteps(n) + more)
    decreases n
  {
    if n == 0 {
      assert b.PatternSteps(0) + more == more;
    } else {
      var s := Take(RoundUp(b.patterns[n - 1], 64), 64);
      assert ([s] + more)[1..] == more;
      assert Checks(64, [s] + more);
      assert b.PatternSteps(n) + more == b.PatternSteps(n - 1) + ([s] + more);
      PatternStepsCheck(b, n - 1, [s] + more);
    }
  }

  lemma BytecodeFits(b: Bytecode)
    ensures Sane(b.Steps()) && b.header + Bytes(b.Steps()) == b.Needed() && Slack(b.Steps()) == 129
  {
    hide Bytes, Slack, Sane, Bytecode.PatternSteps, Bytecode.PatternBytes;
    var u, t, ps := Take(4 * b.unguarded, 4), Take(4 * |b.patterns|, 4), b.PatternSteps(|b.patterns|);
    Single(b.multi, 64, 64);
    Single(4 * b.unguarded, 4, 4);
    Single(4 * |b.patterns|, 4, 64);
    Short(Align(64), Take(b.multi, 64), Align(64), Align(64));
    Short(Align(4), u, t, Align(64));
    PatternStepsBytes(b, |b.patterns|);
    Joined([Align(4), u, t, Align(64)], ps);
    Joined([Align(64), Take(b.multi, 64)], [Align(4), u, t, Align(64)] + ps);
  }

  lemma KeptFour(n: nat)
    ensures Kept(4, 4 * n) == 4
  {
  }

  lemma BytecodeChecks(b: Bytecode, a: nat)
    ensures Sane(b.Steps()) && Checks(a, b.Steps())
  {
    hide Bytecode.PatternSteps, Kept;
    KeptFour(b.unguarded);
    var u, t, ps := Take(4 * b.unguarded, 4), Take(4 * |b.patterns|, 4), b.PatternSteps(|b.patterns|);
    PatternStepsCheck(b, |b.patterns|, []);
    assert ps + [] == ps;
    var rest := [t, Align(64)] + ps;
    assert rest[1..] == [Align(64)] + ps && ([Align(64)] + ps)[1..] == ps;
    assert Checks(Kept(4, 4 * |b.patterns|), [Align(64)] + ps);
    assert Checks(4, rest);
    AlignThenTake(Kept(64, b.multi), 4, 4 * b.unguarded, rest);
    assert [Align(4), u] + rest == [Align(4), u, t, Align(64)] + ps;
    AlignThenTake(a, 64, b.multi, [Align(4), u, t, Align(64)] + ps);
  }

  const CH_HEADER_FIELDS := 24
  const CH_HEADER := 88

  /** The layout half of ch_compile_multi_int: the database is at `addr`, its bytecode at the returned offset. */
  method LayoutChimera(b: Bytecode, addr: nat) returns (bytecode: nat, regions: seq<Region>)
    requires addr % 8 == 0
    ensures (addr + bytecode) % 64 == 0 && CH_HEADER_FIELDS <= bytecode <= CH_HEADER
    ensures Sane(b.Steps()) && regions == Regions(addr + bytecode + b.header, b.Steps())
    ensures AllAligned(regions) && InOrder(regions, addr + bytecode + b.header, addr + bytecode + b.Needed() + 129)
    ensures addr + bytecode + b.Needed() + 129 + 3 == addr + bytecode + b.Length() <= addr + CH_HEADER + b.Length()
    // the Hyperscan database, the ids of unguarded patterns, the pattern offsets and the patterns
    ensures Shapes(regions) ==
            [(b.multi, 64), (4 * b.unguarded, 4), (4 * |b.patterns|, 4)] +
            seq(|b.patterns|, i requires 0 <= i < |b.patterns| => (RoundUp(b.patterns[i], 64), 64))
  {
    hide Regions, EndOf, Slack, Bytes, Wanted, Bytecode.Steps, Bytecode.PatternBytes, Checks, RoundUp, InOrder,
         AllAligned;
    var shift := (addr + CH_HEADER) % 64;
    bytecode := CH_HEADER - shift;
    ShiftDown(addr);
    var start, current := addr + bytecode + b.header, 0;
    BytecodeFits(b);
    BytecodeChecks(b, 1);
    regions, current := Carve(start, b.Steps());
    CarvedInOrder(start, b.Steps());
    RaiseEnd(regions, start, current, addr + bytecode + b.Needed() + 129);
    CheckedIsAligned(start, 1, b.Steps());
    CarvedAsWanted(start, b.Steps());
    BytecodeWanted(b);
  }

  lemma {:induction false} PatternStepsWanted(b: Bytecode, n: nat)
    requires n <= |b.patterns|
    ensures Wanted(b.PatternSteps(n)) == seq(n, i requires 0 <= i < n => (RoundUp(b.patterns[i], 64), 64))
  {
    hide RoundUp;
    if n > 0 {
      PatternStepsWanted(b, n - 1);
      var s := Take(RoundUp(b.patterns[n - 1], 64), 64);
      WantedShort(s, s, s, s);
      WantedOfTwo(b.PatternSteps(n - 1), [s]);
    }
  }

  lemma BytecodeWanted(b: Bytecode)
    ensures Wanted(b.Steps()) ==
            [(b.multi, 64), (4 * b.unguarded, 4), (4 * |b.patterns|, 4)] +
            seq(|b.patterns|, i requires 0 <= i < |b.patterns| => (RoundUp(b.patterns[i], 64), 64))
  {
    hide Wanted, RoundUp, Bytecode.PatternSteps;
    var u, t, ps := Take(4 * b.unguarded, 4), Take(4 * |b.patterns|, 4), b.PatternSteps(|b.patterns|);
    PatternStepsWanted(b, |b.patterns|);
    WantedShort(Align(64), Take(b.multi, 64), Align(64), Align(64));
    WantedShort(Align(4), u, t, Align(64));
    WantedOfTwo([Align(4), u, t, Align(64)], ps);
    WantedOfTwo([Align(64), Take(b.multi, 64)], [Align(4), u, t, Align(64)] + ps);
  }

  lemma ShiftDown(addr: nat)
    requires addr % 8 == 0
    ensures var shift := (addr + CH_HEADER) % 64;
            shift <= 56 && shift <= addr + CH_HEADER && (addr + (CH_HEADER - shift)) % 64 == 0
  {
    var x := addr + CH_HEADER;
    var q, r := x / 64, x % 64;
    assert x == 64 * q + r;
    assert r % 8 == 0 by {
      var k := addr / 8;
      assert r == 8 * (k + 11 - 8 * q);
    }
    SameRemainder(addr + (CH_HEADER - r), 64, q, 0);
  }

  // ----- one pattern of it

  /** patternSize, and the length that writePattern writes; `study` is looked at by one, `extra` by the other. */
  function PatternSize(header: nat, compiled: nat, study: nat): nat {
    var len := RoundUp(header, 8) + compiled;
    if study != 0 then RoundUp(len, 8) + study else len
  }

  function WrittenLength(header: nat, compiled: nat, study: nat, extra: bool): nat {
    var ptr := RoundUp(header, 8) + compiled;
    if extra then RoundUp(ptr, 8) + study else ptr
  }

  /** writePattern stays in its slot, but for study output of no bytes after code of an uneven length. */
  lemma PatternFits(header: nat, compiled: nat, study: nat, extra: bool)
    requires !extra ==> study == 0
    ensures WrittenLength(header, compiled, study, extra) <= PatternSize(header, compiled, study) <==>
            !(extra && study == 0 && compiled % 8 != 0)
    ensures WrittenLength(header, compiled, study, extra) <= RoundUp(PatternSize(header, compiled, study), 64)
  {
    var h := RoundUp(header, 8);
    var len := h + compiled;
    EvenLength(h, compiled);
    Cacheline(len);
  }

  /** A pattern of one byte of code and empty study data: seven bytes more than its size. */
  lemma EmptyStudyOverruns()
    ensures WrittenLength(64, 1, 0, true) == 72 && PatternSize(64, 1, 0) == 65
  {
  }

  lemma EvenLength(h: nat, compiled: nat)
    requires h % 8 == 0
    ensures RoundUp(h + compiled, 8) == h + compiled <==> compiled % 8 == 0
  {
    var k := h / 8;
    assert (h + compiled) % 8 == compiled % 8;
    var r := RoundUp(h + compiled, 8);
    if compiled % 8 == 0 {
      assert (r - (h + compiled)) % 8 == 0;
    }
  }

  lemma Cacheline(len: nat)
    ensures RoundUp(len, 8) <= RoundUp(len, 64)
  {
    hide RoundUp;
    var a, b := RoundUp(len, 8), RoundUp(len, 64);
    Divides(b, 64, 8);
    if a > b {
      SameRemainder(a, 8, b / 8, a - b);
    }
  }
}
