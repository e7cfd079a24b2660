/**
 hs_alloc_scratch of src/scratch.c: one scratch, raised to the needs of each
 database that it is allocated for, and validScratch of src/runtime.c.
 */
module ScratchGrowth {
  import opened Common
  import opened Arena
  import opened Allocations

  const STREAM_HEADER := 16

  datatype Mode = Block | Streaming | Vectored

  /** The sizes that a RoseEngine states. */
  datatype Rose = Rose(
    queueCount: nat, aqa: nat, dkeys: nat, dkeyLogSize: nat, mode: Mode, stateEnd: nat, tState: nat,
    scratchState: nat, anchoredDistance: nat, anchoredFatbit: nat, delayFatbit: nat, handled: nat,
    somCount: nat, somFatbit: nat)
  {
    /** As the compiler writes them: sizes of fatbits, that of the dedupe log for the number of its keys. */
    predicate Valid() {
      dkeyLogSize == FatbitSize(dkeys) && aqa % 8 == 0 && anchoredFatbit % 8 == 0 && delayFatbit % 8 == 0 &&
      handled % 8 == 0 && somFatbit % 8 == 0
    }

    function BState(): nat {
      match mode
      case Block => stateEnd
      case Vectored => STREAM_HEADER + stateEnd
      case Streaming => 0
    }
  }

  const ZERO := Sizes(0, 0, 0, 0, 0, 0, 0, 0, 0, 0, 0, 0, 0)

  function Raised(p: Sizes, r: Rose): Sizes {
    Sizes(Max(p.queueCount, r.queueCount), Max(p.aqa, r.aqa),
          Max(p.dkeys, r.dkeys), if r.dkeys > p.dkeys then r.dkeyLogSize else p.dedupeLog,
          Max(p.bState, r.BState()), Max(p.tState, r.tState), Max(p.fullState, r.scratchState),
          Max(p.anchoredLen, r.anchoredDistance), Max(p.anchoredFatbit, r.anchoredFatbit),
          Max(p.delayFatbit, r.delayFatbit), Max(p.handled, r.handled),
          Max(p.somCount, r.somCount), Max(p.somFatbit, r.somFatbit))
  }

  class HsScratch {
    var sizes: Sizes
    var inUse: bool
    var at: nat
    var regions: seq<Region>

    /** alloc_scratch. */
    constructor (pl: Platform, p: Sizes, base: nat)
      requires pl.Valid() && p.Valid()
      ensures sizes == p && !inUse && at % 64 == 0 && AllAligned(regions)
      ensures base <= at && InOrder(regions, at + pl.header, base + ScratchSize(pl, p))
    {
      var s, rs := AllocScratch(pl, p, base);
      sizes, inUse, at, regions := p, false, s, rs;
    }
  }

  /** One sizing field: `proto` is raised to what the database needs. */
  method Raise(have: nat, need: nat, resize: bool) returns (now: nat, grew: bool)
    ensures now == Max(have, need) && grew == (resize || need > have)
  {
    now, grew := have, resize;
    if need > have {
      grew := true;
      now := need;
    }
  }

  /** The sizing part of hs_alloc_scratch, field by field. */
  method RaiseSizes(p: Sizes, r: Rose) returns (proto: Sizes, resize: bool)
    ensures proto == Raised(p, r) && (!resize ==> proto == p)
  {
    resize := false;
    var anchoredLen, anchoredFatbit, delayFatbit, handled, tState, somCount, somFatbit;
    var queueCount, aqa, bState, fullState;
    anchoredLen, resize := Raise(p.anchoredLen, r.anchoredDistance, resize);
    anchoredFatbit, resize := Raise(p.anchoredFatbit, r.anchoredFatbit, resize);
    delayFatbit, resize := Raise(p.delayFatbit, r.delayFatbit, resize);
    handled, resize := Raise(p.handled, r.handled, resize);
    tState, resize := Raise(p.tState, r.tState, resize);
    somCount, resize := Raise(p.somCount, r.somCount, resize);
    somFatbit, resize := Raise(p.somFatbit, r.somFatbit, resize);
    queueCount, resize := Raise(p.queueCount, r.queueCount, resize);
    aqa, resize := Raise(p.aqa, r.aqa, resize);
    bState, resize := Raise(p.bState, r.BState(), resize);
    fullState, resize := Raise(p.fullState, r.scratchState, resize);
    var dkeys, dedupeLog := p.dkeys, p.dedupeLog;
    if r.dkeys > p.dkeys {
      resize := true;
      dkeys, dedupeLog := r.dkeys, r.dkeyLogSize;
    }
    proto := Sizes(queueCount, aqa, dkeys, dedupeLog, bState, tState, fullState, anchoredLen, anchoredFatbit,
                   delayFatbit, handled, somCount, somFatbit);
  }

  lemma ZeroIsValid()
    ensures ZERO.Valid()
  {
  }

  lemma RaisedIsValid(p: Sizes, r: Rose)
    requires p.Valid() && r.Valid()
    ensures Raised(p, r).Valid()
  {
    FatbitIsEights(r.dkeys);
  }

  /** hs_alloc_scratch; `protoBase` and `base` are what the allocator answers, 0 for nothing. */
  method HsAllocScratch(pl: Platform, r: Rose, scratch: HsScratch?, protoBase: nat, base: nat)
      returns (code: int, result: HsScratch?)
    requires pl.Valid() && r.Valid() && (scratch != null ==> scratch.sizes.Valid())
    modifies scratch
    ensures code == HS_SCRATCH_IN_USE <==> scratch != null && old(scratch.inUse)
    ensures code == HS_SCRATCH_IN_USE ==> result == scratch && scratch.inUse && scratch.sizes == old(scratch.sizes)
    ensures code == HS_NOMEM ==> result == null
    ensures code == HS_SUCCESS ==>
              result != null && !result.inUse && result.sizes.Valid() &&
              result.sizes == Raised(if scratch == null then ZERO else old(scratch.sizes), r)
    ensures code == HS_SUCCESS || code == HS_NOMEM || code == HS_SCRATCH_IN_USE
    ensures code == HS_NOMEM ==> protoBase == 0 || base == 0
    ensures code == HS_SUCCESS && result != scratch ==> fresh(result)
  {
    hide Raised, Sizes.Valid, Rose.Valid, ScratchSize, InOrder, AllAligned, Platform.Valid, ZERO;
    if scratch != null {
      if scratch.inUse {
        return HS_SCRATCH_IN_USE, scratch;
      }
      scratch.inUse := true;
    }
    if protoBase == 0 {
      return HS_NOMEM, null;
    }
    ZeroIsValid();
    var have := if scratch == null then ZERO else scratch.sizes;
    RaisedIsValid(have, r);
    var proto, resize := RaiseSizes(have, r);
    resize := resize || scratch == null;
    if resize {
      if base == 0 {
        return HS_NOMEM, null;
      }
      result := new HsScratch(pl, proto, base);
    } else {
      scratch.inUse := false;
      result := scratch;
    }
    code := HS_SUCCESS;
  }

  // ----- many databases

  function AllRaised(p: Sizes, dbs: seq<Rose>): Sizes
    decreases |dbs|
  {
    if dbs == [] then p else AllRaised(Raised(p, dbs[0]), dbs[1..])
  }

  /** The scratch has room for what scanning with the database uses. */
  predicate Covers(p: Sizes, r: Rose) {
    r.queueCount <= p.queueCount && r.aqa <= p.aqa && r.dkeys <= p.dkeys && r.dkeyLogSize <= p.dedupeLog &&
    r.BState() <= p.bState && r.tState <= p.tState && r.scratchState <= p.fullState &&
    r.anchoredDistance <= p.anchoredLen && r.anchoredFatbit <= p.anchoredFatbit &&
    r.delayFatbit <= p.delayFatbit && r.handled <= p.handled && r.somCount <= p.somCount && r.somFatbit <= p.somFatbit
  }

  predicate NoSmaller(p: Sizes, q: Sizes) {
    p.queueCount <= q.queueCount && p.aqa <= q.aqa && p.dkeys <= q.dkeys && p.dedupeLog <= q.dedupeLog &&
    p.bState <= q.bState && p.tState <= q.tState && p.fullState <= q.fullState && p.anchoredLen <= q.anchoredLen &&
    p.anchoredFatbit <= q.anchoredFatbit && p.delayFatbit <= q.delayFatbit && p.handled <= q.handled &&
    p.somCount <= q.somCount && p.somFatbit <= q.somFatbit
  }

  lemma FatbitSizeGrows(a: nat, b: nat)
    requires a <= b
    ensures FatbitSize(a) <= FatbitSize(b)
  {
    MmbitSizeGrows(a, b);
  }

  /** All but the dedupe log. */
  predicate CoversRest(p: Sizes, r: Rose) { Covers(p, r.(dkeyLogSize := 0)) }

  /** The log has been sized for its keys, or not at all. */
  predicate Sized(p: Sizes) { if p.dkeys == 0 then p.dedupeLog == 0 else p.dedupeLog == FatbitSize(p.dkeys) }

  lemma RaisedCovers(p: Sizes, r: Rose)
    requires Sized(p) && r.Valid()
    ensures Sized(Raised(p, r)) && NoSmaller(p, Raised(p, r)) && CoversRest(Raised(p, r), r)
    ensures Covers(Raised(p, r), r) <==> Raised(p, r).dkeys > 0
  {
    hide FatbitSize;
    FatbitIsEights(r.dkeys);
    if p.dkeys <= r.dkeys {
      FatbitSizeGrows(p.dkeys, r.dkeys);
    } else {
      FatbitSizeGrows(r.dkeys, p.dkeys);
    }
  }

  lemma {:induction false} NeverSmaller(p: Sizes, dbs: seq<Rose>)
    requires Sized(p) && forall i :: 0 <= i < |dbs| ==> dbs[i].Valid()
    ensures NoSmaller(p, AllRaised(p, dbs)) && Sized(AllRaised(p, dbs))
    decreases |dbs|
  {
    hide Sized;
    if dbs != [] {
      RaisedCovers(p, dbs[0]);
      NeverSmaller(Raised(p, dbs[0]), dbs[1..]);
    }
  }

  /** After any sequence of successful calls every field but the dedupe log covers every database that was passed. */
  lemma {:induction false} CoversAll(p: Sizes, dbs: seq<Rose>, i: nat)
    requires Sized(p) && (forall k :: 0 <= k < |dbs| ==> dbs[k].Valid()) && i < |dbs|
    ensures CoversRest(AllRaised(p, dbs), dbs[i]) && dbs[i].dkeys <= AllRaised(p, dbs).dkeys
    decreases |dbs|
  {
    hide Sized, FatbitSize;
    RaisedCovers(p, dbs[0]);
    if i > 0 {
      CoversAll(Raised(p, dbs[0]), dbs[1..], i - 1);
    } else {
      NeverSmaller(Raised(p, dbs[0]), dbs[1..]);
    }
  }

  /** Some database of the sequence has dedupe keys. */
  ghost predicate AnyKeys(dbs: seq<Rose>) {
    exists i :: 0 <= i < |dbs| && dbs[i].dkeys > 0
  }

  lemma {:induction false} KeysCounted(p: Sizes, dbs: seq<Rose>)
    ensures AllRaised(p, dbs).dkeys > 0 <==> p.dkeys > 0 || AnyKeys(dbs)
    decreases |dbs|
  {
    if dbs != [] {
      KeysCounted(Raised(p, dbs[0]), dbs[1..]);
      if AnyKeys(dbs[1..]) {
        var i :| 0 <= i < |dbs| - 1 && dbs[1..][i].dkeys > 0;
        assert dbs[i + 1].dkeys > 0;
      }
      if AnyKeys(dbs) && dbs[0].dkeys == 0 {
        var i :| 0 <= i < |dbs| && dbs[i].dkeys > 0;
        assert dbs[1..][i - 1].dkeys > 0;
      }
    }
  }

  /**
   The dedupe logs, which a scan with SOM clears whether or not the report at hand has a
   dedupe key, are there exactly when some database so far has such keys.
   */
  lemma LogCoveredWhen(dbs: seq<Rose>, i: nat)
    requires i < |dbs| && forall k :: 0 <= k < |dbs| ==> dbs[k].Valid()
    ensures Covers(AllRaised(ZERO, dbs), dbs[i]) <==> AnyKeys(dbs)
  {
    hide FatbitSize;
    var p := AllRaised(ZERO, dbs);
    CoversAll(ZERO, dbs, i);
    NeverSmaller(ZERO, dbs);
    KeysCounted(ZERO, dbs);
    FatbitIsEights(dbs[i].dkeys);
    FatbitSizeGrows(dbs[i].dkeys, p.dkeys);
  }

  /** A database that reports starts of match and has no dedupe key. */
  function Keyless(): Rose {
    Rose(1, 32, 0, FatbitSize(0), Block, 0, 0, 0, 0, 32, 32, 32, 1, 32)
  }

  /** Its scratch has no room for the logs: they lie on one another and on the set of SOM slots written. */
  lemma KeylessLogsAlias(cur: nat)
    ensures Keyless().Valid() && !Covers(AllRaised(ZERO, [Keyless()]), Keyless())
    ensures var p := AllRaised(ZERO, [Keyless()]);
            Sane(Logs(p)) &&
            var rs := Regions(cur, Logs(p));
            |rs| == 10 && (forall i :: 4 <= i < 8 ==> rs[i].size == 0 && rs[i].at == rs[8].at) && rs[8].size == FATBIT
  {
    FatbitIsEights(0);
    assert [Keyless()][1..] == [];
    var p := AllRaised(ZERO, [Keyless()]);
    assert p == Raised(ZERO, Keyless());
    assert FatbitSize(0) == 32;
    LogRegions(p, cur);
  }

  // ----- accepted by the runtime

  /** validScratch, for an aligned scratch with its magic number. */
  predicate ValidScratch(r: Rose, p: Sizes) {
    !(r.mode.Block? && r.stateEnd > p.bState) && !(r.queueCount > p.queueCount)
  }

  /** Every one of them is accepted, and a vectored one finds room for a stream in the block state. */
  lemma EveryDatabaseAccepted(dbs: seq<Rose>, i: nat)
    requires i < |dbs| && forall k :: 0 <= k < |dbs| ==> dbs[k].Valid()
    ensures ValidScratch(dbs[i], AllRaised(ZERO, dbs))
    ensures dbs[i].mode.Vectored? ==> STREAM_HEADER + dbs[i].stateEnd <= AllRaised(ZERO, dbs).bState
  {
    CoversAll(ZERO, dbs, i);
  }
}
